/** When the tolerance of the zero test does no harm: entries on a grid, an isolated optimum,
    and, for a single row or column, exactly when the entry taken is the smallest one. */
module Exactness {
  import opened Assignment
  import opened MunkresState

  // ----- a grid

  /** All entries are whole numbers. */
  ghost predicate IntegerMatrix(m: Matrix) {
    forall r, c :: 0 <= r < |m| && 0 <= c < |m[r]| ==> m[r][c] == m[r][c].Floor as real
  }

  /** Whole numbers lie on a grid, so they are solved exactly. */
  lemma IntegersAreSeparated(m: Matrix)
    requires IntegerMatrix(m)
    ensures Separated(m)
  {
    forall r, c | 0 <= r < |m| && 0 <= c < |m[r]|
      ensures OnGrid(m[r][c], 1.0)
    {
      assert m[r][c] == Multiple(m[r][c].Floor, 1.0);
    }
    assert MatrixOnGrid(m, 1.0);
  }

  /** So do whole multiples of 2 to the power -52. */
  lemma MultiplesAreSeparated(m: Matrix)
    requires MatrixOnGrid(m, 1.0 / 4503599627370496.0)
    ensures Separated(m)
  {
  }

  // ----- an isolated optimum

  /** No complete assignment is dearer than the cheapest by at most `slack`. */
  ghost predicate Isolated(m: Matrix, rows: nat, cols: nat, slack: real) {
    exists best :: CheapestUpTo(m, rows, cols, best, 0.0) &&
                   forall b :: Complete(b, rows, cols) && Cost(m, b, rows) > Cost(m, best, rows) ==>
                     Cost(m, b, rows) > Cost(m, best, rows) + slack
  }

  lemma IsolatedIsExact(m: Matrix, rows: nat, cols: nat, a: seq<int>, slack: real)
    requires CheapestUpTo(m, rows, cols, a, slack) && Isolated(m, rows, cols, slack)
    ensures CheapestUpTo(m, rows, cols, a, 0.0)
  {
  }

  // ----- a single line

  /** The first entry within the tolerance of the smallest is the smallest. */
  ghost predicate FirstNearIsSmallest(line: seq<real>) {
    forall x, c :: Smallest(line, x) && FirstNearSmallest(line, x, c) ==> line[c] == x
  }

  /** The entry taken is exactly the smallest if and only if the line allows no nearer one
      before it. */
  lemma TakenIsSmallest(line: seq<real>, c: int)
    requires FirstNear(line, c)
    ensures FirstNearIsSmallest(line) <==> forall i :: 0 <= i < |line| ==> line[c] <= line[i]
  {
    var x :| Smallest(line, x) && FirstNearSmallest(line, x, c);
    forall y, d | Smallest(line, y) && FirstNearSmallest(line, y, d)
      ensures y == x && d == c
    {
    }
  }

  lemma RowCost(m: Matrix, b: seq<int>)
    requires |m| == 1 && Complete(b, 1, |m[0]|) && |m[0]| > 0
    ensures 0 <= b[0] < |m[0]| && Cost(m, b, 1) == m[0][b[0]]
  {
    assert Matched(b, 0) == 0 && Cost(m, b, 0) == 0.0;
    assert Matched(b, 1) == 1;
  }

  /** A single row: what is taken is the cheapest if and only if it is the smallest entry. */
  lemma RowIsExactly(m: Matrix, a: seq<int>)
    requires |m| == 1 && |m[0]| > 0 && Complete(a, 1, |m[0]|) && FirstNear(m[0], a[0])
    ensures CheapestUpTo(m, 1, |m[0]|, a, 0.0) <==> FirstNearIsSmallest(m[0])
  {
    TakenIsSmallest(m[0], a[0]);
    RowCost(m, a);
    if CheapestUpTo(m, 1, |m[0]|, a, 0.0) {
      forall i | 0 <= i < |m[0]|
        ensures m[0][a[0]] <= m[0][i]
      {
        assert Matched([i], 0) == 0 && Matched([i], 1) == 1;
        assert Complete([i], 1, |m[0]|);
        RowCost(m, [i]);
      }
    }
    forall b | FirstNearIsSmallest(m[0]) && Complete(b, 1, |m[0]|)
      ensures Cost(m, a, 1) <= Cost(m, b, 1)
    {
      RowCost(m, b);
    }
  }

  // ----- two entries

  lemma TwoEntries(x: real)
    requires x > 0.0
    ensures FirstNearIsSmallest([x, 0.0]) <==> x >= 1.0 / 4503599627370496.0
  {
    var line := [x, 0.0];
    assert line[1] == 0.0 && Smallest(line, 0.0);
    assert FirstNearSmallest(line, 0.0, if x < 1.0 / 4503599627370496.0 then 0 else 1);
  }

  lemma TwoEntriesTaken(x: real, a: seq<int>)
    requires x > 0.0 && Complete(a, 1, 2)
    ensures a == [0] || a == [1]
    ensures Cost([[x, 0.0]], a, 1) == if a == [0] then x else 0.0
    ensures CheapestUpTo([[x, 0.0]], 1, 2, a, 0.0) <==> a == [1]
  {
    var m := [[x, 0.0]];
    RowCost(m, a);
    assert a == [a[0]];
    assert Matched([1], 0) == 0 && Matched([1], 1) == 1;
    assert Complete([1], 1, 2);
    RowCost(m, [1]);
    if a == [1] {
      forall b | Complete(b, 1, 2)
        ensures Cost(m, b, 1) >= 0.0
      {
        RowCost(m, b);
      }
    }
  }

  // ----- a single column

  /** The only matched row of a single column. */
  lemma {:induction false} MatchedRow(b: seq<int>, rows: nat, n: nat) returns (r: nat)
    requires Matching(b, rows, 1) && n <= rows && Matched(b, n) > 0
    ensures r < n && b[r] == 0
  {
    if b[n - 1] >= 0 { r := n - 1; } else { r := MatchedRow(b, rows, n - 1); }
  }

  lemma {:induction false} ColumnCost(m: Matrix, rows: nat, b: seq<int>, r: nat, n: nat)
    requires Rectangular(m, rows, 1) && |b| == rows && r < rows && n <= rows
    requires forall q :: 0 <= q < rows ==> b[q] == if q == r then 0 else -1
    ensures Cost(m, b, n) == (if r < n then m[r][0] else 0.0)
    ensures Matched(b, n) == (if r < n then 1 else 0)
  {
    if n > 0 { ColumnCost(m, rows, b, r, n - 1); }
  }

  lemma CompleteColumn(m: Matrix, rows: nat, b: seq<int>) returns (r: nat)
    requires Rectangular(m, rows, 1) && rows > 0 && Complete(b, rows, 1)
    ensures r < rows && b[r] == 0 && Cost(m, b, rows) == m[r][0]
  {
    r := MatchedRow(b, rows, rows);
    ColumnCost(m, rows, b, r, rows);
  }

  /** A single column: the same for the row that is matched. */
  lemma ColumnIsExactly(m: Matrix, a: seq<int>, row: nat)
    requires |m| > 0 && Rectangular(m, |m|, 1) && Complete(a, |m|, 1)
    requires row < |m| && a[row] == 0 && FirstNear(Column(m, 0), row)
    ensures CheapestUpTo(m, |m|, 1, a, 0.0) <==> FirstNearIsSmallest(Column(m, 0))
  {
    var rows, column := |m|, Column(m, 0);
    TakenIsSmallest(column, row);
    var taken := CompleteColumn(m, rows, a);
    assert taken == row;
    if CheapestUpTo(m, rows, 1, a, 0.0) {
      forall i: nat | i < rows
        ensures column[row] <= column[i]
      {
        var b := seq(rows, q => if q == i then 0 else -1);
        ColumnCost(m, rows, b, i, rows);
        assert Complete(b, rows, 1);
      }
    }
    forall b | FirstNearIsSmallest(column) && Complete(b, rows, 1)
      ensures Cost(m, a, rows) <= Cost(m, b, rows)
    {
      var r := CompleteColumn(m, rows, b);
    }
  }
}
