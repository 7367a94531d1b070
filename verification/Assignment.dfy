/** The assignment problem itself: what a (partial) assignment of rows to columns is, what
    it costs, and the linear-programming duality that proves one assignment cheapest.
    Nothing here mentions the algorithm. */
module Assignment {

  type Matrix = seq<seq<real>>

  ghost predicate Rectangular(m: Matrix, rows: nat, cols: nat) {
    |m| == rows && forall r :: 0 <= r < rows ==> |m[r]| == cols
  }

  function Min(a: nat, b: nat): nat {
    if a <= b then a else b
  }

  /** `a[r]` is the column given to row `r`, or -1; no column is given twice. */
  ghost predicate Matching(a: seq<int>, rows: nat, cols: nat) {
    && |a| == rows
    && (forall r :: 0 <= r < rows ==> -1 <= a[r] < cols)
    && (forall r, s :: 0 <= r < rows && 0 <= s < rows && r != s && a[r] >= 0 ==> a[r] != a[s])
  }

  /** How many of the first `n` rows have a column. */
  function Matched(a: seq<int>, n: nat): (k: nat)
    requires n <= |a|
    ensures k <= n
  {
    if n == 0 then 0 else Matched(a, n - 1) + (if a[n - 1] >= 0 then 1 else 0)
  }

  /** As large as an assignment of this matrix can be. */
  ghost predicate Complete(a: seq<int>, rows: nat, cols: nat) {
    Matching(a, rows, cols) && Matched(a, rows) == Min(rows, cols)
  }

  /** The entries of `m` picked by the first `n` rows of `a`, added up. */
  function Cost(m: Matrix, a: seq<int>, n: nat): real
    requires n <= |a| && n <= |m|
    requires forall r :: 0 <= r < n ==> a[r] < |m[r]|
  {
    if n == 0 then 0.0 else Cost(m, a, n - 1) + (if a[n - 1] >= 0 then m[n - 1][a[n - 1]] else 0.0)
  }

  // ----- sums over rows and columns

  function Sum(w: seq<real>, n: nat): real
    requires n <= |w|
  {
    if n == 0 then 0.0 else Sum(w, n - 1) + w[n - 1]
  }

  /** The weights of those of the first `n` rows that are matched. */
  ghost function RowSum(a: seq<int>, w: seq<real>, n: nat): real
    requires n <= |a| && n <= |w|
  {
    if n == 0 then 0.0 else RowSum(a, w, n - 1) + (if a[n - 1] >= 0 then w[n - 1] else 0.0)
  }

  /** The weights of the columns that the first `n` rows picked, in row order. */
  ghost function PickSum(a: seq<int>, w: seq<real>, n: nat): real
    requires n <= |a|
    requires forall r :: 0 <= r < n ==> a[r] < |w|
  {
    if n == 0 then 0.0 else PickSum(a, w, n - 1) + (if a[n - 1] >= 0 then w[a[n - 1]] else 0.0)
  }

  /** The weights of those of the first `n` columns that occur in `a`, in column order. */
  ghost function ColumnSum(a: seq<int>, w: seq<real>, n: nat): real
    requires n <= |w|
  {
    if n == 0 then 0.0 else ColumnSum(a, w, n - 1) + (if n - 1 in a then w[n - 1] else 0.0)
  }

  lemma {:induction false} ColumnSumEmpty(w: seq<real>, n: nat)
    requires n <= |w|
    ensures ColumnSum([], w, n) == 0.0
  {
    if n > 0 { ColumnSumEmpty(w, n - 1); }
  }

  lemma {:induction false} ColumnSumExtend(a: seq<int>, c: int, w: seq<real>, n: nat)
    requires n <= |w| && c !in a
    ensures ColumnSum(a + [c], w, n) == ColumnSum(a, w, n) + (if 0 <= c < n then w[c] else 0.0)
  {
    if n > 0 {
      ColumnSumExtend(a, c, w, n - 1);
      assert n - 1 in a + [c] <==> n - 1 in a || n - 1 == c;
    }
  }

  lemma {:induction false} ColumnSumIgnoresUnmatched(a: seq<int>, c: int, w: seq<real>, n: nat)
    requires n <= |w| && c < 0
    ensures ColumnSum(a + [c], w, n) == ColumnSum(a, w, n)
  {
    if n > 0 {
      ColumnSumIgnoresUnmatched(a, c, w, n - 1);
      assert n - 1 in a + [c] <==> n - 1 in a || n - 1 == c;
    }
  }

  /** Adding up picked columns row by row or column by column is the same. */
  lemma {:induction false} PickedByRowOrColumn(a: seq<int>, w: seq<real>, n: nat)
    requires Matching(a, |a|, |w|) && n <= |a|
    ensures PickSum(a, w, n) == ColumnSum(a[..n], w, |w|)
  {
    if n == 0 {
      ColumnSumEmpty(w, |w|);
      assert a[..0] == [];
    } else {
      PickedByRowOrColumn(a, w, n - 1);
      assert a[..n] == a[..n - 1] + [a[n - 1]];
      if a[n - 1] >= 0 {
        ColumnSumExtend(a[..n - 1], a[n - 1], w, |w|);
      } else {
        ColumnSumIgnoresUnmatched(a[..n - 1], a[n - 1], w, |w|);
      }
    }
  }

  // ----- counting

  /** How many of the first `n` columns occur in `a`. */
  ghost function Columns(a: seq<int>, n: nat): (k: nat)
    ensures k <= n
  {
    if n == 0 then 0 else Columns(a, n - 1) + (if n - 1 in a then 1 else 0)
  }

  ghost function Ones(n: nat): (w: seq<real>)
    ensures |w| == n && forall i :: 0 <= i < n ==> w[i] == 1.0
  {
    seq(n, _ => 1.0)
  }

  lemma {:induction false} ColumnsAsSum(a: seq<int>, cols: nat, n: nat)
    requires n <= cols
    ensures ColumnSum(a, Ones(cols), n) == Columns(a, n) as real
  {
    if n > 0 { ColumnsAsSum(a, cols, n - 1); }
  }

  lemma {:induction false} MatchedAsSum(a: seq<int>, cols: nat, n: nat)
    requires n <= |a| && forall r :: 0 <= r < n ==> a[r] < cols
    ensures PickSum(a, Ones(cols), n) == Matched(a, n) as real
  {
    if n > 0 { MatchedAsSum(a, cols, n - 1); }
  }

  /** A matching has as many matched rows as matched columns. */
  lemma MatchedRowsAreColumns(a: seq<int>, rows: nat, cols: nat)
    requires Matching(a, rows, cols)
    ensures Matched(a, rows) == Columns(a, cols) <= Min(rows, cols)
  {
    PickedByRowOrColumn(a, Ones(cols), rows);
    assert a[..rows] == a;
    ColumnsAsSum(a, cols, cols);
    MatchedAsSum(a, cols, rows);
  }

  lemma {:induction false} AllRowsMatched(a: seq<int>, n: nat)
    requires n <= |a|
    ensures Matched(a, n) == n <==> forall r :: 0 <= r < n ==> a[r] >= 0
  {
    if n > 0 { AllRowsMatched(a, n - 1); }
  }

  lemma {:induction false} AllColumnsMatched(a: seq<int>, n: nat)
    ensures Columns(a, n) == n <==> forall c :: 0 <= c < n ==> c in a
  {
    if n > 0 { AllColumnsMatched(a, n - 1); }
  }

  // ----- duality

  ghost function Slack(m: Matrix, u: seq<real>, v: seq<real>, r: nat, c: nat): real
    requires r < |m| && r < |u| && c < |m[r]| && c < |v|
  {
    m[r][c] - u[r] - v[c]
  }

  /** Potentials that bound every complete assignment from below: no reduced entry is
      negative, and on the side that need not be fully matched the potentials are at most 0. */
  ghost predicate Feasible(m: Matrix, rows: nat, cols: nat, u: seq<real>, v: seq<real>) {
    && Rectangular(m, rows, cols) && |u| == rows && |v| == cols
    && (forall r, c :: 0 <= r < rows && 0 <= c < cols ==> Slack(m, u, v, r, c) >= 0.0)
    && (rows <= cols ==> forall c :: 0 <= c < cols ==> v[c] <= 0.0)
    && (rows > cols ==> forall r :: 0 <= r < rows ==> u[r] <= 0.0)
  }

  /** The matched entries are zero up to `tol`, and a line of the longer side with a
      negative potential is matched. */
  ghost predicate Tight(m: Matrix, rows: nat, cols: nat, u: seq<real>, v: seq<real>, a: seq<int>, tol: real)
    requires Feasible(m, rows, cols, u, v) && Matching(a, rows, cols)
  {
    && (forall r :: 0 <= r < rows && a[r] >= 0 ==> Slack(m, u, v, r, a[r]) <= tol)
    && (rows <= cols ==> forall c :: 0 <= c < cols && v[c] < 0.0 ==> c in a)
    && (rows > cols ==> forall r :: 0 <= r < rows && u[r] < 0.0 ==> a[r] >= 0)
  }

  ghost function DualValue(u: seq<real>, v: seq<real>): real {
    Sum(u, |u|) + Sum(v, |v|)
  }

  /** `tol` added up `k` times. */
  ghost function Times(k: nat, tol: real): real {
    if k == 0 then 0.0 else Times(k - 1, tol) + tol
  }

  lemma {:induction false} TimesIsProduct(k: nat, tol: real)
    ensures Times(k, tol) == k as real * tol
  {
    if k > 0 {
      TimesIsProduct(k - 1, tol);
      Distribute((k - 1) as real, 1.0, tol);
    }
  }

  lemma Distribute(x: real, y: real, z: real)
    ensures (x + y) * z == x * z + y * z
  {
  }

  /** The cost of an assignment lies between the potentials it uses and the same plus
      `tol` for every matched row. */
  lemma {:induction false} CostByPotentials(m: Matrix, rows: nat, cols: nat, u: seq<real>, v: seq<real>,
                                            a: seq<int>, tol: real, n: nat)
    requires Feasible(m, rows, cols, u, v) && Matching(a, rows, cols) && n <= rows
    ensures RowSum(a, u, n) + PickSum(a, v, n) <= Cost(m, a, n)
    ensures (forall r :: 0 <= r < n && a[r] >= 0 ==> Slack(m, u, v, r, a[r]) <= tol) ==>
              Cost(m, a, n) <= RowSum(a, u, n) + PickSum(a, v, n) + Times(Matched(a, n), tol)
  {
    if n > 0 {
      CostByPotentials(m, rows, cols, u, v, a, tol, n - 1);
      if a[n - 1] >= 0 {
        assert Slack(m, u, v, n - 1, a[n - 1]) >= 0.0;
      }
    }
  }

  lemma {:induction false} RowSumVersusSum(a: seq<int>, w: seq<real>, n: nat)
    requires n <= |a| && n <= |w|
    ensures (forall r :: 0 <= r < n && w[r] != 0.0 ==> a[r] >= 0) ==> RowSum(a, w, n) == Sum(w, n)
    ensures (forall r :: 0 <= r < n ==> w[r] <= 0.0) ==> RowSum(a, w, n) >= Sum(w, n)
  {
    if n > 0 { RowSumVersusSum(a, w, n - 1); }
  }

  lemma {:induction false} ColumnSumVersusSum(a: seq<int>, w: seq<real>, n: nat)
    requires n <= |w|
    ensures (forall c :: 0 <= c < n && w[c] != 0.0 ==> c in a) ==> ColumnSum(a, w, n) == Sum(w, n)
    ensures (forall c :: 0 <= c < n ==> w[c] <= 0.0) ==> ColumnSum(a, w, n) >= Sum(w, n)
  {
    if n > 0 { ColumnSumVersusSum(a, w, n - 1); }
  }

  /** Weak duality: feasible potentials bound the cost of every complete assignment. */
  lemma WeakDuality(m: Matrix, rows: nat, cols: nat, u: seq<real>, v: seq<real>, b: seq<int>)
    requires Feasible(m, rows, cols, u, v) && Complete(b, rows, cols)
    ensures DualValue(u, v) <= Cost(m, b, rows)
  {
    CostByPotentials(m, rows, cols, u, v, b, 0.0, rows);
    PickedByRowOrColumn(b, v, rows);
    assert b[..rows] == b;
    RowSumVersusSum(b, u, rows);
    ColumnSumVersusSum(b, v, cols);
    MatchedRowsAreColumns(b, rows, cols);
    AllRowsMatched(b, rows);
    AllColumnsMatched(b, cols);
  }

  /** Complementary slackness: a complete assignment that is tight up to `tol` costs at most
      min(rows, cols) * tol more than any other complete assignment. */
  lemma TightIsCheapest(m: Matrix, rows: nat, cols: nat, u: seq<real>, v: seq<real>,
                        a: seq<int>, tol: real, b: seq<int>)
    requires Feasible(m, rows, cols, u, v) && Complete(a, rows, cols)
    requires Tight(m, rows, cols, u, v, a, tol)
    requires Complete(b, rows, cols)
    ensures Cost(m, a, rows) <= Cost(m, b, rows) + Times(Min(rows, cols), tol)
  {
    WeakDuality(m, rows, cols, u, v, b);
    CostByPotentials(m, rows, cols, u, v, a, tol, rows);
    PickedByRowOrColumn(a, v, rows);
    assert a[..rows] == a;
    RowSumVersusSum(a, u, rows);
    ColumnSumVersusSum(a, v, cols);
    MatchedRowsAreColumns(a, rows, cols);
    AllRowsMatched(a, rows);
    AllColumnsMatched(a, cols);
  }
}
