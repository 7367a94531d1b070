/** The state that the Munkres steps move through, on values: potentials, starred and primed
    zeros, line covers and the time each row was covered; what every reachable state keeps;
    and the proofs that covering a row, adjusting the potentials and flipping an alternating
    chain keep it. */
module MunkresState {
  import opened Assignment

  /** 2 to the power -52: the tolerance of the zero test. */
  const DBL_EPSILON: real := 1.0 / 4503599627370496.0

  predicate IsZero(x: real) {
    -DBL_EPSILON < x < DBL_EPSILON
  }

  // ----- entries on a grid

  function Multiple(k: int, g: real): real {
    k as real * g
  }

  ghost predicate OnGrid(x: real, g: real) {
    exists k: int :: x == Multiple(k, g)
  }

  lemma GridDifference(x: real, y: real, g: real)
    requires OnGrid(x, g) && OnGrid(y, g)
    ensures OnGrid(x - y, g) && OnGrid(x + y, g)
  {
    var i: int :| x == Multiple(i, g);
    var j: int :| y == Multiple(j, g);
    Distribute(i as real, j as real, g);
    Distribute(i as real, -(j as real), g);
    Negate(j as real, g);
    assert x - y == Multiple(i - j, g);
    assert x + y == Multiple(i + j, g);
  }

  lemma Negate(x: real, g: real)
    ensures (-x) * g == -(x * g)
  {
  }

  lemma ZeroIsOnGrid(g: real)
    ensures OnGrid(0.0, g)
  {
    assert 0.0 == Multiple(0, g);
  }

  lemma Larger(k: int, g: real)
    requires g > 0.0 && k != 0
    ensures Multiple(k, g) >= g || Multiple(k, g) <= -g
  {
    if k >= 1 {
      var d := (k - 1) as real;
      assert d * g >= 0.0;
      Distribute(d, 1.0, g);
      assert k as real == d + 1.0;
    } else {
      var d := (-k - 1) as real;
      assert d * g >= 0.0;
      Distribute(d, 1.0, g);
      Negate(d + 1.0, g);
      assert k as real == -(d + 1.0);
    }
  }

  /** On a grid at least as coarse as the tolerance, only zero passes the zero test. */
  lemma OnlyZeroIsSmall(x: real, g: real)
    requires g >= DBL_EPSILON && OnGrid(x, g) && IsZero(x)
    ensures x == 0.0
  {
    var k: int :| x == Multiple(k, g);
    if k != 0 {
      Larger(k, g);
    }
  }

  ghost predicate MatrixOnGrid(m: Matrix, g: real) {
    forall r, c :: 0 <= r < |m| && 0 <= c < |m[r]| ==> OnGrid(m[r][c], g)
  }

  // ----- problem and state

  /** A matrix with its dimensions; `grid` is 0 when no grid is claimed for the entries. */
  datatype Problem = Problem(m: Matrix, rows: nat, cols: nat, grid: real) {
    ghost predicate Valid() {
      && Rectangular(m, rows, cols) && rows > 0
      && (grid != 0.0 ==> grid >= DBL_EPSILON && MatrixOnGrid(m, grid))
    }

    /** How far from zero a starred entry may be. */
    ghost function Tolerance(): real {
      if grid == 0.0 then DBL_EPSILON else 0.0
    }

    ghost function Size(): nat {
      Min(rows, cols)
    }
  }

  /** `star[r]` and `prime[r]` are the column of the star and of the prime in row `r`, or -1;
      `time[r]` is when row `r` was last covered. */
  datatype State = State(u: seq<real>, v: seq<real>, star: seq<int>, prime: seq<int>,
                         coveredRows: seq<bool>, coveredColumns: seq<bool>,
                         time: seq<nat>, clock: nat)

  ghost predicate Shaped(p: Problem, s: State) {
    && |s.prime| == |s.coveredRows| == |s.time| == p.rows
    && |s.coveredColumns| == p.cols
    && (forall r :: 0 <= r < p.rows ==> -1 <= s.prime[r] < p.cols)
  }

  ghost predicate PotentialsOnGrid(p: Problem, s: State) {
    && (forall r :: 0 <= r < |s.u| ==> OnGrid(s.u[r], p.grid))
    && (forall c :: 0 <= c < |s.v| ==> OnGrid(s.v[c], p.grid))
  }

  /** What every state keeps: the potentials are feasible, the stars form a matching of zero
      entries, and lines of the longer side without a star still have potential 0. */
  ghost predicate Inv(p: Problem, s: State) {
    && p.Valid() && Shaped(p, s)
    && Feasible(p.m, p.rows, p.cols, s.u, s.v)
    && Matching(s.star, p.rows, p.cols)
    && Tight(p.m, p.rows, p.cols, s.u, s.v, s.star, p.Tolerance())
    && (p.grid != 0.0 ==> PotentialsOnGrid(p, s))
  }

  /** Every star lies on exactly one covered line and every covered line holds a star. */
  ghost predicate StarsOnOneLine(p: Problem, s: State)
    requires Shaped(p, s) && Matching(s.star, p.rows, p.cols)
  {
    && (forall r :: 0 <= r < p.rows && s.coveredRows[r] ==> s.star[r] >= 0)
    && (forall c :: 0 <= c < p.cols && s.coveredColumns[c] ==> c in s.star)
    && (forall r :: 0 <= r < p.rows && s.star[r] >= 0 ==> (s.coveredColumns[s.star[r]] <==> !s.coveredRows[r]))
  }

  /** Exactly the covered rows hold a prime; it is in an uncovered column, and the row of the
      star in that column, if there is one, was covered earlier. */
  ghost predicate PrimesOrdered(p: Problem, s: State)
    requires Shaped(p, s) && Matching(s.star, p.rows, p.cols)
  {
    && (forall r :: 0 <= r < p.rows ==> (s.coveredRows[r] <==> s.prime[r] >= 0))
    && (forall r :: 0 <= r < p.rows && s.coveredRows[r] ==> !s.coveredColumns[s.prime[r]] && s.time[r] < s.clock)
    && (forall r, q :: 0 <= r < p.rows && 0 <= q < p.rows && s.coveredRows[r] && s.star[q] == s.prime[r] ==>
         s.coveredRows[q] && s.time[q] < s.time[r])
  }

  ghost predicate PrimesTight(p: Problem, s: State)
    requires p.Valid() && Shaped(p, s) && |s.u| == p.rows && |s.v| == p.cols
  {
    forall r :: 0 <= r < p.rows && s.prime[r] >= 0 ==> Slack(p.m, s.u, s.v, r, s.prime[r]) <= p.Tolerance()
  }

  /** What the covers keep during a search, whatever the entries are. */
  ghost predicate Covers(p: Problem, s: State) {
    && Shaped(p, s) && Matching(s.star, p.rows, p.cols)
    && StarsOnOneLine(p, s) && PrimesOrdered(p, s)
  }

  ghost predicate Searching(p: Problem, s: State) {
    Inv(p, s) && Covers(p, s) && PrimesTight(p, s)
  }

  /** An uncovered cell in a row without a star. */
  ghost predicate ChainStart(p: Problem, s: State, row: nat, col: nat)
    requires Covers(p, s)
  {
    row < p.rows && col < p.cols && !s.coveredRows[row] && !s.coveredColumns[col] && s.star[row] == -1
  }

  /** A new search: no row is covered and exactly the starred columns are. */
  ghost predicate Starting(p: Problem, s: State) {
    && Inv(p, s)
    && (forall r :: 0 <= r < p.rows ==> !s.coveredRows[r] && s.prime[r] == -1)
    && (forall c :: 0 <= c < p.cols ==> (s.coveredColumns[c] <==> c in s.star))
  }

  /** Between an augmentation and the next search: only columns with a star are covered. */
  ghost predicate Restarting(p: Problem, s: State) {
    && Inv(p, s)
    && (forall r :: 0 <= r < p.rows ==> !s.coveredRows[r] && s.prime[r] == -1)
    && (forall c :: 0 <= c < p.cols && s.coveredColumns[c] ==> c in s.star)
  }

  lemma StartingIsSearching(p: Problem, s: State)
    requires Starting(p, s)
    ensures Searching(p, s)
  {
    forall r | 0 <= r < p.rows && s.star[r] >= 0
      ensures s.coveredColumns[s.star[r]]
    {
      assert s.star[r] in s.star;
    }
  }

  // ----- line covers

  function Trues(b: seq<bool>, n: nat): (k: nat)
    requires n <= |b|
    ensures k <= n
  {
    if n == 0 then 0 else Trues(b, n - 1) + (if b[n - 1] then 1 else 0)
  }

  lemma {:induction false} TruesSet(b: seq<bool>, i: nat, n: nat)
    requires n <= |b| && i < |b| && !b[i]
    ensures Trues(b[i := true], n) == Trues(b, n) + (if i < n then 1 else 0)
  {
    if n > 0 { TruesSet(b, i, n - 1); }
  }

  /** The stars outside the covered rows. */
  ghost function OutsideRows(star: seq<int>, covered: seq<bool>): (o: seq<int>)
    requires |star| == |covered|
    ensures |o| == |star|
    ensures forall r :: 0 <= r < |star| ==> o[r] == if covered[r] then -1 else star[r]
  {
    seq(|star|, r requires 0 <= r < |star| => if covered[r] then -1 else star[r])
  }

  lemma {:induction false} MatchedOutside(star: seq<int>, covered: seq<bool>, n: nat)
    requires |star| == |covered| && n <= |star|
    requires forall r :: 0 <= r < n && covered[r] ==> star[r] >= 0
    ensures Matched(star, n) == Matched(OutsideRows(star, covered), n) + Trues(covered, n)
  {
    if n > 0 { MatchedOutside(star, covered, n - 1); }
  }

  lemma {:induction false} ColumnsAsTrues(a: seq<int>, b: seq<bool>, n: nat)
    requires n <= |b| && forall c :: 0 <= c < n ==> (b[c] <==> c in a)
    ensures Columns(a, n) == Trues(b, n)
  {
    if n > 0 { ColumnsAsTrues(a, b, n - 1); }
  }

  /** As many lines are covered as there are stars. */
  lemma CoveredLinesAreStars(p: Problem, s: State)
    requires Searching(p, s)
    ensures Trues(s.coveredRows, p.rows) + Trues(s.coveredColumns, p.cols) == Matched(s.star, p.rows) <= p.Size()
  {
    var o := OutsideRows(s.star, s.coveredRows);
    MatchedOutside(s.star, s.coveredRows, p.rows);
    MatchedRowsAreColumns(s.star, p.rows, p.cols);
    MatchedRowsAreColumns(o, p.rows, p.cols);
    forall c | 0 <= c < p.cols
      ensures s.coveredColumns[c] <==> c in o
    {
      if s.coveredColumns[c] {
        var r :| 0 <= r < p.rows && s.star[r] == c;
        assert o[r] == c;
      }
      if c in o {
        var r :| 0 <= r < p.rows && o[r] == c;
        assert s.star[r] == c;
      }
    }
    ColumnsAsTrues(o, s.coveredColumns, p.cols);
  }

  lemma {:induction false} SomeFalse(b: seq<bool>, n: nat) returns (i: nat)
    requires n <= |b| && Trues(b, n) < n
    ensures i < n && !b[i]
  {
    if b[n - 1] { i := SomeFalse(b, n - 1); } else { i := n - 1; }
  }

  /** While the matching is incomplete the covered lines leave an entry uncovered. */
  lemma UncoveredEntry(p: Problem, s: State) returns (r: nat, c: nat)
    requires Searching(p, s) && Matched(s.star, p.rows) < p.Size()
    ensures r < p.rows && c < p.cols && !s.coveredRows[r] && !s.coveredColumns[c]
  {
    CoveredLinesAreStars(p, s);
    r := SomeFalse(s.coveredRows, p.rows);
    c := SomeFalse(s.coveredColumns, p.cols);
  }

  // ----- covering a row

  ghost predicate UncoveredZero(p: Problem, s: State, r: int, c: int)
    requires p.Valid() && Shaped(p, s) && |s.u| == p.rows && |s.v| == p.cols
  {
    && 0 <= r < p.rows && 0 <= c < p.cols
    && !s.coveredRows[r] && !s.coveredColumns[c]
    && IsZero(Slack(p.m, s.u, s.v, r, c))
  }

  lemma SlackOnGrid(p: Problem, s: State, r: nat, c: nat)
    requires Inv(p, s) && p.grid != 0.0 && r < p.rows && c < p.cols
    ensures OnGrid(Slack(p.m, s.u, s.v, r, c), p.grid)
  {
    GridDifference(p.m[r][c], s.u[r], p.grid);
    GridDifference(p.m[r][c] - s.u[r], s.v[c], p.grid);
  }

  /** An entry that passes the zero test is within the tolerance of a star. */
  lemma ZeroIsTight(p: Problem, s: State, r: nat, c: nat)
    requires Inv(p, s) && r < p.rows && c < p.cols && IsZero(Slack(p.m, s.u, s.v, r, c))
    ensures Slack(p.m, s.u, s.v, r, c) <= p.Tolerance()
  {
    if p.grid != 0.0 {
      SlackOnGrid(p, s, r, c);
      OnlyZeroIsSmall(Slack(p.m, s.u, s.v, r, c), p.grid);
    }
  }

  ghost predicate NoUncoveredZero(p: Problem, s: State)
    requires Inv(p, s)
  {
    forall r, c :: !UncoveredZero(p, s, r, c)
  }

  ghost predicate NoUncoveredZeroBefore(p: Problem, s: State, col: nat)
    requires Inv(p, s)
  {
    forall r, c :: UncoveredZero(p, s, r, c) ==> c >= col
  }

  /** A later state of the same search: more rows are covered, or nothing has changed. */
  ghost predicate SameSearch(before: State, after: State) {
    && after.star == before.star && after.u == before.u && after.v == before.v
    && |after.coveredRows| == |before.coveredRows|
    && (after == before || MoreRows(before, after))
  }

  ghost predicate MoreRows(before: State, after: State) {
    Trues(after.coveredRows, |after.coveredRows|) > Trues(before.coveredRows, |before.coveredRows|)
  }

  /** Prime an uncovered zero of a starred row: cover the row and uncover its star's column. */
  ghost function PrimeAndCover(s: State, row: nat, col: nat): State
    requires row < |s.star| == |s.prime| == |s.coveredRows| == |s.time|
    requires 0 <= s.star[row] < |s.coveredColumns|
  {
    s.(prime := s.prime[row := col],
       coveredRows := s.coveredRows[row := true],
       coveredColumns := s.coveredColumns[s.star[row] := false],
       time := s.time[row := s.clock],
       clock := s.clock + 1)
  }

  lemma PrimeAndCoverKeeps(p: Problem, s: State, row: nat, col: nat)
    requires Searching(p, s) && UncoveredZero(p, s, row, col) && s.star[row] >= 0
    ensures Searching(p, PrimeAndCover(s, row, col))
    ensures SameSearch(s, PrimeAndCover(s, row, col)) && MoreRows(s, PrimeAndCover(s, row, col))
  {
    ZeroIsTight(p, s, row, col);
    TruesSet(s.coveredRows, row, p.rows);
  }

  /** What priming the zero (row, col) does: nothing to the covers when its row has no star. */
  ghost predicate Primed(p: Problem, before: State, after: State, found: bool, row: nat, col: nat)
    requires Searching(p, before) && UncoveredZero(p, before, row, col)
  {
    if found then
      before.star[row] == -1 && after == before
    else
      before.star[row] >= 0 && after == PrimeAndCover(before, row, col)
  }

  /** One pass over the columns has reached column `col`: rows were covered (`again`), or
      nothing changed and no uncovered zero lies in the columns passed. */
  ghost predicate Passed(p: Problem, before: State, now: State, again: bool, col: nat)
    requires Inv(p, now)
  {
    && SameSearch(before, now)
    && if again then MoreRows(before, now) else now == before && NoUncoveredZeroBefore(p, now, col)
  }

  /** Nothing to prime in this column. */
  lemma PassSkipped(p: Problem, before: State, now: State, again: bool, col: nat)
    requires Searching(p, now) && Passed(p, before, now, again, col)
    requires forall r :: !UncoveredZero(p, now, r, col)
    ensures Passed(p, before, now, again, col + 1)
  {
  }

  /** A row was covered because of a zero in this column. */
  lemma PassCovered(p: Problem, before: State, now: State, again: bool, row: nat, col: nat)
    requires Searching(p, now) && Passed(p, before, now, again, col)
    requires UncoveredZero(p, now, row, col) && now.star[row] >= 0
    ensures Searching(p, PrimeAndCover(now, row, col))
    ensures Passed(p, before, PrimeAndCover(now, row, col), true, col + 1)
  {
    PrimeAndCoverKeeps(p, now, row, col);
  }

  // ----- adjusting the potentials

  /** Lower the uncovered entries by `h` and raise the twice covered ones, as a change of
      potentials that leaves the potential of unstarred lines of the longer side alone. */
  ghost function Adjust(p: Problem, s: State, h: real): (t: State)
    requires |s.u| == |s.coveredRows| && |s.v| == |s.coveredColumns|
    ensures |t.u| == |s.u| && |t.v| == |s.v| && t == s.(u := t.u, v := t.v)
  {
    var dr := if p.rows <= p.cols then h else 0.0;
    var dc := if p.rows <= p.cols then 0.0 else h;
    s.(u := seq(|s.u|, r requires 0 <= r < |s.u| => if s.coveredRows[r] then s.u[r] + dr - h else s.u[r] + dr),
       v := seq(|s.v|, c requires 0 <= c < |s.v| => if s.coveredColumns[c] then s.v[c] + dc - h else s.v[c] + dc))
  }

  ghost function Shift(s: State, h: real, r: nat, c: nat): real
    requires r < |s.coveredRows| && c < |s.coveredColumns|
  {
    (if s.coveredRows[r] then h else 0.0) - (if s.coveredColumns[c] then 0.0 else h)
  }

  lemma AdjustShifts(p: Problem, s: State, h: real, r: nat, c: nat)
    requires Rectangular(p.m, p.rows, p.cols)
    requires |s.u| == |s.coveredRows| == p.rows && |s.v| == |s.coveredColumns| == p.cols
    requires r < p.rows && c < p.cols
    ensures Slack(p.m, Adjust(p, s, h).u, Adjust(p, s, h).v, r, c) == Slack(p.m, s.u, s.v, r, c) + Shift(s, h, r, c)
  {
  }

  lemma AdjustKeepsGrid(p: Problem, s: State, h: real)
    requires |s.u| == |s.coveredRows| && |s.v| == |s.coveredColumns|
    requires PotentialsOnGrid(p, s) && OnGrid(h, p.grid)
    ensures PotentialsOnGrid(p, Adjust(p, s, h))
  {
    var t := Adjust(p, s, h);
    forall r | 0 <= r < |s.u| ensures OnGrid(t.u[r], p.grid) {
      GridDifference(s.u[r], h, p.grid);
    }
    forall c | 0 <= c < |s.v| ensures OnGrid(t.v[c], p.grid) {
      GridDifference(s.v[c], h, p.grid);
    }
  }

  ghost predicate Uncovered(p: Problem, s: State, r: int, c: int)
    requires Shaped(p, s)
  {
    0 <= r < p.rows && 0 <= c < p.cols && !s.coveredRows[r] && !s.coveredColumns[c]
  }

  lemma SomeUncovered(p: Problem, s: State)
    requires Searching(p, s) && Matched(s.star, p.rows) < p.Size()
    ensures exists r, c :: Uncovered(p, s, r, c)
  {
    var r, c := UncoveredEntry(p, s);
    assert Uncovered(p, s, r, c);
  }

  /** `h` is the smallest of the uncovered entries. */
  ghost predicate SmallestUncovered(p: Problem, s: State, h: real)
    requires Inv(p, s)
  {
    && (exists r, c :: Uncovered(p, s, r, c) && h == Slack(p.m, s.u, s.v, r, c))
    && (forall r, c :: Uncovered(p, s, r, c) ==> h <= Slack(p.m, s.u, s.v, r, c))
  }

  /** With no uncovered zero the adjustment is at least the tolerance. */
  lemma AdjustmentIsPositive(p: Problem, s: State, h: real)
    requires Inv(p, s) && NoUncoveredZero(p, s) && SmallestUncovered(p, s, h)
    ensures h >= DBL_EPSILON
  {
    var r, c :| Uncovered(p, s, r, c) && h == Slack(p.m, s.u, s.v, r, c);
    assert !UncoveredZero(p, s, r, c);
    assert Slack(p.m, s.u, s.v, r, c) >= 0.0;
  }

  lemma AdjustSlacks(p: Problem, s: State, h: real)
    requires Searching(p, s) && SmallestUncovered(p, s, h)
    ensures h >= 0.0 && (p.grid != 0.0 ==> OnGrid(h, p.grid))
    ensures var t := Adjust(p, s, h);
            forall r, c :: 0 <= r < p.rows && 0 <= c < p.cols ==>
              Slack(p.m, t.u, t.v, r, c) == Slack(p.m, s.u, s.v, r, c) + Shift(s, h, r, c) >= 0.0
  {
    var t := Adjust(p, s, h);
    var i, j :| Uncovered(p, s, i, j) && h == Slack(p.m, s.u, s.v, i, j);
    if p.grid != 0.0 { SlackOnGrid(p, s, i, j); }
    forall r, c | 0 <= r < p.rows && 0 <= c < p.cols
      ensures Slack(p.m, t.u, t.v, r, c) == Slack(p.m, s.u, s.v, r, c) + Shift(s, h, r, c) >= 0.0
    {
      AdjustShifts(p, s, h, r, c);
      assert Slack(p.m, s.u, s.v, r, c) >= 0.0;
      assert Uncovered(p, s, r, c) ==> h <= Slack(p.m, s.u, s.v, r, c);
    }
  }

  lemma AdjustKeepsInv(p: Problem, s: State, h: real)
    requires Searching(p, s) && SmallestUncovered(p, s, h)
    ensures Inv(p, Adjust(p, s, h))
  {
    AdjustSlacks(p, s, h);
    var t := Adjust(p, s, h);
    assert Feasible(p.m, p.rows, p.cols, t.u, t.v);
    forall r | 0 <= r < p.rows && s.star[r] >= 0
      ensures Shift(s, h, r, s.star[r]) == 0.0
    {
    }
    if p.grid != 0.0 { AdjustKeepsGrid(p, s, h); }
  }

  /** Adjusting by the smallest uncovered entry keeps the whole invariant, leaves the covers
      alone and makes an uncovered entry zero. */
  lemma AdjustKeeps(p: Problem, s: State, h: real)
    requires Searching(p, s) && SmallestUncovered(p, s, h)
    ensures Searching(p, Adjust(p, s, h))
    ensures !NoUncoveredZero(p, Adjust(p, s, h))
  {
    AdjustKeepsInv(p, s, h);
    AdjustSlacks(p, s, h);
    var t := Adjust(p, s, h);
    var i, j :| Uncovered(p, s, i, j) && h == Slack(p.m, s.u, s.v, i, j);
    assert UncoveredZero(p, t, i, j);
  }

  // ----- the alternating chain

  /** The row of the star in a column, or the number of rows if there is none. */
  ghost function RowOf(star: seq<int>, col: int): (r: nat)
    ensures r <= |star|
    ensures r < |star| ==> star[r] == col
    ensures r == |star| ==> col !in star
  {
    RowFrom(star, col, 0)
  }

  ghost function RowFrom(star: seq<int>, col: int, from: nat): (r: nat)
    requires from <= |star|
    ensures from <= r <= |star|
    ensures r < |star| ==> star[r] == col
    ensures r == |star| ==> col !in star[from..]
    decreases |star| - from
  {
    if from == |star| || star[from] == col then from else RowFrom(star, col, from + 1)
  }

  lemma RowOfStar(p: Problem, star: seq<int>, r: nat)
    requires Matching(star, p.rows, p.cols) && r < p.rows && star[r] >= 0
    ensures RowOf(star, star[r]) == r
  {
    assert star[r] in star;
  }

  /** When a column was uncovered: columns without a star before all others. */
  ghost function Since(s: State, col: int): nat
    requires |s.time| == |s.star|
  {
    if RowOf(s.star, col) < |s.star| then s.time[RowOf(s.star, col)] + 1 else 0
  }

  /** The chain from the zero (row, col) has reached column `cur`, taken by row `last`. The
      rows that differ from the stars have moved to their prime (`row` got `col`). */
  ghost predicate Chain(p: Problem, s: State, row: nat, col: nat, acc: seq<int>, last: nat, cur: int)
    requires Covers(p, s) && row < p.rows && col < p.cols
  {
    ChainRows(p, s, row, col, acc, last, cur) && ChainMatching(p, s, acc, cur)
  }

  ghost predicate ChainRows(p: Problem, s: State, row: nat, col: nat, acc: seq<int>, last: nat, cur: int)
    requires Covers(p, s) && row < p.rows && col < p.cols
  {
    var next := RowOf(s.star, cur);
    && |acc| == p.rows && 0 <= cur < p.cols && !s.coveredColumns[cur]
    && acc[row] == col
    && last < p.rows && acc[last] == cur && acc[last] != s.star[last]
    && (forall r :: 0 <= r < p.rows && r != row && acc[r] != s.star[r] ==>
         && s.coveredRows[r] && acc[r] == s.prime[r]
         && (next < p.rows ==> s.time[next] < s.time[r]))
    && (forall r :: 0 <= r < p.rows && r != last && acc[r] != s.star[r] ==> Since(s, cur) < Since(s, acc[r]))
  }

  /** Apart from the star about to move, the rows of `acc` have distinct columns, and its
      columns are the starred ones and the one just taken. */
  ghost predicate ChainMatching(p: Problem, s: State, acc: seq<int>, cur: int)
    requires |acc| == p.rows
  {
    var next := RowOf(s.star, cur);
    && (forall r, q :: 0 <= r < p.rows && 0 <= q < p.rows && r != q && r != next && q != next && acc[r] >= 0 ==>
         acc[r] != acc[q])
    && (forall c :: 0 <= c < p.cols ==> (c in acc <==> c in s.star || c == cur))
  }

  lemma InUpdate(a: seq<int>, i: nat, x: int, c: int)
    requires i < |a|
    ensures c in a[i := x] ==> c in a || c == x
    ensures c in a && c != a[i] ==> c in a[i := x]
    ensures x in a[i := x]
  {
    if c in a && c != a[i] {
      var k :| 0 <= k < |a| && a[k] == c;
      assert a[i := x][k] == c;
    }
    assert a[i := x][i] == x;
  }

  lemma ChainBegins(p: Problem, s: State, row: nat, col: nat)
    requires Covers(p, s) && ChainStart(p, s, row, col)
    ensures Chain(p, s, row, col, s.star[row := col], row, col)
  {
    forall c | 0 <= c < p.cols
      ensures c in s.star[row := col] <==> c in s.star || c == col
    {
      InUpdate(s.star, row, col, c);
    }
  }

  /** The star met in the current column is in a covered row, so it has a prime to move to;
      the star after that is in a row covered strictly earlier, and no row of the chain has
      taken the prime's column yet. */
  lemma ChainMeets(p: Problem, s: State, row: nat, col: nat, acc: seq<int>, last: nat, cur: int)
    requires Covers(p, s) && ChainStart(p, s, row, col)
    requires Chain(p, s, row, col, acc, last, cur) && RowOf(s.star, cur) < p.rows
    ensures var q := RowOf(s.star, cur);
            && s.coveredRows[q] && s.prime[q] >= 0 && q != last && q != row
            && acc[q] == s.star[q] == cur && s.prime[q] != cur
            && !s.coveredColumns[s.prime[q]]
            && (RowOf(s.star, s.prime[q]) < p.rows ==> s.time[RowOf(s.star, s.prime[q])] < s.time[q])
            && Since(s, s.prime[q]) < Since(s, cur)
  {
    var q := RowOf(s.star, cur);
    assert s.coveredRows[q];
    assert s.star[q] == cur;
  }

  lemma ChainColumnFree(p: Problem, s: State, row: nat, col: nat, acc: seq<int>, last: nat, cur: int, r: nat)
    requires Covers(p, s) && ChainStart(p, s, row, col)
    requires Chain(p, s, row, col, acc, last, cur) && RowOf(s.star, cur) < p.rows
    requires r < p.rows && r != RowOf(s.star, cur)
    requires acc[r] == s.prime[RowOf(s.star, cur)] >= 0
    ensures r == RowOf(s.star, s.prime[RowOf(s.star, cur)])
  {
    ChainMeets(p, s, row, col, acc, last, cur);
    var q := RowOf(s.star, cur);
    var reached, left := Since(s, cur), Since(s, acc[r]);
    assert acc[r] != s.star[r] ==> reached <= left;
    if acc[r] == s.star[r] {
      RowOfStar(p, s.star, r);
    }
  }

  lemma ChainColumns(p: Problem, s: State, row: nat, col: nat, acc: seq<int>, last: nat, cur: int, c: nat)
    requires Covers(p, s) && ChainStart(p, s, row, col)
    requires Chain(p, s, row, col, acc, last, cur) && RowOf(s.star, cur) < p.rows
    requires c < p.cols
    ensures var q := RowOf(s.star, cur);
            c in acc[q := s.prime[q]] <==> c in s.star || c == s.prime[q]
  {
    ChainMeets(p, s, row, col, acc, last, cur);
    var q := RowOf(s.star, cur);
    InUpdate(acc, q, s.prime[q], c);
    assert acc[q := s.prime[q]][last] == cur;
  }

  lemma ChainNextRows(p: Problem, s: State, row: nat, col: nat, acc: seq<int>, last: nat, cur: int)
    requires Covers(p, s) && ChainStart(p, s, row, col)
    requires Chain(p, s, row, col, acc, last, cur) && RowOf(s.star, cur) < p.rows
    ensures var q := RowOf(s.star, cur);
            ChainRows(p, s, row, col, acc[q := s.prime[q]], q, s.prime[q])
  {
    ChainMeets(p, s, row, col, acc, last, cur);
  }

  lemma ChainRowsDistinct(p: Problem, s: State, row: nat, col: nat, acc: seq<int>, last: nat, cur: int, r: nat, z: nat)
    requires Covers(p, s) && ChainStart(p, s, row, col)
    requires Chain(p, s, row, col, acc, last, cur) && RowOf(s.star, cur) < p.rows
    requires r < p.rows && z < p.rows && r != z
    requires var q := RowOf(s.star, cur);
             var q' := RowOf(s.star, s.prime[q]);
             r != q' && z != q' && acc[q := s.prime[q]][r] >= 0
    ensures var q := RowOf(s.star, cur);
            acc[q := s.prime[q]][r] != acc[q := s.prime[q]][z]
  {
    var q := RowOf(s.star, cur);
    if r == q || z == q {
      var w := if r == q then z else r;
      ChainMeets(p, s, row, col, acc, last, cur);
      if acc[w] == s.prime[q] { ChainColumnFree(p, s, row, col, acc, last, cur, w); }
    }
  }

  lemma {:induction false} ChainNextMatching(p: Problem, s: State, row: nat, col: nat, acc: seq<int>, last: nat,
                                             cur: int)
    requires Covers(p, s) && ChainStart(p, s, row, col)
    requires Chain(p, s, row, col, acc, last, cur) && RowOf(s.star, cur) < p.rows
    ensures var q := RowOf(s.star, cur);
            ChainMatching(p, s, acc[q := s.prime[q]], s.prime[q])
  {
    var q := RowOf(s.star, cur);
    var x := s.prime[q];
    var q' := RowOf(s.star, x);
    var acc' := acc[q := x];
    forall c: nat | c < p.cols
      ensures c in acc' <==> c in s.star || c == x
    {
      ChainColumns(p, s, row, col, acc, last, cur, c);
    }
    forall r: nat, z: nat | r < p.rows && z < p.rows && r != z && r != q' && z != q' && acc'[r] >= 0
      ensures acc'[r] != acc'[z]
    {
      ChainRowsDistinct(p, s, row, col, acc, last, cur, r, z);
    }
  }

  /** One step of the chain: the star found moves to the prime in its row. */
  lemma {:induction false} ChainNext(p: Problem, s: State, row: nat, col: nat, acc: seq<int>, last: nat, cur: int)
    requires Covers(p, s) && ChainStart(p, s, row, col)
    requires Chain(p, s, row, col, acc, last, cur) && RowOf(s.star, cur) < p.rows
    ensures var q := RowOf(s.star, cur);
            Chain(p, s, row, col, acc[q := s.prime[q]], q, s.prime[q])
  {
    ChainNextRows(p, s, row, col, acc, last, cur);
    ChainNextMatching(p, s, row, col, acc, last, cur);
  }

  /** What flipping a whole chain achieves. */
  ghost predicate Augments(p: Problem, s: State, row: nat, col: nat, star': seq<int>)
    requires Covers(p, s) && row < p.rows && col < p.cols
  {
    && Matching(star', p.rows, p.cols)
    && Matched(star', p.rows) == Matched(s.star, p.rows) + 1
    && (forall r :: 0 <= r < p.rows ==> (star'[r] >= 0 <==> s.star[r] >= 0 || r == row))
    && (forall c :: 0 <= c < p.cols && c in s.star ==> c in star')
    && (forall r :: 0 <= r < p.rows && star'[r] != s.star[r] ==>
         (r == row && star'[r] == col) || (s.coveredRows[r] && star'[r] == s.prime[r]))
  }

  lemma {:induction false} MatchedGrows(a: seq<int>, b: seq<int>, row: nat, n: nat)
    requires |a| == |b| && n <= |a| && row < |a| && a[row] < 0
    requires forall r :: 0 <= r < |a| ==> (b[r] >= 0 <==> a[r] >= 0 || r == row)
    ensures Matched(b, n) == Matched(a, n) + (if row < n then 1 else 0)
  {
    if n > 0 { MatchedGrows(a, b, row, n - 1); }
  }

  lemma ChainEnds(p: Problem, s: State, row: nat, col: nat, acc: seq<int>, last: nat, cur: int)
    requires Covers(p, s) && ChainStart(p, s, row, col)
    requires Chain(p, s, row, col, acc, last, cur) && RowOf(s.star, cur) == p.rows
    ensures Augments(p, s, row, col, acc)
  {
    MatchedGrows(s.star, acc, row, p.rows);
  }

  /** The state after an augmentation, before the columns are covered again. */
  ghost function Restarted(s: State, star': seq<int>): State
  {
    s.(star := star', prime := seq(|s.prime|, _ => -1), coveredRows := seq(|s.coveredRows|, _ => false))
  }

  lemma AugmentKeeps(p: Problem, s: State, row: nat, col: nat, star': seq<int>)
    requires Searching(p, s) && UncoveredZero(p, s, row, col) && s.star[row] == -1
    requires Augments(p, s, row, col, star')
    ensures Restarting(p, Restarted(s, star'))
  {
    ZeroIsTight(p, s, row, col);
  }

  // ----- the first state and the first stars

  ghost predicate Smallest(row: seq<real>, x: real) {
    x in row && forall c :: 0 <= c < |row| ==> x <= row[c]
  }

  /** The first column whose entry is nearer to the smallest of the row than the tolerance. */
  ghost predicate FirstNearSmallest(row: seq<real>, x: real, c: int) {
    && 0 <= c < |row| && row[c] - x < DBL_EPSILON
    && forall i :: 0 <= i < c ==> row[i] - x >= DBL_EPSILON
  }

  /** An entry as a greedy search takes it: the first one nearer to the smallest than the
      tolerance. */
  ghost predicate FirstNear(row: seq<real>, c: int) {
    exists x :: Smallest(row, x) && FirstNearSmallest(row, x, c)
  }

  /** No potentials, no stars, no covers. */
  ghost function Blank(p: Problem): State {
    State(seq(p.rows, _ => 0.0), seq(p.cols, _ => 0.0), seq(p.rows, _ => -1), seq(p.rows, _ => -1),
          seq(p.rows, _ => false), seq(p.cols, _ => false), seq(p.rows, _ => 0), 0)
  }

  function Column(m: Matrix, c: nat): (column: seq<real>)
    requires forall r :: 0 <= r < |m| ==> c < |m[r]|
    ensures |column| == |m| && forall r :: 0 <= r < |m| ==> column[r] == m[r][c]
  {
    seq(|m|, r requires 0 <= r < |m| => m[r][c])
  }

  /** Every row, or every column, has lost its smallest entry, and nothing else has changed. */
  ghost predicate RowsReduced(p: Problem, s: State)
    requires p.Valid()
  {
    |s.u| == p.rows && s.v == Blank(p).v && forall r :: 0 <= r < p.rows ==> Smallest(p.m[r], s.u[r])
  }

  ghost predicate ColumnsReduced(p: Problem, s: State)
    requires p.Valid()
  {
    |s.v| == p.cols && s.u == Blank(p).u && forall c :: 0 <= c < p.cols ==> Smallest(Column(p.m, c), s.v[c])
  }

  /** Row `r` has starred its first zero in a column that no earlier row has starred, if there
      is one. */
  ghost predicate RowTakesFirst(p: Problem, s: State, r: nat)
    requires Inv(p, s) && r < p.rows
  {
    && (s.star[r] >= 0 ==> IsZero(Slack(p.m, s.u, s.v, r, s.star[r])))
    && (forall c :: 0 <= c < p.cols && (s.star[r] >= 0 ==> c < s.star[r]) && IsZero(Slack(p.m, s.u, s.v, r, c)) ==>
         c in s.star[..r])
  }

  /** Column `c` has starred its first zero in a row that no earlier column has starred, if
      there is one. */
  ghost predicate ColumnTakesFirst(p: Problem, s: State, c: nat)
    requires Inv(p, s) && c < p.cols
  {
    && (forall r :: 0 <= r < p.rows && s.star[r] == c ==> IsZero(Slack(p.m, s.u, s.v, r, c)))
    && (forall r :: 0 <= r < RowOf(s.star, c) && IsZero(Slack(p.m, s.u, s.v, r, c)) ==> 0 <= s.star[r] < c)
  }

  ghost predicate RowsTakeFirst(p: Problem, s: State)
    requires Inv(p, s)
  {
    forall r: nat :: r < p.rows ==> RowTakesFirst(p, s, r)
  }

  ghost predicate ColumnsTakeFirst(p: Problem, s: State)
    requires Inv(p, s)
  {
    forall c: nat :: c < p.cols ==> ColumnTakesFirst(p, s, c)
  }

  /** A single row has starred the first entry nearest to its smallest one. */
  lemma SingleRowIsMatched(p: Problem, s: State)
    requires Inv(p, s) && p.rows == 1 <= p.cols && RowsReduced(p, s) && RowsTakeFirst(p, s)
    ensures Matched(s.star, p.rows) == p.Size() && FirstNear(p.m[0], s.star[0])
  {
    assert Matched(s.star, 0) == 0;
    assert RowTakesFirst(p, s, 0);
    var least :| 0 <= least < p.cols && p.m[0][least] == s.u[0];
    assert IsZero(Slack(p.m, s.u, s.v, 0, least));
    forall c | 0 <= c < s.star[0]
      ensures p.m[0][c] - s.u[0] >= DBL_EPSILON
    {
      assert Slack(p.m, s.u, s.v, 0, c) >= 0.0;
    }
    assert FirstNearSmallest(p.m[0], s.u[0], s.star[0]);
  }

  /** So has a single column. */
  lemma SingleColumnIsMatched(p: Problem, s: State)
    requires Inv(p, s) && p.cols == 1 < p.rows && ColumnsReduced(p, s) && ColumnsTakeFirst(p, s)
    ensures Matched(s.star, p.rows) == p.Size()
    ensures RowOf(s.star, 0) < p.rows && FirstNear(Column(p.m, 0), RowOf(s.star, 0))
  {
    assert ColumnTakesFirst(p, s, 0);
    var column := Column(p.m, 0);
    var least :| 0 <= least < p.rows && column[least] == s.v[0];
    assert IsZero(Slack(p.m, s.u, s.v, least, 0));
    var row := RowOf(s.star, 0);
    MatchedRowsAreColumns(s.star, p.rows, p.cols);
    assert Columns(s.star, 1) == Columns(s.star, 0) + (if 0 in s.star then 1 else 0);
    forall r | 0 <= r < row
      ensures column[r] - s.v[0] >= DBL_EPSILON
    {
      assert Slack(p.m, s.u, s.v, r, 0) >= 0.0;
    }
    assert FirstNearSmallest(column, s.v[0], row);
  }

  ghost predicate SingleLine(p: Problem) {
    p.rows == 1 <= p.cols || p.cols == 1 < p.rows
  }

  /** A single row or column has taken its first entry near the smallest. */
  ghost predicate LineTaken(p: Problem, star: seq<int>)
    requires p.Valid() && |star| == p.rows
  {
    && (p.rows == 1 <= p.cols ==> FirstNear(p.m[0], star[0]))
    && (p.cols == 1 < p.rows ==> exists r: nat :: r < p.rows && star[r] == 0 && FirstNear(Column(p.m, 0), r))
  }

  lemma SingleLineIsMatched(p: Problem, s: State)
    requires Inv(p, s) && SingleLine(p)
    requires if p.rows <= p.cols then RowsReduced(p, s) && RowsTakeFirst(p, s)
             else ColumnsReduced(p, s) && ColumnsTakeFirst(p, s)
    ensures Matched(s.star, p.rows) == p.Size() && LineTaken(p, s.star)
  {
    if p.rows == 1 { SingleRowIsMatched(p, s); } else { SingleColumnIsMatched(p, s); }
  }

  /** Potentials that make every entry non-negative, on the side that must be fully matched. */
  ghost predicate Reduced(p: Problem, u: seq<real>, v: seq<real>)
    requires Rectangular(p.m, p.rows, p.cols)
  {
    && |u| == p.rows && |v| == p.cols
    && (forall r, c :: 0 <= r < p.rows && 0 <= c < p.cols ==> Slack(p.m, u, v, r, c) >= 0.0)
    && (if p.rows <= p.cols then
          (forall c :: 0 <= c < p.cols ==> v[c] == 0.0) &&
          (forall r :: 0 <= r < p.rows ==> u[r] in p.m[r])
        else
          (forall r :: 0 <= r < p.rows ==> u[r] == 0.0) &&
          (forall c :: 0 <= c < p.cols ==> exists r :: 0 <= r < p.rows && v[c] == p.m[r][c]))
  }

  lemma ReducedIsStarting(p: Problem, u: seq<real>, v: seq<real>)
    requires p.Valid() && Reduced(p, u, v)
    ensures Starting(p, Blank(p).(u := u, v := v))
  {
    ZeroIsOnGrid(p.grid);
  }

  ghost function WithStar(s: State, row: nat, col: nat): State
    requires row < |s.star| && col < |s.coveredColumns|
  {
    s.(star := s.star[row := col], coveredColumns := s.coveredColumns[col := true])
  }

  lemma WithStarKeeps(p: Problem, s: State, row: nat, col: nat)
    requires Starting(p, s) && row < p.rows && col < p.cols
    requires s.star[row] == -1 && col !in s.star && IsZero(Slack(p.m, s.u, s.v, row, col))
    ensures Starting(p, WithStar(s, row, col))
  {
    ZeroIsTight(p, s, row, col);
    var t := WithStar(s, row, col);
    forall c | 0 <= c < p.cols
      ensures c in t.star <==> c in s.star || c == col
    {
      InUpdate(s.star, row, col, c);
    }
  }

  /** A zero that could be starred: neither its row nor its column has a star. */
  ghost predicate FreeZero(p: Problem, s: State, r: int, c: int)
    requires Inv(p, s)
  {
    0 <= r < p.rows && 0 <= c < p.cols && s.star[r] == -1 && c !in s.star && IsZero(Slack(p.m, s.u, s.v, r, c))
  }

  lemma WithStarStars(p: Problem, s: State, row: nat, col: nat, c: int)
    requires Starting(p, s) && FreeZero(p, s, row, col) && c >= 0
    ensures Starting(p, WithStar(s, row, col))
    ensures c in WithStar(s, row, col).star <==> c in s.star || c == col
  {
    WithStarKeeps(p, s, row, col);
    InUpdate(s.star, row, col, c);
  }

  /** The first `n` rows, or columns, have had their turn to star a zero. */
  ghost predicate RowsTaken(p: Problem, s: State, n: nat) {
    && Starting(p, s) && n <= p.rows
    && (forall r :: n <= r < p.rows ==> s.star[r] == -1)
    && (forall r: nat :: r < n ==> RowTakesFirst(p, s, r))
  }

  ghost predicate ColumnsTaken(p: Problem, s: State, n: nat) {
    && Starting(p, s) && n <= p.cols
    && (forall r :: 0 <= r < p.rows ==> s.star[r] < n)
    && (forall c: nat :: c < n ==> ColumnTakesFirst(p, s, c))
  }

  /** A row without a free zero has nothing to take. */
  lemma RowTakesNone(p: Problem, s: State, row: nat)
    requires RowsTaken(p, s, row) && row < p.rows && forall c :: !FreeZero(p, s, row, c)
    ensures RowsTaken(p, s, row + 1)
  {
    forall c | 0 <= c < p.cols && IsZero(Slack(p.m, s.u, s.v, row, c))
      ensures c in s.star[..row]
    {
      assert !FreeZero(p, s, row, c);
      var r :| 0 <= r < p.rows && s.star[r] == c;
      assert s.star[..row][r] == c;
    }
  }

  /** Starring the first free zero of the next row keeps what the earlier rows took. */
  lemma RowTakes(p: Problem, s: State, row: nat, col: nat)
    requires RowsTaken(p, s, row) && FreeZero(p, s, row, col) && forall c :: 0 <= c < col ==> !FreeZero(p, s, row, c)
    ensures RowsTaken(p, WithStar(s, row, col), row + 1)
  {
    WithStarKeeps(p, s, row, col);
    var t := WithStar(s, row, col);
    forall r: nat | r < row
      ensures RowTakesFirst(p, t, r)
    {
      assert RowTakesFirst(p, s, r) && t.star[..r] == s.star[..r] && t.star[r] == s.star[r];
    }
    forall c | 0 <= c < col && IsZero(Slack(p.m, t.u, t.v, row, c))
      ensures c in t.star[..row]
    {
      assert !FreeZero(p, s, row, c);
      var r :| 0 <= r < p.rows && s.star[r] == c;
      assert t.star[..row][r] == c;
    }
  }

  /** A column without a free zero has nothing to take. */
  lemma ColumnTakesNone(p: Problem, s: State, col: nat)
    requires ColumnsTaken(p, s, col) && col < p.cols && forall r :: !FreeZero(p, s, r, col)
    ensures ColumnsTaken(p, s, col + 1)
  {
    forall r | 0 <= r < p.rows && IsZero(Slack(p.m, s.u, s.v, r, col))
      ensures 0 <= s.star[r] < col
    {
      assert !FreeZero(p, s, r, col);
    }
  }

  /** Starring the first free zero of the next column keeps what the earlier columns took. */
  lemma ColumnTakes(p: Problem, s: State, row: nat, col: nat)
    requires ColumnsTaken(p, s, col) && FreeZero(p, s, row, col) && forall r :: 0 <= r < row ==> !FreeZero(p, s, r, col)
    ensures ColumnsTaken(p, WithStar(s, row, col), col + 1)
  {
    WithStarKeeps(p, s, row, col);
    var t := WithStar(s, row, col);
    RowOfStar(p, t.star, row);
    forall c: nat | c < col
      ensures ColumnTakesFirst(p, t, c)
    {
      assert ColumnTakesFirst(p, s, c);
      WithStarStars(p, s, row, col, c);
      var r := RowOf(s.star, c);
      if r < p.rows { RowOfStar(p, t.star, r); }
    }
    forall r | 0 <= r < row && IsZero(Slack(p.m, t.u, t.v, r, col))
      ensures 0 <= t.star[r] < col
    {
      assert !FreeZero(p, s, r, col);
    }
    assert ColumnTakesFirst(p, t, col);
  }

  /** No further zero could be starred without moving a star. */
  ghost predicate Greedy(p: Problem, s: State)
    requires Inv(p, s)
  {
    forall r, c :: !FreeZero(p, s, r, c)
  }

  lemma TakingFirstIsGreedy(p: Problem, s: State)
    requires Inv(p, s)
    ensures RowsTakeFirst(p, s) || ColumnsTakeFirst(p, s) ==> Greedy(p, s)
  {
    forall r: nat, c: nat | FreeZero(p, s, r, c)
      ensures !RowTakesFirst(p, s, r) && !ColumnTakesFirst(p, s, c)
    {
    }
  }

  // ----- the finished state

  /** The entries lie on a grid no finer than the tolerance of the zero test. */
  ghost predicate Separated(m: Matrix) {
    exists g: real :: g >= DBL_EPSILON && MatrixOnGrid(m, g)
  }

  /** Choose a grid for the entries if there is one. */
  ghost function Pose(m: Matrix, rows: nat, cols: nat): (p: Problem)
    requires Rectangular(m, rows, cols) && rows > 0
    ensures p.Valid() && p.m == m && p.rows == rows && p.cols == cols
    ensures p.Tolerance() == if Separated(m) then 0.0 else DBL_EPSILON
  {
    if g: real :| g >= DBL_EPSILON && MatrixOnGrid(m, g) then Problem(m, rows, cols, g) else Problem(m, rows, cols, 0.0)
  }

  /** An assignment that costs at most `slack` more than any other complete one. */
  ghost predicate CheapestUpTo(m: Matrix, rows: nat, cols: nat, a: seq<int>, slack: real) {
    && Rectangular(m, rows, cols) && Complete(a, rows, cols)
    && forall b :: Complete(b, rows, cols) ==> Cost(m, a, rows) <= Cost(m, b, rows) + slack
  }

  lemma FinishedIsCheapest(p: Problem, s: State)
    requires Inv(p, s) && Matched(s.star, p.rows) == p.Size()
    ensures CheapestUpTo(p.m, p.rows, p.cols, s.star, p.Size() as real * p.Tolerance())
  {
    forall b | Complete(b, p.rows, p.cols)
      ensures Cost(p.m, s.star, p.rows) <= Cost(p.m, b, p.rows) + p.Size() as real * p.Tolerance()
    {
      TightIsCheapest(p.m, p.rows, p.cols, s.u, s.v, s.star, p.Tolerance(), b);
      TimesIsProduct(p.Size(), p.Tolerance());
    }
  }
}
