/** The Munkres algorithm on flat column-major buffers: the working arrays of
    `assignmentoptimal` as fields, the mutually recursive steps as methods. The ghost field
    `s` is the same state on values; `Shown` says the buffers hold it. */
module Hungarian {
  import opened Wrappers
  import opened Assignment
  import opened ColumnMajor
  import opened MunkresState
  import opened Exactness

  /** `bits` holds exactly the cells (r, a[r]). */
  ghost predicate ShowsCells(bits: seq<bool>, rows: nat, cols: nat, a: seq<int>)
    requires |a| == rows
  {
    && |bits| == Idx(rows, 0, cols)
    && forall r: nat, c: nat :: r < rows && c < cols ==>
         Idx(rows, r, c) < |bits| && (bits[Idx(rows, r, c)] <==> a[r] == c)
  }

  /** `d` holds the matrix `m` reduced by the potentials. */
  ghost predicate ShowsReduced(d: seq<real>, m: Matrix, rows: nat, cols: nat, u: seq<real>, v: seq<real>)
    requires Rectangular(m, rows, cols) && |u| == rows && |v| == cols
  {
    && |d| == Idx(rows, 0, cols)
    && forall r: nat, c: nat :: r < rows && c < cols ==>
         Idx(rows, r, c) < |d| && d[Idx(rows, r, c)] == Slack(m, u, v, r, c)
  }

  ghost predicate ShowsMatrix(d: seq<real>, m: Matrix, rows: nat, cols: nat)
    requires Rectangular(m, rows, cols)
  {
    && |d| == Idx(rows, 0, cols)
    && forall r: nat, c: nat :: r < rows && c < cols ==>
         Idx(rows, r, c) < |d| && d[Idx(rows, r, c)] == m[r][c]
  }

  class Munkres {
    const nOfRows: nat
    const nOfColumns: nat
    const minDim: nat
    const assignment: array<int>
    const distMatrix: array<real>
    const starMatrix: array<bool>
    const newStarMatrix: array<bool>
    const primeMatrix: array<bool>
    const coveredColumns: array<bool>
    const coveredRows: array<bool>
    ghost const p: Problem
    ghost var s: State

    ghost predicate Buffers() {
      && p.Valid() && nOfRows == p.rows && nOfColumns == p.cols && minDim == p.Size()
      && assignment.Length == coveredRows.Length == nOfRows && coveredColumns.Length == nOfColumns
      && distMatrix.Length == starMatrix.Length == newStarMatrix.Length == primeMatrix.Length
         == Idx(nOfRows, 0, nOfColumns)
      && starMatrix != newStarMatrix && starMatrix != primeMatrix && starMatrix != coveredColumns
      && starMatrix != coveredRows && newStarMatrix != primeMatrix && newStarMatrix != coveredColumns
      && newStarMatrix != coveredRows && primeMatrix != coveredColumns && primeMatrix != coveredRows
      && coveredColumns != coveredRows
    }

    ghost predicate Unassigned()
      reads assignment
    {
      forall r :: 0 <= r < assignment.Length ==> assignment[r] == -1
    }

    /** The buffers hold the state `s`. */
    ghost predicate Shown()
      reads this, distMatrix, starMatrix, primeMatrix, coveredColumns, coveredRows
    {
      ShownButRows() && coveredRows[..] == s.coveredRows
    }

    ghost predicate ShownButRows()
      reads this, distMatrix, starMatrix, primeMatrix, coveredColumns
    {
      && Buffers() && Shaped(p, s)
      && |s.u| == p.rows && |s.v| == p.cols && |s.star| == p.rows
      && ShowsReduced(distMatrix[..], p.m, p.rows, p.cols, s.u, s.v)
      && ShowsCells(starMatrix[..], p.rows, p.cols, s.star)
      && ShowsCells(primeMatrix[..], p.rows, p.cols, s.prime)
      && coveredColumns[..] == s.coveredColumns
    }

    /** As `Shown`, with one more prime in the prime matrix when `found`. */
    ghost predicate ShownButPrime(found: bool, row: nat, col: nat)
      reads this, distMatrix, starMatrix, primeMatrix, coveredColumns, coveredRows
    {
      && Buffers() && Shaped(p, s)
      && |s.u| == p.rows && |s.v| == p.cols && |s.star| == p.rows
      && ShowsReduced(distMatrix[..], p.m, p.rows, p.cols, s.u, s.v)
      && ShowsCells(starMatrix[..], p.rows, p.cols, s.star)
      && (found ==> row < p.rows)
      && ShowsCells(primeMatrix[..], p.rows, p.cols, if found then s.prime[row := col] else s.prime)
      && coveredColumns[..] == s.coveredColumns && coveredRows[..] == s.coveredRows
    }

    /** The assignment vector holds a complete matching that the potentials prove cheapest. */
    ghost predicate Finished()
      reads this, assignment
    {
      Buffers() && Inv(p, s) && Matched(s.star, p.rows) == p.Size() && assignment[..] == s.star
    }

    constructor (rows: nat, cols: nat, ghost problem: Problem)
      requires problem.Valid() && rows == problem.rows && cols == problem.cols
      ensures Buffers() && p == problem && s == Blank(p) && Unassigned()
      ensures forall n :: 0 <= n < starMatrix.Length ==> !starMatrix[n] && !primeMatrix[n]
      ensures forall n :: 0 <= n < nOfRows ==> !coveredRows[n]
      ensures forall n :: 0 <= n < nOfColumns ==> !coveredColumns[n]
      ensures fresh(assignment) && fresh(distMatrix) && fresh(starMatrix) && fresh(newStarMatrix)
      ensures fresh(primeMatrix) && fresh(coveredColumns) && fresh(coveredRows)
    {
      var nOfElements := Idx(rows, 0, cols);
      nOfRows, nOfColumns := rows, cols;
      minDim := if rows <= cols then rows else cols;
      assignment := new int[rows](_ => -1);
      distMatrix := new real[nOfElements];
      starMatrix := new bool[nOfElements](_ => false);
      newStarMatrix := new bool[nOfElements](_ => false);
      primeMatrix := new bool[nOfElements](_ => false);
      coveredColumns := new bool[cols](_ => false);
      coveredRows := new bool[rows](_ => false);
      p := problem;
      s := Blank(problem);
    }

    method CopyInput(distMatrixIn: array<real>)
      requires Buffers() && s == Blank(p) && distMatrixIn != distMatrix
      requires ShowsMatrix(distMatrixIn[..], p.m, nOfRows, nOfColumns)
      requires forall n :: 0 <= n < starMatrix.Length ==> !starMatrix[n] && !primeMatrix[n]
      requires forall n :: 0 <= n < nOfRows ==> !coveredRows[n]
      requires forall n :: 0 <= n < nOfColumns ==> !coveredColumns[n]
      modifies distMatrix
      ensures Shown()
    {
      for n := 0 to distMatrix.Length
        invariant forall i :: 0 <= i < n ==> distMatrix[i] == distMatrixIn[i]
      {
        distMatrix[n] := distMatrixIn[n];
      }
      assert distMatrix[..] == distMatrixIn[..];
      IdxInBuffer(nOfRows, nOfColumns);
    }

    // ----- loops over one row or one column

    method AddToRow(row: nat, h: real)
      requires Buffers() && row < nOfRows
      modifies distMatrix
      ensures forall r: nat, c: nat :: r < nOfRows && c < nOfColumns ==>
                Idx(nOfRows, r, c) < distMatrix.Length &&
                distMatrix[Idx(nOfRows, r, c)] == old(distMatrix[Idx(nOfRows, r, c)]) + (if r == row then h else 0.0)
    {
      IdxInBuffer(nOfRows, nOfColumns);
      for col := 0 to nOfColumns
        invariant forall r: nat, c: nat :: r < nOfRows && c < nOfColumns ==>
                    distMatrix[Idx(nOfRows, r, c)] ==
                    old(distMatrix[Idx(nOfRows, r, c)]) + (if r == row && c < col then h else 0.0)
      {
        IdxInjective(nOfRows, row, col);
        distMatrix[Idx(nOfRows, row, col)] := distMatrix[Idx(nOfRows, row, col)] + h;
      }
    }

    method AddToColumn(col: nat, h: real)
      requires Buffers() && col < nOfColumns
      modifies distMatrix
      ensures forall r: nat, c: nat :: r < nOfRows && c < nOfColumns ==>
                Idx(nOfRows, r, c) < distMatrix.Length &&
                distMatrix[Idx(nOfRows, r, c)] == old(distMatrix[Idx(nOfRows, r, c)]) + (if c == col then h else 0.0)
    {
      IdxInBuffer(nOfRows, nOfColumns);
      for row := 0 to nOfRows
        invariant forall r: nat, c: nat :: r < nOfRows && c < nOfColumns ==>
                    distMatrix[Idx(nOfRows, r, c)] ==
                    old(distMatrix[Idx(nOfRows, r, c)]) + (if c == col && r < row then h else 0.0)
      {
        IdxInjective(nOfRows, row, col);
        distMatrix[Idx(nOfRows, row, col)] := distMatrix[Idx(nOfRows, row, col)] + h;
      }
    }

    /** The column of the mark in a row, or the number of columns. */
    method FindInRow(marks: array<bool>, row: nat, ghost a: seq<int>) returns (col: nat)
      requires Buffers() && row < nOfRows && |a| == nOfRows && -1 <= a[row] < nOfColumns
      requires ShowsCells(marks[..], nOfRows, nOfColumns, a)
      ensures col == if a[row] >= 0 then a[row] else nOfColumns
    {
      IdxInBuffer(nOfRows, nOfColumns);
      col := 0;
      while col < nOfColumns
        invariant col <= nOfColumns && (a[row] >= 0 ==> col <= a[row])
      {
        assert marks[..][Idx(nOfRows, row, col)] <==> a[row] == col;
        if marks[Idx(nOfRows, row, col)] {
          break;
        }
        col := col + 1;
      }
    }

    /** The row of the mark in a column, or the number of rows. */
    method FindInColumn(marks: array<bool>, col: nat, ghost a: seq<int>) returns (row: nat)
      requires Buffers() && col < nOfColumns && Matching(a, nOfRows, nOfColumns)
      requires ShowsCells(marks[..], nOfRows, nOfColumns, a)
      ensures row == RowOf(a, col)
    {
      IdxInBuffer(nOfRows, nOfColumns);
      row := 0;
      while row < nOfRows
        invariant row <= nOfRows && forall r :: 0 <= r < row ==> a[r] != col
      {
        assert marks[..][Idx(nOfRows, row, col)] <==> a[row] == col;
        if marks[Idx(nOfRows, row, col)] {
          RowOfStar(p, a, row);
          break;
        }
        row := row + 1;
      }
    }

    lemma SetCell(before: seq<bool>, a: seq<int>, row: nat, col: nat)
      requires |a| == nOfRows && row < nOfRows && col < nOfColumns && a[row] == -1
      requires ShowsCells(before, nOfRows, nOfColumns, a)
      ensures Idx(nOfRows, row, col) < |before|
      ensures ShowsCells(before[Idx(nOfRows, row, col) := true], nOfRows, nOfColumns, a[row := col])
    {
      IdxInjective(nOfRows, row, col);
    }

    lemma ClearCell(before: seq<bool>, a: seq<int>, row: nat)
      requires |a| == nOfRows && row < nOfRows && 0 <= a[row] < nOfColumns
      requires ShowsCells(before, nOfRows, nOfColumns, a)
      ensures Idx(nOfRows, row, a[row]) < |before|
      ensures ShowsCells(before[Idx(nOfRows, row, a[row]) := false], nOfRows, nOfColumns, a[row := -1])
    {
      IdxInjective(nOfRows, row, a[row]);
    }

    // ----- preliminary steps

    method SmallestOfRow(row: nat) returns (minValue: real)
      requires ShownButRows()
      requires row < nOfRows <= nOfColumns && s.v == Blank(p).v && s.u[row] == 0.0
      ensures Smallest(p.m[row], minValue)
    {
      IdxInBuffer(nOfRows, nOfColumns);
      minValue := distMatrix[Idx(nOfRows, row, 0)];
      assert minValue == distMatrix[..][Idx(nOfRows, row, 0)] == p.m[row][0];
      for col := 1 to nOfColumns
        invariant minValue in p.m[row]
        invariant forall c :: 0 <= c < col ==> minValue <= p.m[row][c]
      {
        var value := distMatrix[Idx(nOfRows, row, col)];
        assert value == distMatrix[..][Idx(nOfRows, row, col)] == p.m[row][col];
        if value < minValue {
          minValue := value;
        }
      }
    }

    method ReduceRows()
      requires Shown() && s == Blank(p) && nOfRows <= nOfColumns
      modifies this`s, distMatrix
      ensures Shown() && Starting(p, s) && s.star == Blank(p).star && RowsReduced(p, s)
    {
      for row := 0 to nOfRows
        invariant Shown() && s == Blank(p).(u := s.u)
        invariant forall r :: row <= r < nOfRows ==> s.u[r] == 0.0
        invariant forall r :: 0 <= r < row ==> Smallest(p.m[r], s.u[r])
      {
        var minValue := SmallestOfRow(row);
        AddToRow(row, -minValue);
        s := s.(u := s.u[row := minValue]);
      }
      ReducedIsStarting(p, s.u, s.v);
    }

    method SmallestOfColumn(col: nat) returns (minValue: real)
      requires ShownButRows() && col < nOfColumns < nOfRows && s.u == Blank(p).u && s.v[col] == 0.0
      ensures Smallest(Column(p.m, col), minValue)
    {
      ghost var column := Column(p.m, col);
      IdxInBuffer(nOfRows, nOfColumns);
      minValue := distMatrix[Idx(nOfRows, 0, col)];
      assert minValue == distMatrix[..][Idx(nOfRows, 0, col)] == column[0];
      for row := 1 to nOfRows
        invariant minValue in column
        invariant forall r :: 0 <= r < row ==> minValue <= column[r]
      {
        var value := distMatrix[Idx(nOfRows, row, col)];
        assert value == distMatrix[..][Idx(nOfRows, row, col)] == column[row];
        if value < minValue {
          minValue := value;
        }
      }
    }

    method ReduceColumns()
      requires Shown() && s == Blank(p) && nOfRows > nOfColumns
      modifies this`s, distMatrix
      ensures Shown() && Starting(p, s) && s.star == Blank(p).star && ColumnsReduced(p, s)
    {
      for col := 0 to nOfColumns
        invariant Shown() && s == Blank(p).(v := s.v)
        invariant forall c :: col <= c < nOfColumns ==> s.v[c] == 0.0
        invariant forall c :: 0 <= c < col ==> Smallest(Column(p.m, c), s.v[c])
      {
        var minValue := SmallestOfColumn(col);
        AddToColumn(col, -minValue);
        s := s.(v := s.v[col := minValue]);
      }
      ReducedIsStarting(p, s.u, s.v);
    }

    /** Star the zero (row, col) and cover its column. */
    method StarZero(row: nat, col: nat)
      requires ShownButRows() && Starting(p, s) && row < nOfRows && col < nOfColumns
      requires s.star[row] == -1 && col !in s.star && IsZero(Slack(p.m, s.u, s.v, row, col))
      modifies this`s, starMatrix, coveredColumns
      ensures ShownButRows() && Starting(p, s) && s == WithStar(old(s), row, col)
    {
      WithStarKeeps(p, s, row, col);
      SetCell(starMatrix[..], s.star, row, col);
      starMatrix[Idx(nOfRows, row, col)] := true;
      coveredColumns[col] := true;
      s := WithStar(s, row, col);
    }

    /** Star the first zero of a row that lies in an uncovered column, if there is one. */
    method StarInRow(row: nat)
      requires Shown() && RowsTaken(p, s, row) && row < nOfRows
      modifies this`s, starMatrix, coveredColumns
      ensures Shown() && RowsTaken(p, s, row + 1) && s.u == old(s).u && s.v == old(s).v
    {
      IdxInBuffer(nOfRows, nOfColumns);
      var col := 0;
      while col < nOfColumns
        invariant col <= nOfColumns && Shown() && RowsTaken(p, s, row) && s == old(s)
        invariant forall c :: 0 <= c < col ==> !FreeZero(p, s, row, c)
      {
        assert distMatrix[..][Idx(nOfRows, row, col)] == Slack(p.m, s.u, s.v, row, col);
        if IsZero(distMatrix[Idx(nOfRows, row, col)]) && !coveredColumns[col] {
          RowTakes(p, s, row, col);
          StarZero(row, col);
          return;
        }
        col := col + 1;
      }
      RowTakesNone(p, s, row);
    }

    /** Star a zero in every row that still has one in an uncovered column. */
    method StarRows()
      requires Shown() && Starting(p, s) && s.star == Blank(p).star
      modifies this`s, starMatrix, coveredColumns
      ensures Shown() && Starting(p, s) && RowsTakeFirst(p, s) && s.u == old(s).u && s.v == old(s).v
    {
      for row := 0 to nOfRows
        invariant Shown() && RowsTaken(p, s, row) && s.u == old(s).u && s.v == old(s).v
      {
        StarInRow(row);
      }
    }

    /** The first `col` columns have been searched for a zero to star; the row covers remember
        the starred rows. */
    ghost predicate ColumnsSearched(col: nat)
      reads this, distMatrix, starMatrix, primeMatrix, coveredColumns, coveredRows
    {
      && ShownButRows() && ColumnsTaken(p, s, col)
      && forall r :: 0 <= r < nOfRows ==> (coveredRows[r] <==> s.star[r] >= 0)
    }

    /** The first row with a zero in this column that has no star, or the number of rows. */
    method FindFreeInColumn(col: nat) returns (row: nat)
      requires ColumnsSearched(col) && col < nOfColumns
      ensures row <= nOfRows && forall r :: 0 <= r < row ==> !FreeZero(p, s, r, col)
      ensures row < nOfRows ==> FreeZero(p, s, row, col)
    {
      IdxInBuffer(nOfRows, nOfColumns);
      row := 0;
      while row < nOfRows
        invariant row <= nOfRows && forall r :: 0 <= r < row ==> !FreeZero(p, s, r, col)
      {
        assert distMatrix[..][Idx(nOfRows, row, col)] == Slack(p.m, s.u, s.v, row, col);
        if IsZero(distMatrix[Idx(nOfRows, row, col)]) && !coveredRows[row] {
          return;
        }
        row := row + 1;
      }
    }

    /** Star the first zero of a column that lies in a row without a star, if there is one. */
    method StarInColumn(col: nat)
      requires ColumnsSearched(col) && col < nOfColumns
      modifies this`s, starMatrix, coveredColumns, coveredRows
      ensures ColumnsSearched(col + 1) && s.u == old(s).u && s.v == old(s).v
    {
      var row := FindFreeInColumn(col);
      if row < nOfRows {
        ColumnTakes(p, s, row, col);
        StarZero(row, col);
        coveredRows[row] := true;
      } else {
        ColumnTakesNone(p, s, col);
      }
    }

    /** Star a zero in every column that still has one in a row without a star, and uncover
        the rows afterwards. */
    method StarColumns()
      requires Shown() && Starting(p, s) && s.star == Blank(p).star
      modifies this`s, starMatrix, coveredColumns, coveredRows
      ensures Shown() && Starting(p, s) && ColumnsTakeFirst(p, s) && s.u == old(s).u && s.v == old(s).v
    {
      for col := 0 to nOfColumns
        invariant ColumnsSearched(col) && s.u == old(s).u && s.v == old(s).v
      {
        StarInColumn(col);
      }
      UncoverRows();
    }

    method UncoverRows()
      requires Buffers()
      modifies coveredRows
      ensures forall r :: 0 <= r < nOfRows ==> !coveredRows[r]
    {
      for row := 0 to nOfRows
        invariant forall r :: 0 <= r < row ==> !coveredRows[r]
      {
        coveredRows[row] := false;
      }
    }

    /** Subtract the smallest entry of every line of the shorter side and star what zeros can
        be starred without moving any. */
    method Preliminaries()
      requires Shown() && s == Blank(p)
      modifies this`s, distMatrix, starMatrix, coveredColumns, coveredRows
      ensures Shown() && Starting(p, s) && Greedy(p, s)
      ensures if nOfRows <= nOfColumns then RowsReduced(p, s) && RowsTakeFirst(p, s)
              else ColumnsReduced(p, s) && ColumnsTakeFirst(p, s)
    {
      if nOfRows <= nOfColumns {
        ReduceRows();
        StarRows();
      } else {
        ReduceColumns();
        StarColumns();
      }
      TakingFirstIsGreedy(p, s);
    }

    // ----- step 3: prime uncovered zeros

    /** Prime the uncovered zero (row, col): either its row has no star (`found`), or the row
        is covered and its star's column uncovered. */
    method PrimeZero(row: nat, col: nat) returns (found: bool)
      requires Shown() && Searching(p, s) && UncoveredZero(p, s, row, col)
      modifies this`s, primeMatrix, coveredRows, coveredColumns
      ensures ShownButPrime(found, row, col) && Searching(p, s) && Primed(p, old(s), s, found, row, col)
    {
      SetCell(primeMatrix[..], s.prime, row, col);
      primeMatrix[Idx(nOfRows, row, col)] := true;
      var starCol := FindInRow(starMatrix, row, s.star);
      found := starCol == nOfColumns;
      if !found {
        PrimeAndCoverKeeps(p, s, row, col);
        coveredRows[row] := true;
        coveredColumns[starCol] := false;
        s := PrimeAndCover(s, row, col);
      }
    }

    /** Prime the first uncovered zero of a column, if there is one. */
    method PrimeInColumn(col: nat) returns (zero: bool, found: bool, row: nat)
      requires Shown() && Searching(p, s) && col < nOfColumns
      modifies this`s, primeMatrix, coveredRows, coveredColumns
      ensures ShownButPrime(found, row, col) && Searching(p, s)
      ensures zero ==> UncoveredZero(p, old(s), row, col) && Primed(p, old(s), s, found, row, col)
      ensures !zero ==> !found && s == old(s) && forall r :: !UncoveredZero(p, s, r, col)
    {
      IdxInBuffer(nOfRows, nOfColumns);
      zero, found, row := false, false, 0;
      if coveredColumns[col] {
        return;
      }
      while row < nOfRows
        invariant row <= nOfRows && Shown() && s == old(s)
        invariant forall r :: 0 <= r < row ==> !UncoveredZero(p, s, r, col)
      {
        assert distMatrix[..][Idx(nOfRows, row, col)] == Slack(p.m, s.u, s.v, row, col);
        if !coveredRows[row] && IsZero(distMatrix[Idx(nOfRows, row, col)]) {
          zero := true;
          found := PrimeZero(row, col);
          return;
        }
        row := row + 1;
      }
    }

    /** One pass over the columns; `again` when a row was covered. */
    method PrimePass() returns (again: bool, found: bool, row: nat, col: nat)
      requires Shown() && Searching(p, s)
      modifies this`s, primeMatrix, coveredRows, coveredColumns
      ensures ShownButPrime(found, row, col) && Searching(p, s) && SameSearch(old(s), s)
      ensures found ==> UncoveredZero(p, s, row, col) && s.star[row] == -1
      ensures !found && again ==> MoreRows(old(s), s)
      ensures !found && !again ==> s == old(s) && NoUncoveredZero(p, s)
    {
      again, found, row, col := false, false, 0, 0;
      while col < nOfColumns
        invariant col <= nOfColumns && Shown() && Searching(p, s) && Passed(p, old(s), s, again, col)
      {
        ghost var now := s;
        var zero;
        zero, found, row := PrimeInColumn(col);
        if found {
          return;
        }
        if zero {
          PassCovered(p, old(s), now, again, row, col);
          again := true;
        } else {
          PassSkipped(p, old(s), s, again, col);
        }
        col := col + 1;
      }
    }

    /** Prime uncovered zeros and cover their rows until one is found in a row without a star
        or none is left. */
    method PrimeZeros() returns (found: bool, row: nat, col: nat)
      requires Shown() && Searching(p, s)
      modifies this`s, primeMatrix, coveredRows, coveredColumns
      ensures ShownButPrime(found, row, col) && Searching(p, s) && SameSearch(old(s), s)
      ensures found ==> UncoveredZero(p, s, row, col) && s.star[row] == -1
      ensures !found ==> NoUncoveredZero(p, s)
    {
      found, row, col := false, 0, 0;
      var zerosFound := true;
      while zerosFound
        invariant Shown() && Searching(p, s) && SameSearch(old(s), s)
        invariant !zerosFound ==> NoUncoveredZero(p, s)
        decreases p.rows - Trues(s.coveredRows, p.rows), zerosFound
      {
        zerosFound, found, row, col := PrimePass();
        if found {
          return;
        }
      }
    }

    // ----- step 4: flip an alternating chain

    /** Start from a copy of the stars with the zero (row, col) starred too. */
    method CopyStars(row: nat, col: nat)
      requires ShownButPrime(true, row, col)
      requires row < nOfRows && col < nOfColumns && s.star[row] == -1
      modifies newStarMatrix
      ensures ShowsCells(newStarMatrix[..], nOfRows, nOfColumns, s.star[row := col])
    {
      for n := 0 to starMatrix.Length
        invariant forall i :: 0 <= i < n ==> newStarMatrix[i] == starMatrix[i]
      {
        newStarMatrix[n] := starMatrix[n];
      }
      assert newStarMatrix[..] == starMatrix[..];
      SetCell(newStarMatrix[..], s.star, row, col);
      newStarMatrix[Idx(nOfRows, row, col)] := true;
    }

    /** Move the star of a row to the prime in the row. */
    method MoveToPrime(starRow: nat, starCol: nat, ghost primes: seq<int>, ghost stars: seq<int>)
      returns (primeCol: nat)
      requires Buffers() && |primes| == |stars| == nOfRows && starRow < nOfRows
      requires stars[starRow] == starCol < nOfColumns && 0 <= primes[starRow] < nOfColumns
      requires ShowsCells(primeMatrix[..], nOfRows, nOfColumns, primes)
      requires ShowsCells(newStarMatrix[..], nOfRows, nOfColumns, stars)
      modifies newStarMatrix
      ensures primeCol == primes[starRow]
      ensures ShowsCells(newStarMatrix[..], nOfRows, nOfColumns, stars[starRow := primeCol])
    {
      MoveStar(stars, starRow, starCol, primes[starRow]);
      primeCol := FindInRow(primeMatrix, starRow, primes);
      newStarMatrix[Idx(nOfRows, starRow, starCol)] := false;
      newStarMatrix[Idx(nOfRows, starRow, primeCol)] := true;
    }

    /** Build in `newStarMatrix` the stars after flipping the chain from (row, col): each star
        met in a newly taken column moves to the prime in its row. */
    method FlipChain(row: nat, col: nat) returns (ghost star': seq<int>)
      requires ShownButPrime(true, row, col) && Searching(p, s)
      requires UncoveredZero(p, s, row, col) && s.star[row] == -1
      modifies newStarMatrix
      ensures |star'| == nOfRows && ShowsCells(newStarMatrix[..], nOfRows, nOfColumns, star')
      ensures Augments(p, s, row, col, star')
    {
      CopyStars(row, col);
      star' := s.star[row := col];
      ghost var last: nat := row;
      ChainBegins(p, s, row, col);

      var starCol := col;
      var starRow := FindInColumn(starMatrix, starCol, s.star);
      while starRow < nOfRows
        invariant starCol < nOfColumns && Chain(p, s, row, col, star', last, starCol)
        invariant starRow == RowOf(s.star, starCol)
        invariant ShowsCells(newStarMatrix[..], nOfRows, nOfColumns, star')
        decreases starRow < nOfRows, if starRow < nOfRows then s.time[starRow] else 0
      {
        ChainMeets(p, s, row, col, star', last, starCol);
        ChainNext(p, s, row, col, star', last, starCol);
        var primeCol := MoveToPrime(starRow, starCol, s.prime[row := col], star');
        star' := star'[starRow := primeCol];
        last := starRow;
        starCol := primeCol;
        starRow := FindInColumn(starMatrix, starCol, s.star);
      }
      ChainEnds(p, s, row, col, star', last, starCol);
    }

    /** Clearing the star of a row and setting it elsewhere in the row. */
    lemma MoveStar(a: seq<int>, row: nat, col: nat, col': int)
      requires |a| == nOfRows && row < nOfRows && a[row] == col < nOfColumns && 0 <= col' < nOfColumns
      requires ShowsCells(newStarMatrix[..], nOfRows, nOfColumns, a)
      ensures Idx(nOfRows, row, col) < newStarMatrix.Length && Idx(nOfRows, row, col') < newStarMatrix.Length
      ensures ShowsCells(newStarMatrix[..][Idx(nOfRows, row, col) := false][Idx(nOfRows, row, col') := true],
                         nOfRows, nOfColumns, a[row := col'])
    {
      ClearCell(newStarMatrix[..], a, row);
      SetCell(newStarMatrix[..][Idx(nOfRows, row, col) := false], a[row := -1], row, col');
      assert a[row := -1][row := col'] == a[row := col'];
    }

    method TakeNewStars()
      requires Buffers()
      modifies starMatrix, primeMatrix
      ensures starMatrix[..] == newStarMatrix[..]
      ensures forall i :: 0 <= i < primeMatrix.Length ==> !primeMatrix[i]
    {
      for n := 0 to starMatrix.Length
        invariant forall i :: 0 <= i < n ==> !primeMatrix[i] && starMatrix[i] == newStarMatrix[i]
      {
        primeMatrix[n] := false;
        starMatrix[n] := newStarMatrix[n];
      }
    }

    /** Take over the new stars, delete the primes and uncover the rows. */
    method Restart(ghost row: nat, ghost col: nat, ghost star': seq<int>)
      requires ShownButPrime(true, row, col) && Searching(p, s) && UncoveredZero(p, s, row, col) && s.star[row] == -1
      requires |star'| == nOfRows && ShowsCells(newStarMatrix[..], nOfRows, nOfColumns, star')
      requires Augments(p, s, row, col, star')
      modifies this`s, starMatrix, primeMatrix, coveredRows
      ensures Shown() && Restarting(p, s) && s == Restarted(old(s), star')
    {
      TakeNewStars();
      UncoverRows();
      AugmentKeeps(p, s, row, col, star');
      s := Restarted(s, star');
    }

    // ----- step 5: adjust the potentials

    /** The smallest uncovered entry; there always is one, so the DBL_MAX that the search
        starts from does not remain. */
    method FindSmallestUncovered() returns (h: Option<real>)
      requires Shown() && Searching(p, s) && Matched(s.star, p.rows) < p.Size()
      ensures h.Some? && SmallestUncovered(p, s, h.value)
    {
      IdxInBuffer(nOfRows, nOfColumns);
      h := None;
      for row := 0 to nOfRows
        invariant SmallestSoFar(h, row, 0)
      {
        if !coveredRows[row] {
          for col := 0 to nOfColumns
            invariant SmallestSoFar(h, row, col)
          {
            if !coveredColumns[col] {
              assert Uncovered(p, s, row, col);
              var value := distMatrix[Idx(nOfRows, row, col)];
              assert value == distMatrix[..][Idx(nOfRows, row, col)] == Slack(p.m, s.u, s.v, row, col);
              if h.None? || value < h.value {
                h := Some(value);
              }
            }
          }
        }
      }
      SomeUncovered(p, s);
    }

    ghost predicate SmallestSoFar(h: Option<real>, row: nat, col: nat)
      requires Buffers() && Inv(p, s)
      reads this
    {
      && (h.Some? ==> exists r, c :: Uncovered(p, s, r, c) && h.value == Slack(p.m, s.u, s.v, r, c))
      && (forall r, c :: Uncovered(p, s, r, c) && (r < row || (r == row && c < col)) ==>
           h.Some? && h.value <= Slack(p.m, s.u, s.v, r, c))
    }

    method RaiseCoveredRows(h: real)
      requires Buffers()
      modifies distMatrix
      ensures forall r: nat, c: nat :: r < nOfRows && c < nOfColumns ==>
                Idx(nOfRows, r, c) < distMatrix.Length &&
                distMatrix[Idx(nOfRows, r, c)] ==
                old(distMatrix[Idx(nOfRows, r, c)]) + (if coveredRows[r] then h else 0.0)
    {
      IdxInBuffer(nOfRows, nOfColumns);
      for row := 0 to nOfRows
        invariant forall r: nat, c: nat :: r < nOfRows && c < nOfColumns ==>
                    distMatrix[Idx(nOfRows, r, c)] ==
                    old(distMatrix[Idx(nOfRows, r, c)]) + (if r < row && coveredRows[r] then h else 0.0)
      {
        if coveredRows[row] {
          AddToRow(row, h);
        }
      }
    }

    method LowerUncoveredColumns(h: real)
      requires Buffers()
      modifies distMatrix
      ensures forall r: nat, c: nat :: r < nOfRows && c < nOfColumns ==>
                Idx(nOfRows, r, c) < distMatrix.Length &&
                distMatrix[Idx(nOfRows, r, c)] ==
                old(distMatrix[Idx(nOfRows, r, c)]) - (if coveredColumns[c] then 0.0 else h)
    {
      IdxInBuffer(nOfRows, nOfColumns);
      for col := 0 to nOfColumns
        invariant forall r: nat, c: nat :: r < nOfRows && c < nOfColumns ==>
                    distMatrix[Idx(nOfRows, r, c)] ==
                    old(distMatrix[Idx(nOfRows, r, c)]) - (if c < col && !coveredColumns[c] then h else 0.0)
      {
        if !coveredColumns[col] {
          AddToColumn(col, -h);
        }
      }
    }

    /** Add `h` to the covered rows and subtract it from the uncovered columns. */
    method ShiftEntries(h: real)
      requires Shown()
      modifies distMatrix
      ensures ShowsReduced(distMatrix[..], p.m, p.rows, p.cols, Adjust(p, s, h).u, Adjust(p, s, h).v)
    {
      assert forall r: nat, c: nat :: r < nOfRows && c < nOfColumns ==>
               distMatrix[Idx(nOfRows, r, c)] == Slack(p.m, s.u, s.v, r, c);
      RaiseCoveredRows(h);
      LowerUncoveredColumns(h);
      assert forall r: nat, c: nat :: r < nOfRows && c < nOfColumns ==>
               distMatrix[Idx(nOfRows, r, c)] == Slack(p.m, s.u, s.v, r, c) + Shift(s, h, r, c);
      forall r: nat, c: nat | r < nOfRows && c < nOfColumns
        ensures distMatrix[Idx(nOfRows, r, c)] == Slack(p.m, Adjust(p, s, h).u, Adjust(p, s, h).v, r, c)
      {
        AdjustShifts(p, s, h, r, c);
      }
    }

    method AdjustBy(h: real)
      requires Shown() && Searching(p, s) && SmallestUncovered(p, s, h)
      modifies this`s, distMatrix
      ensures Shown() && Searching(p, s) && !NoUncoveredZero(p, s) && s == Adjust(p, old(s), h)
    {
      AdjustKeeps(p, s, h);
      ShiftEntries(h);
      s := Adjust(p, s, h);
    }

    /** Adjust the potentials by the smallest uncovered entry, which is not zero. */
    method AdjustPotentials() returns (ghost h: real)
      requires Shown() && Searching(p, s) && Matched(s.star, p.rows) < p.Size() && NoUncoveredZero(p, s)
      modifies this`s, distMatrix
      ensures h >= DBL_EPSILON
      ensures Shown() && Searching(p, s) && !NoUncoveredZero(p, s)
      ensures SmallestUncovered(p, old(s), h) && s == Adjust(p, old(s), h)
      ensures s.star == old(s).star && s.coveredRows == old(s).coveredRows
    {
      var smallest := FindSmallestUncovered();
      h := smallest.value;
      AdjustmentIsPositive(p, s, h);
      AdjustBy(smallest.value);
    }

    // ----- the steps

    /** Cover every column with a star. */
    method CoverStarredColumns()
      requires Shown() && Restarting(p, s)
      modifies this`s, coveredColumns
      ensures Shown() && Starting(p, s) && s == old(s).(coveredColumns := s.coveredColumns)
    {
      for col := 0 to nOfColumns
        modifies coveredColumns
        invariant forall c :: 0 <= c < nOfColumns ==>
                    (coveredColumns[c] <==> s.coveredColumns[c] || (c < col && c in s.star))
      {
        var row := FindInColumn(starMatrix, col, s.star);
        if row < nOfRows {
          coveredColumns[col] := true;
        }
      }
      s := s.(coveredColumns := coveredColumns[..]);
    }

    method CountCoveredColumns() returns (n: nat)
      requires Shown() && Starting(p, s)
      ensures n == Matched(s.star, p.rows) <= p.Size()
    {
      n := 0;
      for col := 0 to nOfColumns
        invariant n == Trues(s.coveredColumns, col)
      {
        if coveredColumns[col] {
          n := n + 1;
        }
      }
      ColumnsAsTrues(s.star, s.coveredColumns, p.cols);
      MatchedRowsAreColumns(s.star, p.rows, p.cols);
    }

    method BuildAssignmentVector()
      requires Shown() && Inv(p, s) && Unassigned()
      modifies assignment
      ensures assignment[..] == s.star
    {
      for row := 0 to nOfRows
        invariant forall r :: 0 <= r < nOfRows ==> assignment[r] == if r < row then s.star[r] else -1
      {
        var col := FindInRow(starMatrix, row, s.star);
        if col < nOfColumns {
          assignment[row] := col;
        }
      }
    }

    /** Cover the starred columns, then count them. */
    method Step2a()
      requires Shown() && Restarting(p, s) && Unassigned()
      modifies this`s, assignment, distMatrix, starMatrix, newStarMatrix, primeMatrix, coveredColumns, coveredRows
      ensures Finished()
      decreases p.Size() - Matched(s.star, p.rows), p.rows + 1, 2
    {
      CoverStarredColumns();
      Step2b();
    }

    /** Finish when as many columns are covered as can be matched. */
    method Step2b()
      requires Shown() && Starting(p, s) && Unassigned()
      modifies this`s, assignment, distMatrix, starMatrix, newStarMatrix, primeMatrix, coveredColumns, coveredRows
      ensures Finished()
      ensures old(Matched(s.star, p.rows)) == p.Size() ==> s == old(s)
      decreases p.Size() - Matched(s.star, p.rows), p.rows + 1, 1
    {
      var nOfCoveredColumns := CountCoveredColumns();
      if nOfCoveredColumns == minDim {
        BuildAssignmentVector();
      } else {
        StartingIsSearching(p, s);
        Step3();
      }
    }

    /** Prime zeros until the matching can be augmented or no uncovered zero is left. */
    method Step3()
      requires Shown() && Searching(p, s) && Matched(s.star, p.rows) < p.Size() && Unassigned()
      modifies this`s, assignment, distMatrix, starMatrix, newStarMatrix, primeMatrix, coveredColumns, coveredRows
      ensures Finished()
      decreases p.Size() - Matched(s.star, p.rows), p.rows - Trues(s.coveredRows, p.rows),
                if NoUncoveredZero(p, s) then 2 else 0
    {
      CoveredLinesAreStars(p, s);
      var found, row, col := PrimeZeros();
      if found {
        Step4(row, col);
      } else {
        Step5();
      }
    }

    /** Augment the matching along the chain from the primed zero (row, col). */
    method Step4(row: nat, col: nat)
      requires ShownButPrime(true, row, col) && Searching(p, s) && Matched(s.star, p.rows) < p.Size() && Unassigned()
      requires UncoveredZero(p, s, row, col) && s.star[row] == -1
      modifies this`s, assignment, distMatrix, starMatrix, newStarMatrix, primeMatrix, coveredColumns, coveredRows
      ensures Finished()
      decreases p.Size() - Matched(s.star, p.rows), 0, 0
    {
      ghost var star' := FlipChain(row, col);
      Restart(row, col, star');
      Step2a();
    }

    /** With no uncovered zero left, adjust the potentials, which uncovers one. */
    method Step5()
      requires Shown() && Searching(p, s) && Matched(s.star, p.rows) < p.Size() && Unassigned()
      requires NoUncoveredZero(p, s)
      modifies this`s, assignment, distMatrix, starMatrix, newStarMatrix, primeMatrix, coveredColumns, coveredRows
      ensures Finished()
      decreases p.Size() - Matched(s.star, p.rows), p.rows - Trues(s.coveredRows, p.rows), 1
    {
      ghost var h := AdjustPotentials();
      Step3();
    }

    /** The preliminary steps, then the others as they call each other. */
    method Run()
      requires Shown() && s == Blank(p) && Unassigned()
      modifies this`s, assignment, distMatrix, starMatrix, newStarMatrix, primeMatrix, coveredColumns, coveredRows
      ensures Finished() && LineTaken(p, s.star)
    {
      Preliminaries();
      if SingleLine(p) { SingleLineIsMatched(p, s); }
      Step2b();
    }
  }

  // ----- entry points

  method ComputeAssignmentCost(assignment: array<int>, distMatrix: array<real>, ghost m: Matrix, nOfRows: nat,
                               ghost cols: nat)
    returns (cost: real)
    requires assignment.Length == nOfRows && Rectangular(m, nOfRows, cols)
    requires forall r :: 0 <= r < nOfRows ==> -1 <= assignment[r] < cols
    requires ShowsMatrix(distMatrix[..], m, nOfRows, cols)
    ensures cost == Cost(m, assignment[..], nOfRows)
  {
    cost := 0.0;
    for row := 0 to nOfRows
      invariant cost == Cost(m, assignment[..], row)
    {
      var col := assignment[row];
      if col >= 0 {
        assert distMatrix[..][Idx(nOfRows, row, col)] == m[row][col];
        cost := cost + distMatrix[Idx(nOfRows, row, col)];
      }
    }
  }

  method AssignmentOptimal(distMatrixIn: array<real>, nOfRows: nat, nOfColumns: nat, ghost p: Problem)
    returns (assignment: array<int>, cost: real)
    requires p.Valid() && nOfRows == p.rows && nOfColumns == p.cols
    requires ShowsMatrix(distMatrixIn[..], p.m, nOfRows, nOfColumns)
    ensures CheapestUpTo(p.m, nOfRows, nOfColumns, assignment[..], p.Size() as real * p.Tolerance())
    ensures cost == Cost(p.m, assignment[..], nOfRows)
    ensures LineTaken(p, assignment[..])
  {
    var w := new Munkres(nOfRows, nOfColumns, p);
    w.CopyInput(distMatrixIn);
    w.Run();
    FinishedIsCheapest(p, w.s);
    assignment := w.assignment;
    cost := ComputeAssignmentCost(assignment, distMatrixIn, p.m, nOfRows, nOfColumns);
  }

  method FillIn(m: Matrix, nRows: nat, nCols: nat) returns (distMatrixIn: array<real>)
    requires Rectangular(m, nRows, nCols)
    ensures fresh(distMatrixIn) && ShowsMatrix(distMatrixIn[..], m, nRows, nCols)
  {
    IdxInBuffer(nRows, nCols);
    distMatrixIn := new real[Idx(nRows, 0, nCols)];
    for i := 0 to nRows
      invariant forall r: nat, c: nat :: r < i && c < nCols ==> distMatrixIn[Idx(nRows, r, c)] == m[r][c]
    {
      for j := 0 to nCols
        invariant forall r: nat, c: nat :: r < nRows && c < nCols && (r < i || (r == i && c < j)) ==>
                    distMatrixIn[Idx(nRows, r, c)] == m[r][c]
      {
        IdxInjective(nRows, i, j);
        distMatrixIn[Idx(nRows, i, j)] := m[i][j];
      }
    }
  }

  /** The cheapest complete assignment of a matrix, up to one tolerance for every matched line.
      It is exactly the cheapest when the entries lie on a grid no finer than the tolerance,
      and when no other assignment comes that near to the cheapest; for a single row or column,
      if and only if the first entry near the smallest is the smallest. */
  method Solve(distMatrix: Matrix) returns (cost: real, assignment: seq<int>)
    requires |distMatrix| > 0 && Rectangular(distMatrix, |distMatrix|, |distMatrix[0]|)
    ensures var rows, cols := |distMatrix|, |distMatrix[0]|;
            var slack := Min(rows, cols) as real * DBL_EPSILON;
            && Complete(assignment, rows, cols) && cost == Cost(distMatrix, assignment, rows)
            && CheapestUpTo(distMatrix, rows, cols, assignment, slack)
            && (Separated(distMatrix) || Isolated(distMatrix, rows, cols, slack) ==>
                 CheapestUpTo(distMatrix, rows, cols, assignment, 0.0))
    ensures MatrixOnGrid(distMatrix, 1.0 / 4503599627370496.0) ==>
              CheapestUpTo(distMatrix, |distMatrix|, |distMatrix[0]|, assignment, 0.0)
    ensures |distMatrix| == 1 ==>
              (CheapestUpTo(distMatrix, 1, |distMatrix[0]|, assignment, 0.0) <==> FirstNearIsSmallest(distMatrix[0]))
    ensures |distMatrix[0]| == 1 ==>
              (CheapestUpTo(distMatrix, |distMatrix|, 1, assignment, 0.0) <==>
               FirstNearIsSmallest(Column(distMatrix, 0)))
  {
    var nRows, nCols := |distMatrix|, |distMatrix[0]|;
    ghost var p := Pose(distMatrix, nRows, nCols);
    var distMatrixIn := FillIn(distMatrix, nRows, nCols);
    var vector;
    vector, cost := AssignmentOptimal(distMatrixIn, nRows, nCols, p);
    assignment := [];
    for r := 0 to nRows
      invariant assignment == vector[..r]
    {
      assignment := assignment + [vector[r]];
    }
    assert vector[..nRows] == vector[..];
    SlackBounds(p.Size(), p.Tolerance());
    ExactlyWhen(p, distMatrix, assignment);
    if MatrixOnGrid(distMatrix, 1.0 / 4503599627370496.0) { MultiplesAreSeparated(distMatrix); }
  }

  /** What follows from the bound and from what is taken of a single line. */
  lemma ExactlyWhen(p: Problem, m: Matrix, a: seq<int>)
    requires |m| > 0 && Rectangular(m, |m|, |m[0]|)
    requires CheapestUpTo(m, |m|, |m[0]|, a, Min(|m|, |m[0]|) as real * DBL_EPSILON)
    requires p.Valid() && p.m == m && p.rows == |m| && p.cols == |m[0]| && LineTaken(p, a)
    ensures Isolated(m, |m|, |m[0]|, Min(|m|, |m[0]|) as real * DBL_EPSILON) ==> CheapestUpTo(m, |m|, |m[0]|, a, 0.0)
    ensures |m| == 1 ==> (CheapestUpTo(m, 1, |m[0]|, a, 0.0) <==> FirstNearIsSmallest(m[0]))
    ensures |m[0]| == 1 ==> (CheapestUpTo(m, |m|, 1, a, 0.0) <==> FirstNearIsSmallest(Column(m, 0)))
  {
    if Isolated(m, |m|, |m[0]|, Min(|m|, |m[0]|) as real * DBL_EPSILON) {
      IsolatedIsExact(m, |m|, |m[0]|, a, Min(|m|, |m[0]|) as real * DBL_EPSILON);
    }
    if |m| == 1 && |m[0]| == 0 {
      assert Min(1, 0) as real * DBL_EPSILON == 0.0;
    } else if |m| == 1 {
      RowIsExactly(m, a);
      if |m[0]| == 1 { assert Column(m, 0) == m[0]; }
    } else if |m[0]| == 1 {
      var r: nat :| r < |m| && a[r] == 0 && FirstNear(Column(m, 0), r);
      ColumnIsExactly(m, a, r);
    }
  }

  lemma SlackBounds(n: nat, tol: real)
    requires tol == 0.0 || tol == DBL_EPSILON
    ensures n as real * tol <= n as real * DBL_EPSILON
    ensures tol == 0.0 ==> n as real * tol == 0.0
  {
  }

  /** Two entries, the first one dearer by `x`: it is taken exactly when `x` is below 2 to the
      power -52. */
  method NearTie(x: real) returns (cost: real, a: seq<int>)
    requires x > 0.0
    ensures if x < 1.0 / 4503599627370496.0 then a == [0] && cost == x else a == [1] && cost == 0.0
  {
    cost, a := Solve([[x, 0.0]]);
    TwoEntries(x);
    TwoEntriesTaken(x, a);
  }

  /** Off the grid the answer need not be the cheapest: of two entries nearer to each other
      than the tolerance the first one is taken, even when it is the larger one. */
  method CheapestIsMissed() returns (m: Matrix, cost: real, a: seq<int>)
    ensures m == [[1.0 / 9007199254740992.0, 0.0]] && a == [0] && cost == 1.0 / 9007199254740992.0
    ensures Complete(a, 1, 2) && cost == Cost(m, a, 1) && !CheapestUpTo(m, 1, 2, a, 0.0)
  {
    m := [[1.0 / 9007199254740992.0, 0.0]];
    cost, a := Solve(m);
    TwoEntries(1.0 / 9007199254740992.0);
    TwoEntriesTaken(1.0 / 9007199254740992.0, a);
  }
}
