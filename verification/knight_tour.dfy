/** Knight's tour by depth-first backtracking over a rows x columns grid.
    Each visited cell holds the step at which the knight reached it; a cell
    whose every continuation fails is reset to the sentinel on the way back. */
module KnightTour {
  import opened ChessBoard

  /** `null` for a start outside the board, an exception otherwise. */
  datatype Outcome = Null | Thrown(failure: Failure) | Matrix(grid: array2<int>)

  /** `b` is one knight move away from `a`. */
  predicate KnightMove(a: Cell, b: Cell) {
    var dr, dc := b.row - a.row, b.column - a.column;
    ((dr == 1 || dr == -1) && (dc == 2 || dc == -2)) ||
    ((dr == 2 || dr == -2) && (dc == 1 || dc == -1))
  }

  /** The eight knight targets of `c`, in the order the search tries them. */
  function KnightTargets(c: Cell): seq<Cell> {
    [Cell(c.row - 1, c.column + 2), Cell(c.row - 2, c.column + 1),
     Cell(c.row - 2, c.column - 1), Cell(c.row - 1, c.column - 2),
     Cell(c.row + 1, c.column + 2), Cell(c.row + 2, c.column + 1),
     Cell(c.row + 2, c.column - 1), Cell(c.row + 1, c.column - 2)]
  }

  /** A target the knight may still jump to: on the board and not yet visited. */
  predicate IsCandidate(row: int, column: int, m: array2<int>): (b: bool)
    reads m
    ensures b <==> InBoard(Grid(m), Cell(row, column)) && Grid(m)[row][column] == EMPTY
  {
    if row < 0 || column < 0 || row >= m.Length0 || column >= m.Length1 then false
    else m[row, column] == EMPTY
  }

  /** The candidates among `targets`, in their order. */
  function Candidates(targets: seq<Cell>, m: array2<int>): (r: seq<Cell>)
    reads m
    ensures |r| <= |targets|
    ensures forall c :: c in r ==> c in targets && IsCandidate(c.row, c.column, m)
  {
    if targets == [] then []
    else
      var rest := Candidates(targets[1..], m);
      if IsCandidate(targets[0].row, targets[0].column, m) then [targets[0]] + rest else rest
  }

  /** A knight path on a rows x columns board: distinct cells of the board,
      each one knight move after the previous. */
  ghost predicate IsPath(rows: int, columns: int, path: seq<Cell>) {
    Distinct(path) &&
    (forall k :: 0 <= k < |path| ==> 0 <= path[k].row < rows && 0 <= path[k].column < columns) &&
    (forall k :: 0 <= k < |path| - 1 ==> KnightMove(path[k], path[k + 1]))
  }

  /** A finished rows x columns tour: the cells hold every step from 0 to
      rows * columns - 1 exactly once, and the cells holding k and k + 1 are a
      knight move apart. */
  ghost predicate IsKnightTour(g: Board, rows: nat, columns: nat) {
    Rect(g, rows, columns) &&
    (forall i, j :: 0 <= i < rows && 0 <= j < columns ==> 0 <= g[i][j] < rows * columns) &&
    (forall k :: 0 <= k < rows * columns ==> Holds(g, k)) &&
    (forall i, j, i', j' ::
       (0 <= i < rows && 0 <= j < columns && 0 <= i' < rows && 0 <= j' < columns &&
        g[i][j] == g[i'][j']) ==> i == i' && j == j') &&
    (forall i, j, i', j' ::
       (0 <= i < rows && 0 <= j < columns && 0 <= i' < rows && 0 <= j' < columns &&
        g[i'][j'] == g[i][j] + 1) ==> KnightMove(Cell(i, j), Cell(i', j')))
  }

  /** Scans the grid for an empty cell. */
  method IsFull(m: array2<int>) returns (full: bool)
    ensures full <==> Full(Grid(m))
  {
    var i := 0;
    while i < m.Length0
      invariant 0 <= i <= m.Length0
      invariant forall a, b :: 0 <= a < i && 0 <= b < m.Length1 ==> m[a, b] != EMPTY
    {
      var j := 0;
      while j < m.Length1
        invariant 0 <= j <= m.Length1
        invariant forall b :: 0 <= b < j ==> m[i, b] != EMPTY
      {
        if m[i, j] == EMPTY {
          return false;
        }
        j := j + 1;
      }
      i := i + 1;
    }
    return true;
  }

  /** The unvisited in-bounds knight targets of `cell`, in the fixed offset order. */
  method GetAvailableMoves(cell: Cell, m: array2<int>) returns (moves: seq<Cell>)
    ensures moves == Candidates(KnightTargets(cell), m)
    ensures |moves| <= 8
    ensures forall c :: c in moves <==>
      KnightMove(cell, c) && InBoard(Grid(m), c) && Grid(m)[c.row][c.column] == EMPTY
  {
    var targets := KnightTargets(cell);
    moves := KeepCandidates(targets, m);
    CandidatesMembership(targets, m);
    KnightTargetsAreKnightMoves(cell);
  }

  /** The eight `isCandidate` tests of `getAvailableMoves`, one per target in
      turn, adding each target that passes. */
  method KeepCandidates(targets: seq<Cell>, m: array2<int>) returns (moves: seq<Cell>)
    ensures moves == Candidates(targets, m)
  {
    moves := [];
    var k := 0;
    while k < |targets|
      invariant 0 <= k <= |targets|
      invariant moves + Candidates(targets[k..], m) == Candidates(targets, m)
    {
      var row, column := targets[k].row, targets[k].column;
      CandidatesStep(targets, k, m);
      ghost var rest := Candidates(targets[k + 1..], m);
      if IsCandidate(row, column, m) {
        assert moves + Candidates(targets[k..], m) == (moves + [targets[k]]) + rest;
        moves := moves + [Cell(row, column)];
      }
      k := k + 1;
    }
  }

  /** Scanning the targets from position `k` first decides on `targets[k]`. */
  lemma CandidatesStep(targets: seq<Cell>, k: int, m: array2<int>)
    requires 0 <= k < |targets|
    ensures Candidates(targets[k..], m) ==
      (if IsCandidate(targets[k].row, targets[k].column, m) then [targets[k]] else []) +
      Candidates(targets[k + 1..], m)
  {
    assert targets[k..][1..] == targets[k + 1..];
  }

  /** The candidates are exactly the targets that are on the board and empty. */
  lemma {:induction false} CandidatesMembership(targets: seq<Cell>, m: array2<int>)
    ensures |Candidates(targets, m)| <= |targets|
    ensures forall c :: c in Candidates(targets, m) <==>
      c in targets && InBoard(Grid(m), c) && Grid(m)[c.row][c.column] == EMPTY
  {
    if targets != [] {
      CandidatesMembership(targets[1..], m);
      assert targets == [targets[0]] + targets[1..];
    }
  }

  /** The eight offsets are exactly the knight moves. */
  lemma KnightTargetsAreKnightMoves(cell: Cell)
    ensures forall c :: c in KnightTargets(cell) <==> KnightMove(cell, c)
  {
    forall c | KnightMove(cell, c)
      ensures c in KnightTargets(cell)
    {
      var dr, dc := c.row - cell.row, c.column - cell.column;
      var t := KnightTargets(cell);
      if dr == -1 && dc == 2 { assert c == t[0]; }
      else if dr == -2 && dc == 1 { assert c == t[1]; }
      else if dr == -2 && dc == -1 { assert c == t[2]; }
      else if dr == -1 && dc == -2 { assert c == t[3]; }
      else if dr == 1 && dc == 2 { assert c == t[4]; }
      else if dr == 2 && dc == 1 { assert c == t[5]; }
      else if dr == 2 && dc == -1 { assert c == t[6]; }
      else { assert c == t[7]; }
    }
  }

  /** One step of the search: the knight lands on `cell` at `step`, having
      followed `path` so far. On failure the cell is reset and the grid is as
      it was; on success the grid holds a full tour extending `path`. */
  method MoveTo(cell: Cell, m: array2<int>, step: int, ghost path: seq<Cell>)
    returns (finished: bool, ghost tour: seq<Cell>)
    requires IsPath(m.Length0, m.Length1, path) && Marks(Grid(m), path) && step == |path|
    requires InBoard(Grid(m), cell) && m[cell.row, cell.column] == EMPTY
    requires path != [] ==> KnightMove(path[|path| - 1], cell)
    modifies m
    ensures Full(Put(old(Grid(m)), cell, step)) ==> finished && tour == path + [cell]
    ensures !finished ==> Grid(m) == old(Grid(m))
    ensures finished ==>
      |path| < |tour| && tour[..|path| + 1] == path + [cell] &&
      IsPath(m.Length0, m.Length1, tour) && Marks(Grid(m), tour) && Full(Grid(m))
    decreases |EmptyCells(Grid(m))|, 1
  {
    ghost var before := Grid(m);
    ghost var visited := path + [cell];
    Place(m, cell, step);
    WriteStep(before, path, cell);
    assert cell in EmptyCells(before);
    ExtendPath(m.Length0, m.Length1, path, cell);
    var full := IsFull(m);
    if full {
      assert visited[..|path| + 1] == visited;
      return true, visited;
    }
    assert !Full(Put(before, cell, step));
    var moves := GetAvailableMoves(cell, m);
    finished, tour := TryMoves(moves, m, step + 1, visited);
    if finished {
      assert tour[..|path| + 1] == tour[..|visited|][..|path| + 1];
      return;
    }
    Place(m, cell, EMPTY);
    PutBack(before, cell, step);
  }

  /** The loop over the available moves of the last cell of `path`: tries
      each in turn and stops at the first that completes a tour. */
  method TryMoves(moves: seq<Cell>, m: array2<int>, step: int, ghost path: seq<Cell>)
    returns (finished: bool, ghost tour: seq<Cell>)
    requires IsPath(m.Length0, m.Length1, path) && Marks(Grid(m), path) && step == |path| && path != []
    requires forall c :: c in moves ==>
      KnightMove(path[|path| - 1], c) && InBoard(Grid(m), c) && Grid(m)[c.row][c.column] == EMPTY
    modifies m
    ensures !finished ==> Grid(m) == old(Grid(m))
    ensures finished ==>
      |path| < |tour| && tour[..|path|] == path &&
      IsPath(m.Length0, m.Length1, tour) && Marks(Grid(m), tour) && Full(Grid(m))
    decreases |EmptyCells(Grid(m))| + 1, 0
  {
    ghost var start := Grid(m);
    var k := 0;
    while k < |moves|
      invariant 0 <= k <= |moves|
      invariant Grid(m) == start
    {
      var next := moves[k];
      assert next in moves;
      var done;
      done, tour := MoveTo(next, m, step, path);
      if done {
        assert tour[..|path|] == tour[..|path| + 1][..|path|];
        return true, tour;
      }
      k := k + 1;
    }
    return false, [];
  }

  /** A knight move to a fresh cell of the board extends a knight path. */
  lemma ExtendPath(rows: int, columns: int, path: seq<Cell>, cell: Cell)
    requires IsPath(rows, columns, path) && cell !in path
    requires 0 <= cell.row < rows && 0 <= cell.column < columns
    requires path != [] ==> KnightMove(path[|path| - 1], cell)
    ensures IsPath(rows, columns, path + [cell])
  {
  }

  /** A path that visits every cell, recorded in the grid, is a knight's tour. */
  lemma TourIsKnightTour(g: Board, rows: nat, columns: nat, tour: seq<Cell>)
    requires Rect(g, rows, columns)
    requires IsPath(rows, columns, tour) && Marks(g, tour) && Full(g)
    ensures IsKnightTour(g, rows, columns)
  {
    forall i, j | 0 <= i < rows && 0 <= j < columns
      ensures Cell(i, j) in tour
    {
    }
    PathLength(rows, columns, tour);
    forall i, j | 0 <= i < rows && 0 <= j < columns
      ensures 0 <= g[i][j] < rows * columns
    {
      var k :| 0 <= k < |tour| && tour[k] == Cell(i, j);
    }
    forall k | 0 <= k < rows * columns
      ensures Holds(g, k)
    {
      assert g[tour[k].row][tour[k].column] == k;
    }
    forall i, j, i', j' |
      0 <= i < rows && 0 <= j < columns && 0 <= i' < rows && 0 <= j' < columns &&
      g[i'][j'] == g[i][j] + 1
      ensures KnightMove(Cell(i, j), Cell(i', j'))
    {
      var k :| 0 <= k < |tour| && tour[k] == Cell(i, j);
      var k' :| 0 <= k' < |tour| && tour[k'] == Cell(i', j');
      assert k' == k + 1;
    }
    forall i, j, i', j' |
      0 <= i < rows && 0 <= j < columns && 0 <= i' < rows && 0 <= j' < columns &&
      g[i][j] == g[i'][j']
      ensures i == i' && j == j'
    {
      var k :| 0 <= k < |tour| && tour[k] == Cell(i, j);
      var k' :| 0 <= k' < |tour| && tour[k'] == Cell(i', j');
      assert k == k';
    }
  }

  /** Builds the grid, fills it with the sentinel and searches from (row, column). */
  method Calc(rows: int, columns: int, row: int, column: int) returns (r: Outcome)
    ensures r.Null? <==> row >= rows || column >= columns
    ensures r == Thrown(NegativeArraySize) <==> row < rows && column < columns && (rows < 0 || columns < 0)
    ensures r == Thrown(IndexOutOfBounds) <==>
      row < rows && column < columns && 0 <= rows && 0 <= columns && (row < 0 || column < 0)
    ensures r.Matrix? ==>
      fresh(r.grid) && r.grid.Length0 == rows && r.grid.Length1 == columns &&
      ((IsKnightTour(Grid(r.grid), rows, columns) && r.grid[row, column] == 0) || AllEmpty(Grid(r.grid)))
  {
    if row >= rows || column >= columns {
      return Null;
    }
    if rows < 0 || columns < 0 {
      return Thrown(NegativeArraySize);
    }
    var matrix := new int[rows, columns];
    FeedMatrix(matrix, EMPTY);
    if row < 0 || column < 0 {
      return Thrown(IndexOutOfBounds);
    }
    var step := 0;
    var finished, tour := MoveTo(Cell(row, column), matrix, step, []);
    if finished {
      TourIsKnightTour(Grid(matrix), rows, columns, tour);
      assert tour[0] == Cell(row, column);
    } else {
      assert AllEmpty(Grid(matrix));
    }
    return Matrix(matrix);
  }
}
