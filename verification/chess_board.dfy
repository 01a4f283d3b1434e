/** Shared primitives of the two board backtrackers: the Cell coordinate pair,
    filling a grid with one value, and the vocabulary both searches use to
    describe a grid's contents as a value (which cells are empty, which cells
    hold which step). */
module ChessBoard {

  /** The sentinel of an empty square. */
  const EMPTY: int := -1

  /** An immutable (row, column) coordinate. */
  datatype Cell = Cell(row: int, column: int)

  /** The exceptions the JVM raises while building or indexing a grid. */
  datatype Failure = NegativeArraySize | IndexOutOfBounds

  /** The contents of a grid as a value: one sequence per row. */
  type Board = seq<seq<int>>

  /** The contents of `m`. */
  ghost function Grid(m: array2<int>): (g: Board)
    reads m
    ensures |g| == m.Length0
    ensures forall i :: 0 <= i < m.Length0 ==> |g[i]| == m.Length1
    ensures forall i, j :: 0 <= i < m.Length0 && 0 <= j < m.Length1 ==> g[i][j] == m[i, j]
  {
    seq(m.Length0, i requires 0 <= i < m.Length0 reads m =>
      seq(m.Length1, j requires 0 <= j < m.Length1 reads m => m[i, j]))
  }

  predicate InBoard(g: Board, c: Cell) {
    0 <= c.row < |g| && 0 <= c.column < |g[c.row]|
  }

  /** `g` with `v` written into cell `c`. */
  ghost function Put(g: Board, c: Cell, v: int): Board
    requires InBoard(g, c)
  {
    g[c.row := g[c.row][c.column := v]]
  }

  /** Writing back the value a cell had restores the board. */
  lemma PutBack(g: Board, c: Cell, v: int)
    requires InBoard(g, c)
    ensures Put(Put(g, c, v), c, g[c.row][c.column]) == g
  {
    assert Put(Put(g, c, v), c, g[c.row][c.column])[c.row] == g[c.row];
  }

  /** Writes `v` into cell `c` of `m`. */
  method Place(m: array2<int>, c: Cell, v: int)
    requires InBoard(Grid(m), c)
    modifies m
    ensures Grid(m) == Put(old(Grid(m)), c, v)
  {
    m[c.row, c.column] := v;
    forall i | 0 <= i < m.Length0
      ensures Grid(m)[i] == Put(old(Grid(m)), c, v)[i]
    {
    }
  }

  /** Writes `value` into every cell of `m`; the shape of `m` cannot change. */
  method FeedMatrix(m: array2<int>, value: int)
    modifies m
    ensures forall i, j :: 0 <= i < m.Length0 && 0 <= j < m.Length1 ==> m[i, j] == value
  {
    var i := 0;
    while i < m.Length0
      invariant 0 <= i <= m.Length0
      invariant forall a, b :: 0 <= a < i && 0 <= b < m.Length1 ==> m[a, b] == value
    {
      var j := 0;
      while j < m.Length1
        invariant 0 <= j <= m.Length1
        invariant forall a, b :: 0 <= a < i && 0 <= b < m.Length1 ==> m[a, b] == value
        invariant forall b :: 0 <= b < j ==> m[i, b] == value
      {
        m[i, j] := value;
        j := j + 1;
      }
      i := i + 1;
    }
  }

  ghost predicate Rect(g: Board, rows: nat, columns: nat) {
    |g| == rows && forall i :: 0 <= i < rows ==> |g[i]| == columns
  }

  /** Some cell of `g` holds `k`. */
  ghost predicate Holds(g: Board, k: int) {
    exists i, j :: 0 <= i < |g| && 0 <= j < |g[i]| && g[i][j] == k
  }

  /** Every cell is the sentinel. */
  ghost predicate AllEmpty(g: Board) {
    forall i, j :: 0 <= i < |g| && 0 <= j < |g[i]| ==> g[i][j] == EMPTY
  }

  /** No cell is the sentinel. */
  ghost predicate Full(g: Board) {
    forall i, j :: 0 <= i < |g| && 0 <= j < |g[i]| ==> g[i][j] != EMPTY
  }

  /** The empty cells; their number is the termination measure of both searches. */
  ghost function EmptyCells(g: Board): set<Cell> {
    set i, j | 0 <= i < |g| && 0 <= j < |g[i]| && g[i][j] == EMPTY :: Cell(i, j)
  }

  /** The set of all cells of a rows x columns board. */
  ghost function AllCells(rows: nat, columns: nat): set<Cell> {
    set i, j | 0 <= i < rows && 0 <= j < columns :: Cell(i, j)
  }

  ghost predicate Distinct(path: seq<Cell>) {
    forall a, b :: 0 <= a < b < |path| ==> path[a] != path[b]
  }

  /** `g` records exactly the placements of `path`: the k-th cell of `path`
      holds k, and every cell not on `path` is empty. */
  ghost predicate Marks(g: Board, path: seq<Cell>) {
    (forall k :: 0 <= k < |path| ==> InBoard(g, path[k]) && g[path[k].row][path[k].column] == k) &&
    (forall i, j :: 0 <= i < |g| && 0 <= j < |g[i]| && Cell(i, j) !in path ==> g[i][j] == EMPTY)
  }

  /** Placing step |path| on an empty cell extends the recorded path by that
      cell, keeps the path free of repeats, and removes exactly that cell from
      the empty ones. */
  lemma WriteStep(g: Board, path: seq<Cell>, cell: Cell)
    requires Marks(g, path) && InBoard(g, cell) && g[cell.row][cell.column] == EMPTY
    ensures cell !in path
    ensures Marks(Put(g, cell, |path|), path + [cell])
    ensures EmptyCells(Put(g, cell, |path|)) == EmptyCells(g) - {cell}
  {
    var g' := Put(g, cell, |path|);
    var path' := path + [cell];
    forall k | 0 <= k < |path'|
      ensures InBoard(g', path'[k]) && g'[path'[k].row][path'[k].column] == k
    {
      if k < |path| {
        assert path'[k] == path[k] != cell;
      }
    }
  }

  /** A sequence of distinct cells has as many elements as its set. */
  lemma {:induction false} DistinctCard(path: seq<Cell>)
    requires Distinct(path)
    ensures |set c | c in path| == |path|
  {
    if path != [] {
      var init := path[..|path| - 1];
      DistinctCard(init);
      assert (set c | c in path) == (set c | c in init) + {path[|path| - 1]};
      assert path[|path| - 1] !in init;
    }
  }

  ghost function RowCells(i: int, columns: nat): set<Cell> {
    set j | 0 <= j < columns :: Cell(i, j)
  }

  lemma {:induction false} RowCard(i: int, columns: nat)
    ensures |RowCells(i, columns)| == columns
  {
    if columns > 0 {
      RowCard(i, columns - 1);
      assert RowCells(i, columns) == RowCells(i, columns - 1) + {Cell(i, columns - 1)};
    }
  }

  /** A rows x columns board has rows * columns cells. */
  lemma {:induction false} AllCellsCard(rows: nat, columns: nat)
    ensures |AllCells(rows, columns)| == rows * columns
  {
    if rows > 0 {
      AllCellsCard(rows - 1, columns);
      RowCard(rows - 1, columns);
      var row := RowCells(rows - 1, columns);
      var above := AllCells(rows - 1, columns);
      assert AllCells(rows, columns) == above + row by {
        forall c | c in AllCells(rows, columns)
          ensures c in above + row
        {
          if c.row < rows - 1 {
            assert c in above;
          } else {
            assert c in row;
          }
        }
      }
      assert above !! row by {
        forall c | c in row
          ensures c !in above
        {
        }
      }
      assert |above + row| == |above| + |row|;
      assert rows * columns == (rows - 1) * columns + columns;
    }
  }

  /** A sequence of distinct cells of a rows x columns board is at most
      rows * columns long, and exactly that long when it visits every cell. */
  lemma PathLength(rows: nat, columns: nat, path: seq<Cell>)
    requires Distinct(path)
    requires forall k :: 0 <= k < |path| ==> 0 <= path[k].row < rows && 0 <= path[k].column < columns
    ensures |path| <= rows * columns
    ensures (forall i, j :: 0 <= i < rows && 0 <= j < columns ==> Cell(i, j) in path)
            ==> |path| == rows * columns
  {
    var visited := set c | c in path;
    var all := AllCells(rows, columns);
    DistinctCard(path);
    AllCellsCard(rows, columns);
    assert visited <= all;
    assert |all| == |visited| + |all - visited|;
    if forall i, j :: 0 <= i < rows && 0 <= j < columns ==> Cell(i, j) in path {
      assert all <= visited;
    }
  }
}
