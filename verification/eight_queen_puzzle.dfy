/** The n-queens puzzle by depth-first backtracking over an n x n grid. Queen
    k is written into its cell as the number k; the cells still open to the
    next queen are worked out on a scratch copy of the grid, where every
    attacked square is overwritten with a second sentinel. */
module EightQueenPuzzle {
  import opened ChessBoard

  /** The scratch sentinel of a square some queen attacks. */
  const BLOCKED: int := -2

  /** An exception for a negative size, otherwise the grid. */
  datatype Outcome = Thrown(failure: Failure) | Matrix(grid: array2<int>)

  predicate SharesLine(a: Cell, b: Cell) {
    a.row == b.row || a.column == b.column
  }

  predicate OnDiagonal(a: Cell, b: Cell) {
    a.row - b.row == a.column - b.column || a.row - b.row == b.column - a.column
  }

  /** Queens on `a` and `b` attack each other (a cell attacks itself). */
  predicate Attacks(a: Cell, b: Cell) {
    SharesLine(a, b) || OnDiagonal(a, b)
  }

  /** No two queens of the sequence attack each other. */
  ghost predicate NonAttacking(queens: seq<Cell>) {
    forall a, b :: 0 <= a < b < |queens| ==> !Attacks(queens[a], queens[b])
  }

  /** `c` comes strictly before `d` in row-major order. */
  predicate Before(c: Cell, d: Cell) {
    c.row < d.row || (c.row == d.row && c.column < d.column)
  }

  /** The cells that hold a queen (a value of at least 0) pairwise differ in
      row and in column. */
  ghost predicate NoSharedLines(g: Board) {
    forall i, j, i', j' ::
      (0 <= i < |g| && 0 <= j < |g[i]| && 0 <= i' < |g| && 0 <= j' < |g[i']| &&
       g[i][j] >= 0 && g[i'][j'] >= 0 && (i != i' || j != j')) ==> i != i' && j != j'
  }

  /** `c` is empty and no queen of `g` attacks it. */
  ghost predicate Available(g: Board, c: Cell) {
    InBoard(g, c) && g[c.row][c.column] == EMPTY &&
    forall i, j :: 0 <= i < |g| && 0 <= j < |g[i]| && g[i][j] >= 0 ==> !Attacks(Cell(i, j), c)
  }

  /** A solved n x n grid: the cells holding a number hold every queen 0 to
      n - 1 exactly once, all other cells are empty, and no two queens attack
      each other. */
  ghost predicate IsSolution(g: Board, n: nat) {
    Rect(g, n, n) &&
    (forall k :: 0 <= k < n ==> Holds(g, k)) &&
    (forall i, j :: 0 <= i < n && 0 <= j < n ==> g[i][j] == EMPTY || 0 <= g[i][j] < n) &&
    (forall i, j, i', j' ::
       (0 <= i < n && 0 <= j < n && 0 <= i' < n && 0 <= j' < n &&
        g[i][j] >= 0 && g[i'][j'] >= 0 && (i != i' || j != j')) ==>
       g[i][j] != g[i'][j'] && !Attacks(Cell(i, j), Cell(i', j')))
  }

  /** The value `fillRange` around the queen `q` leaves in cell `c` that held
      `v`: the row and column of `q` are blocked, and so are the empty cells
      on its diagonals. */
  function Blocked(v: int, c: Cell, q: Cell): (r: int)
    ensures r == BLOCKED || r == v
    ensures r == EMPTY <==> v == EMPTY && !Attacks(c, q)
  {
    if SharesLine(c, q) then BLOCKED
    else if OnDiagonal(c, q) && v == EMPTY then BLOCKED
    else v
  }

  /** The value of a cell that held `v` after `fillRange` around each of
      the queens `qs`, in any order: blocked when one of them shares its row
      or column, or when it was empty and one of them sits on its diagonal. */
  ghost function Mask(v: int, c: Cell, qs: set<Cell>): int {
    if exists q :: q in qs && SharesLine(c, q) then BLOCKED
    else if v == EMPTY && exists q :: q in qs && OnDiagonal(c, q) then BLOCKED
    else v
  }

  /** Filling the range of one more queen adds it to the mask. */
  lemma MaskAdd(v: int, c: Cell, qs: set<Cell>, q: Cell)
    ensures Blocked(Mask(v, c, qs), c, q) == Mask(v, c, qs + {q})
  {
  }

  /** The cell (row + t, column + t) for down and right; up and left step
      the other way. */
  predicate OnRay(c: Cell, row: int, column: int, down: bool, right: bool) {
    var t := if down then c.row - row else row - c.row;
    t >= 0 && c.column == (if right then column + t else column - t)
  }

  /** One of the four diagonal loops of `fillRange`: walks from (row, column)
      in one diagonal direction to the edge, blocking the empty cells. */
  method BlockRay(row: int, column: int, down: bool, right: bool, copy: array2<int>)
    requires copy.Length0 == copy.Length1 && 0 <= row < copy.Length0 && 0 <= column < copy.Length1
    modifies copy
    ensures forall x, y :: 0 <= x < copy.Length0 && 0 <= y < copy.Length1 ==>
      copy[x, y] ==
        if OnRay(Cell(x, y), row, column, down, right) && old(copy[x, y]) == EMPTY then BLOCKED
        else old(copy[x, y])
  {
    var n := copy.Length0;
    var i, j := row, column;
    ghost var t := 0;
    while 0 <= i < n && 0 <= j < n
      invariant i == (if down then row + t else row - t)
      invariant j == (if right then column + t else column - t)
      invariant t >= 0
      invariant forall x, y :: 0 <= x < n && 0 <= y < n ==>
        copy[x, y] ==
          if OnRay(Cell(x, y), row, column, down, right) && (if down then x - row else row - x) < t &&
             old(copy[x, y]) == EMPTY
          then BLOCKED
          else old(copy[x, y])
      decreases if down then n - i else i + 1
    {
      if copy[i, j] == EMPTY {
        copy[i, j] := BLOCKED;
      }
      i := if down then i + 1 else i - 1;
      j := if right then j + 1 else j - 1;
      t := t + 1;
    }
  }

  /** Blocks on the scratch grid every square the queen at (row, column)
      attacks: its whole row and column, and the still empty squares of its
      four diagonals. */
  method FillRange(row: int, column: int, copy: array2<int>)
    requires copy.Length0 == copy.Length1 && 0 <= row < copy.Length0 && 0 <= column < copy.Length1
    modifies copy
    ensures forall i, j :: 0 <= i < copy.Length0 && 0 <= j < copy.Length1 ==>
      copy[i, j] == Blocked(old(copy[i, j]), Cell(i, j), Cell(row, column))
  {
    var n := copy.Length0;
    var i := 0;
    while i < n
      invariant 0 <= i <= n
      invariant forall x, y :: 0 <= x < n && 0 <= y < n ==>
        copy[x, y] == if (x == row && y < i) || (y == column && x < i) then BLOCKED else old(copy[x, y])
    {
      copy[row, i] := BLOCKED;
      copy[i, column] := BLOCKED;
      i := i + 1;
    }
    label Lines:
    BlockRay(row, column, true, true, copy);
    BlockRay(row, column, false, false, copy);
    BlockRay(row, column, false, true, copy);
    BlockRay(row, column, true, false, copy);
    forall x, y | 0 <= x < n && 0 <= y < n
      ensures copy[x, y] == Blocked(old(copy[x, y]), Cell(x, y), Cell(row, column))
    {
      var c := Cell(x, y);
      if !SharesLine(c, Cell(row, column)) && OnDiagonal(c, Cell(row, column)) {
        assert OnRay(c, row, column, true, true) || OnRay(c, row, column, false, false) ||
               OnRay(c, row, column, false, true) || OnRay(c, row, column, true, false);
      }
    }
  }

  /** A fresh copy of `m`, row by row. */
  method CopyOf(m: array2<int>) returns (copy: array2<int>)
    ensures fresh(copy) && copy.Length0 == m.Length0 && copy.Length1 == m.Length1
    ensures forall x, y :: 0 <= x < m.Length0 && 0 <= y < m.Length1 ==> copy[x, y] == m[x, y]
  {
    copy := new int[m.Length0, m.Length1];
    var i := 0;
    while i < m.Length0
      invariant 0 <= i <= m.Length0
      invariant forall x, y :: 0 <= x < i && 0 <= y < m.Length1 ==> copy[x, y] == m[x, y]
    {
      var j := 0;
      while j < m.Length1
        invariant 0 <= j <= m.Length1
        invariant forall x, y :: 0 <= x < i && 0 <= y < m.Length1 ==> copy[x, y] == m[x, y]
        invariant forall y :: 0 <= y < j ==> copy[i, y] == m[i, y]
      {
        copy[i, j] := m[i, j];
        j := j + 1;
      }
      i := i + 1;
    }
  }

  /** The scan of the copy in row-major order that fills the range of every
      cell still holding a queen; `done` collects those queens. Every cell of
      the copy ends up negative, since a queen's own row is filled. */
  method FillQueens(m: array2<int>, copy: array2<int>) returns (ghost done: set<Cell>)
    requires copy != m && m.Length0 == m.Length1
    requires copy.Length0 == m.Length0 && copy.Length1 == m.Length1
    requires forall x, y :: 0 <= x < m.Length0 && 0 <= y < m.Length1 ==> copy[x, y] == m[x, y]
    modifies copy
    ensures forall x, y :: 0 <= x < m.Length0 && 0 <= y < m.Length1 ==>
      copy[x, y] == Mask(m[x, y], Cell(x, y), done) && copy[x, y] < 0
    ensures forall q :: q in done ==> 0 <= q.row < m.Length0 && 0 <= q.column < m.Length1 && m[q.row, q.column] >= 0
  {
    done := {};
    var i := 0;
    while i < m.Length0
      invariant 0 <= i <= m.Length0
      invariant forall x, y :: 0 <= x < m.Length0 && 0 <= y < m.Length1 ==>
        copy[x, y] == Mask(m[x, y], Cell(x, y), done) && (x < i ==> copy[x, y] < 0)
      invariant forall q :: q in done ==> 0 <= q.row < m.Length0 && 0 <= q.column < m.Length1 && m[q.row, q.column] >= 0
    {
      done := FillRow(m, copy, i, done);
      i := i + 1;
    }
  }

  /** Row `i` of that scan. */
  method FillRow(m: array2<int>, copy: array2<int>, i: int, ghost done: set<Cell>)
    returns (ghost done': set<Cell>)
    requires copy != m && m.Length0 == m.Length1 && 0 <= i < m.Length0
    requires copy.Length0 == m.Length0 && copy.Length1 == m.Length1
    requires forall x, y :: 0 <= x < m.Length0 && 0 <= y < m.Length1 ==>
      copy[x, y] == Mask(m[x, y], Cell(x, y), done) && (x < i ==> copy[x, y] < 0)
    requires forall q :: q in done ==> 0 <= q.row < m.Length0 && 0 <= q.column < m.Length1 && m[q.row, q.column] >= 0
    modifies copy
    ensures forall x, y :: 0 <= x < m.Length0 && 0 <= y < m.Length1 ==>
      copy[x, y] == Mask(m[x, y], Cell(x, y), done') && (x <= i ==> copy[x, y] < 0)
    ensures forall q :: q in done' ==> 0 <= q.row < m.Length0 && 0 <= q.column < m.Length1 && m[q.row, q.column] >= 0
  {
    done' := done;
    var j := 0;
    while j < m.Length1
      invariant 0 <= j <= m.Length1
      invariant forall x, y :: 0 <= x < m.Length0 && 0 <= y < m.Length1 ==>
        copy[x, y] == Mask(m[x, y], Cell(x, y), done')
      invariant forall x, y :: 0 <= x < m.Length0 && 0 <= y < m.Length1 && Before(Cell(x, y), Cell(i, j)) ==>
        copy[x, y] < 0
      invariant forall q :: q in done' ==> 0 <= q.row < m.Length0 && 0 <= q.column < m.Length1 && m[q.row, q.column] >= 0
    {
      done' := FillAt(m, copy, i, j, done');
      assert forall x, y :: 0 <= x < m.Length0 && 0 <= y < m.Length1 && Before(Cell(x, y), Cell(i, j + 1)) ==>
        Before(Cell(x, y), Cell(i, j)) || (x == i && y == j);
      j := j + 1;
    }
  }

  /** One cell of that scan: when the copy still shows a queen there, its
      range is filled and it joins `done`. */
  method FillAt(m: array2<int>, copy: array2<int>, i: int, j: int, ghost done: set<Cell>)
    returns (ghost done': set<Cell>)
    requires copy != m && m.Length0 == m.Length1 && 0 <= i < m.Length0 && 0 <= j < m.Length1
    requires copy.Length0 == m.Length0 && copy.Length1 == m.Length1
    requires forall x, y :: 0 <= x < m.Length0 && 0 <= y < m.Length1 ==>
      copy[x, y] == Mask(m[x, y], Cell(x, y), done)
    modifies copy
    ensures forall x, y :: 0 <= x < m.Length0 && 0 <= y < m.Length1 ==>
      copy[x, y] == Mask(m[x, y], Cell(x, y), done')
    ensures done' == if old(copy[i, j]) >= 0 then done + {Cell(i, j)} else done
    ensures old(copy[i, j]) >= 0 ==> m[i, j] >= 0
    ensures copy[i, j] < 0
    ensures forall x, y :: 0 <= x < m.Length0 && 0 <= y < m.Length1 && old(copy[x, y]) < 0 ==> copy[x, y] < 0
  {
    done' := done;
    if copy[i, j] >= 0 {
      FillRange(i, j, copy);
      forall x, y | 0 <= x < m.Length0 && 0 <= y < m.Length1
        ensures copy[x, y] == Mask(m[x, y], Cell(x, y), done + {Cell(i, j)})
      {
        MaskAdd(old(copy[x, y]), Cell(x, y), done, Cell(i, j));
      }
      done' := done + {Cell(i, j)};
    }
  }

  /** The cells of `copy` that are still empty, in row-major order. */
  method CollectEmpty(copy: array2<int>) returns (cells: seq<Cell>)
    ensures forall c :: c in cells <==>
      0 <= c.row < copy.Length0 && 0 <= c.column < copy.Length1 && copy[c.row, c.column] == EMPTY
    ensures forall a, b :: 0 <= a < b < |cells| ==> Before(cells[a], cells[b])
  {
    cells := [];
    var i := 0;
    while i < copy.Length0
      invariant 0 <= i <= copy.Length0
      invariant forall c :: c in cells <==>
        0 <= c.row < i && 0 <= c.column < copy.Length1 && copy[c.row, c.column] == EMPTY
      invariant forall a, b :: 0 <= a < b < |cells| ==> Before(cells[a], cells[b])
    {
      var j := 0;
      while j < copy.Length1
        invariant 0 <= j <= copy.Length1
        invariant forall c :: c in cells <==>
          0 <= c.row < copy.Length0 && 0 <= c.column < copy.Length1 && Before(c, Cell(i, j)) &&
          copy[c.row, c.column] == EMPTY
        invariant forall a, b :: 0 <= a < b < |cells| ==> Before(cells[a], cells[b])
      {
        if copy[i, j] == EMPTY {
          cells := cells + [Cell(i, j)];
        }
        j := j + 1;
      }
      i := i + 1;
    }
  }

  /** The empty cells no queen attacks, in row-major order. The grid itself
      is not written: the blocking happens on a fresh copy. */
  method GetAvailableCells(m: array2<int>) returns (cells: seq<Cell>)
    requires m.Length0 == m.Length1
    ensures forall c :: c in cells ==> InBoard(Grid(m), c) && Grid(m)[c.row][c.column] == EMPTY
    ensures forall a, b :: 0 <= a < b < |cells| ==> Before(cells[a], cells[b])
    ensures NoSharedLines(Grid(m)) ==> forall c :: c in cells <==> Available(Grid(m), c)
  {
    var copy := CopyOf(m);
    ghost var done := FillQueens(m, copy);
    cells := CollectEmpty(copy);
    if NoSharedLines(Grid(m)) {
      forall x, y | 0 <= x < m.Length0 && 0 <= y < m.Length1 && m[x, y] >= 0
        ensures Cell(x, y) in done
      {
        var d :| d in done && SharesLine(Cell(x, y), d);
        assert Grid(m)[d.row][d.column] >= 0;
      }
      forall c: Cell
        ensures c in cells <==> Available(Grid(m), c)
      {
      }
    }
  }

  /** Queens recorded by `Marks` and pairwise not attacking pairwise differ
      in row and in column. */
  lemma QueensOnOwnLines(g: Board, queens: seq<Cell>)
    requires Marks(g, queens) && NonAttacking(queens)
    ensures NoSharedLines(g)
  {
    forall i, j, i', j' |
      0 <= i < |g| && 0 <= j < |g[i]| && 0 <= i' < |g| && 0 <= j' < |g[i']| &&
      g[i][j] >= 0 && g[i'][j'] >= 0 && (i != i' || j != j')
      ensures i != i' && j != j'
    {
      var a :| 0 <= a < |queens| && queens[a] == Cell(i, j);
      var b :| 0 <= b < |queens| && queens[b] == Cell(i', j');
      if a > b {
        assert !Attacks(queens[b], queens[a]);
      }
    }
  }

  /** One more queen that no earlier queen attacks keeps the placement
      non-attacking. */
  lemma ExtendPlacement(placed: seq<Cell>, cell: Cell)
    requires NonAttacking(placed)
    requires forall k :: 0 <= k < |placed| ==> !Attacks(placed[k], cell)
    ensures NonAttacking(placed + [cell])
  {
  }

  /** Places `queen` on `cell`, having placed `placed` so far. Succeeds at
      once with the last queen; otherwise tries the available cells for the
      next queen and on failure resets the cell, leaving the grid as it was. */
  method Move(cell: Cell, queen: int, m: array2<int>, ghost placed: seq<Cell>)
    returns (result: bool, ghost queens: seq<Cell>)
    requires m.Length0 == m.Length1
    requires Marks(Grid(m), placed) && NonAttacking(placed) && queen == |placed|
    requires InBoard(Grid(m), cell) && m[cell.row, cell.column] == EMPTY
    requires forall k :: 0 <= k < |placed| ==> !Attacks(placed[k], cell)
    modifies m
    ensures queen == m.Length0 - 1 ==> result && queens == placed + [cell]
    ensures !result ==> Grid(m) == old(Grid(m))
    ensures result ==>
      |placed| < |queens| == m.Length0 && queens[..|placed| + 1] == placed + [cell] &&
      Marks(Grid(m), queens) && NonAttacking(queens)
    decreases |EmptyCells(Grid(m))|, 1
  {
    ghost var before := Grid(m);
    ghost var visited := placed + [cell];
    Place(m, cell, queen);
    WriteStep(before, placed, cell);
    assert cell in EmptyCells(before);
    ExtendPlacement(placed, cell);
    if queen == m.Length0 - 1 {
      assert visited[..|placed| + 1] == visited;
      return true, visited;
    }
    QueensOnOwnLines(Grid(m), visited);
    var availableCells := GetAvailableCells(m);
    result, queens := TryCells(availableCells, m, queen + 1, visited);
    if result {
      assert queens[..|placed| + 1] == queens[..|visited|][..|placed| + 1];
      return;
    }
    Place(m, cell, EMPTY);
    PutBack(before, cell, queen);
  }

  /** The loop over the available cells for queen number `queen`, shared by
      `calc` and `move`: tries each in turn and stops at the first success. */
  method TryCells(cells: seq<Cell>, m: array2<int>, queen: int, ghost placed: seq<Cell>)
    returns (result: bool, ghost queens: seq<Cell>)
    requires m.Length0 == m.Length1
    requires Marks(Grid(m), placed) && NonAttacking(placed) && queen == |placed|
    requires forall c :: c in cells ==>
      InBoard(Grid(m), c) && Grid(m)[c.row][c.column] == EMPTY &&
      forall k :: 0 <= k < |placed| ==> !Attacks(placed[k], c)
    modifies m
    ensures !result ==> Grid(m) == old(Grid(m))
    ensures result ==>
      |placed| < |queens| == m.Length0 && queens[..|placed|] == placed &&
      Marks(Grid(m), queens) && NonAttacking(queens)
    ensures queen == m.Length0 - 1 && cells != [] ==> result
    decreases |EmptyCells(Grid(m))| + 1, 0
  {
    ghost var start := Grid(m);
    var k := 0;
    while k < |cells|
      invariant 0 <= k <= |cells|
      invariant Grid(m) == start
      invariant queen == m.Length0 - 1 ==> k == 0
    {
      var next := cells[k];
      assert next in cells;
      var done;
      done, queens := Move(next, queen, m, placed);
      if done {
        assert queens[..|placed|] == queens[..|placed| + 1][..|placed|];
        return true, queens;
      }
      k := k + 1;
    }
    return false, [];
  }

  /** n queens recorded by `Marks` that pairwise do not attack solve the puzzle. */
  lemma PlacementIsSolution(g: Board, n: nat, queens: seq<Cell>)
    requires Rect(g, n, n) && Marks(g, queens) && NonAttacking(queens) && |queens| == n
    ensures IsSolution(g, n)
  {
    forall k | 0 <= k < n
      ensures Holds(g, k)
    {
      assert g[queens[k].row][queens[k].column] == k;
    }
    forall i, j, i', j' |
      0 <= i < n && 0 <= j < n && 0 <= i' < n && 0 <= j' < n &&
      g[i][j] >= 0 && g[i'][j'] >= 0 && (i != i' || j != j')
      ensures g[i][j] != g[i'][j'] && !Attacks(Cell(i, j), Cell(i', j'))
    {
      var a :| 0 <= a < |queens| && queens[a] == Cell(i, j);
      var b :| 0 <= b < |queens| && queens[b] == Cell(i', j');
      if a > b {
        assert !Attacks(queens[b], queens[a]);
      }
    }
    forall i, j | 0 <= i < n && 0 <= j < n
      ensures g[i][j] == EMPTY || 0 <= g[i][j] < n
    {
      if Cell(i, j) in queens {
        var a :| 0 <= a < |queens| && queens[a] == Cell(i, j);
      }
    }
  }

  /** Builds the size x size grid, fills it with the sentinel and tries every
      available cell for the first queen until one leads to a solution. */
  method Calc(size: int) returns (r: Outcome)
    ensures r == Thrown(NegativeArraySize) <==> size < 0
    ensures size >= 0 ==> r.Matrix?
    ensures r.Matrix? ==>
      fresh(r.grid) && r.grid.Length0 == size && r.grid.Length1 == size &&
      (IsSolution(Grid(r.grid), size) || AllEmpty(Grid(r.grid)))
    ensures size == 1 ==> r.Matrix? && IsSolution(Grid(r.grid), 1)
  {
    if size < 0 {
      return Thrown(NegativeArraySize);
    }
    var matrix := new int[size, size];
    FeedMatrix(matrix, EMPTY);
    var queen := 0;
    var availableCells := GetAvailableCells(matrix);
    if size == 1 {
      assert Available(Grid(matrix), Cell(0, 0));
      assert Cell(0, 0) in availableCells;
    }
    var result, queens := TryCells(availableCells, matrix, queen, []);
    if result {
      PlacementIsSolution(Grid(matrix), size, queens);
    } else {
      assert AllEmpty(Grid(matrix));
    }
    return Matrix(matrix);
  }

  /** Any two squares of a 2 x 2 board attack each other. */
  lemma TwoSquaresAttack(a: Cell, b: Cell)
    requires 0 <= a.row < 2 && 0 <= a.column < 2 && 0 <= b.row < 2 && 0 <= b.column < 2
    ensures Attacks(a, b)
  {
  }

  /** Two queens never fit on a 2 x 2 board. */
  lemma NoSolutionOfSizeTwo(g: Board)
    ensures !IsSolution(g, 2)
  {
    if IsSolution(g, 2) {
      assert Holds(g, 0) && Holds(g, 1);
      var i, j :| 0 <= i < |g| && 0 <= j < |g[i]| && g[i][j] == 0;
      var i', j' :| 0 <= i' < |g| && 0 <= j' < |g[i']| && g[i'][j'] == 1;
      TwoSquaresAttack(Cell(i, j), Cell(i', j'));
    }
  }

  /** Among any three squares of a 3 x 3 board two attack each other. */
  lemma ThreeSquaresAttack(a: Cell, b: Cell, c: Cell)
    requires 0 <= a.row < 3 && 0 <= a.column < 3 && 0 <= b.row < 3 && 0 <= b.column < 3
    requires 0 <= c.row < 3 && 0 <= c.column < 3
    ensures Attacks(a, b) || Attacks(a, c) || Attacks(b, c)
  {
  }

  /** Three queens never fit on a 3 x 3 board. */
  lemma NoSolutionOfSizeThree(g: Board)
    ensures !IsSolution(g, 3)
  {
    if IsSolution(g, 3) {
      assert Holds(g, 0) && Holds(g, 1) && Holds(g, 2);
      var i0, j0 :| 0 <= i0 < |g| && 0 <= j0 < |g[i0]| && g[i0][j0] == 0;
      var i1, j1 :| 0 <= i1 < |g| && 0 <= j1 < |g[i1]| && g[i1][j1] == 1;
      var i2, j2 :| 0 <= i2 < |g| && 0 <= j2 < |g[i2]| && g[i2][j2] == 2;
      ThreeSquaresAttack(Cell(i0, j0), Cell(i1, j1), Cell(i2, j2));
    }
  }
}
