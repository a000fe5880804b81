/**
  The GameBoard class of main.js: a grid of cells with fixed dimensions,
  construction, cell access, a value copy and the enumeration of empty cells.
 */
module Board {
  import opened Shuffling

  /** A cell; the source stores 0 (empty), 1 (the human) and 2 (the computer). */
  datatype Cell = Empty | Player | Opponent

  /** A (row, column) coordinate. */
  datatype Move = Move(row: int, col: int)

  /** The dimensions given at construction (`grid` in the source) and the
      cells, row by row (`_board`). */
  datatype GameBoard = GameBoard(rows: int, cols: int, cells: seq<seq<Cell>>)

  /** `cells` has `rows` rows of `cols` cells each. */
  predicate Shaped(cells: seq<seq<Cell>>, rows: int, cols: int)
  {
    |cells| == rows && forall r :: 0 <= r < |cells| ==> |cells[r]| == cols
  }

  /** A created board: positive dimensions and a grid of exactly that shape. */
  predicate Valid(g: GameBoard)
  {
    g.rows > 0 && g.cols > 0 && Shaped(g.cells, g.rows, g.cols)
  }

  predicate InBounds(g: GameBoard, m: Move)
  {
    0 <= m.row < g.rows && 0 <= m.col < g.cols
  }

  predicate IsEmptyAt(g: GameBoard, m: Move)
    requires Valid(g)
  {
    InBounds(g, m) && g.cells[m.row][m.col] == Empty
  }

  function EmptyRow(n: nat): (row: seq<Cell>)
    ensures |row| == n
    ensures forall j :: 0 <= j < n ==> row[j] == Empty
  {
    if n == 0 then [] else EmptyRow(n - 1) + [Empty]
  }

  function EmptyRows(count: nat, cols: nat): (rows: seq<seq<Cell>>)
    ensures Shaped(rows, count, cols)
    ensures forall i, j :: 0 <= i < count && 0 <= j < cols ==> rows[i][j] == Empty
  {
    if count == 0 then [] else EmptyRows(count - 1, cols) + [EmptyRow(cols)]
  }

  /** `new GameBoard(rows, cols)` followed by `createBoard()`. */
  function CreateBoard(rows: nat, cols: nat): (g: GameBoard)
    ensures g.rows == rows && g.cols == cols
    ensures Shaped(g.cells, rows, cols)
    ensures rows > 0 && cols > 0 ==> Valid(g)
    ensures forall i, j :: 0 <= i < rows && 0 <= j < cols ==> g.cells[i][j] == Empty
  {
    GameBoard(rows, cols, EmptyRows(rows, cols))
  }

  /** `get(i, j)`: the stored cell, which is Empty exactly when (i, j) is
      one of the cells `zeroes` lists. */
  function Get(g: GameBoard, i: int, j: int): (c: Cell)
    requires Valid(g) && InBounds(g, Move(i, j))
    ensures c == Empty <==> IsEmptyAt(g, Move(i, j))
  {
    g.cells[i][j]
  }

  /** h is g with the cell at m set to v and every other cell, and the
      dimensions, as they were. */
  predicate Changes(g: GameBoard, h: GameBoard, m: Move, v: Cell)
    requires Valid(g) && InBounds(g, m)
  {
    && Valid(h) && h.rows == g.rows && h.cols == g.cols
    && h.cells[m.row][m.col] == v
    && forall r, c :: 0 <= r < g.rows && 0 <= c < g.cols && (r != m.row || c != m.col) ==>
         h.cells[r][c] == g.cells[r][c]
  }

  /** Writes one cell; the result is the board the source holds after the
      assignment. */
  function Set(g: GameBoard, i: int, j: int, v: Cell): (h: GameBoard)
    requires Valid(g) && InBounds(g, Move(i, j))
    ensures Changes(g, h, Move(i, j), v)
  {
    g.(cells := g.cells[i := g.cells[i][j := v]])
  }

  /** Each row copied with a slice, as `copy` does. */
  function CopyRows(cells: seq<seq<Cell>>): (copy: seq<seq<Cell>>)
    ensures copy == cells
  {
    if |cells| == 0 then [] else [cells[0][..]] + CopyRows(cells[1..])
  }

  /** A fresh board with the same dimensions and the same cells. */
  function Copy(g: GameBoard): (h: GameBoard)
    ensures h == g
  {
    GameBoard(g.rows, g.cols, CopyRows(g.cells))
  }

  /** Writing into a copy leaves the original as it was. */
  lemma SetOnCopyLeavesOriginal(g: GameBoard, i: int, j: int, v: Cell)
    requires Valid(g) && InBounds(g, Move(i, j))
    ensures var h := Set(Copy(g), i, j, v);
            Get(h, i, j) == v && g == Copy(g) &&
            (Get(g, i, j) != v ==> h != g)
  {
    var h := Set(Copy(g), i, j, v);
    if Get(g, i, j) != v {
      assert Get(h, i, j) != Get(g, i, j);
    }
  }

  /** The empty cells of row i from column j on, left to right. */
  function EmptyInRow(row: seq<Cell>, i: int, j: nat): (ms: seq<Move>)
    requires j <= |row|
    ensures forall m :: multiset(ms)[m] ==
              (if m.row == i && j <= m.col < |row| && row[m.col] == Empty then 1 else 0)
    decreases |row| - j
  {
    if j == |row| then []
    else (if row[j] == Empty then [Move(i, j)] else []) + EmptyInRow(row, i, j + 1)
  }

  /** The empty cells of rows i.. in row-major order. */
  function EmptyFrom(g: GameBoard, i: int): (ms: seq<Move>)
    requires Valid(g) && 0 <= i <= g.rows
    ensures forall m :: multiset(ms)[m] ==
              (if i <= m.row && IsEmptyAt(g, m) then 1 else 0)
    decreases g.rows - i
  {
    if i == g.rows then []
    else EmptyInRow(g.cells[i], i, 0) + EmptyFrom(g, i + 1)
  }

  /** The row-major scan of `zeroes`, before it is shuffled: every empty
      cell exactly once and nothing else. */
  function EmptyCells(g: GameBoard): (ms: seq<Move>)
    requires Valid(g)
    ensures forall m :: multiset(ms)[m] == (if IsEmptyAt(g, m) then 1 else 0)
    ensures forall m :: m in ms <==> IsEmptyAt(g, m)
  {
    var ms := EmptyFrom(g, 0);
    assert forall m :: m in ms <==> m in multiset(ms);
    ms
  }

  /** `zeroes`: the empty cells in the order left by the shuffle. Every empty
      cell appears exactly once and no other coordinate appears, whatever
      the draws are. */
  function Zeroes(g: GameBoard, draw: nat -> nat): (ms: seq<Move>)
    requires Valid(g)
    ensures forall m :: multiset(ms)[m] == (if IsEmptyAt(g, m) then 1 else 0)
    ensures forall m :: m in ms <==> IsEmptyAt(g, m)
  {
    var ms := Shuffle(EmptyCells(g), draw);
    assert forall m :: m in ms <==> m in multiset(ms);
    ms
  }

  /** True when no cell of the row holds Empty (`row.every(val => val !== 0)`). */
  function RowFull(row: seq<Cell>): (full: bool)
    ensures full <==> forall j :: 0 <= j < |row| ==> row[j] != Empty
  {
    |row| == 0 || (row[0] != Empty && RowFull(row[1..]))
  }

  function RowsFull(cells: seq<seq<Cell>>): (full: bool)
    ensures full <==> forall i, j :: 0 <= i < |cells| && 0 <= j < |cells[i]| ==> cells[i][j] != Empty
  {
    |cells| == 0 || (RowFull(cells[0]) && RowsFull(cells[1..]))
  }

  /** The full-board test isEnd falls back on: no cell is empty. */
  function Full(g: GameBoard): (full: bool)
    requires Valid(g)
    ensures full <==> forall i, j :: 0 <= i < g.rows && 0 <= j < g.cols ==> g.cells[i][j] != Empty
  {
    RowsFull(g.cells)
  }

  /** The board is full exactly when the enumeration of empty cells is empty. */
  lemma FullIffNoEmptyCells(g: GameBoard)
    requires Valid(g)
    ensures Full(g) <==> |EmptyCells(g)| == 0
  {
    if !Full(g) {
      var i, j :| 0 <= i < g.rows && 0 <= j < g.cols && g.cells[i][j] == Empty;
      assert Move(i, j) in EmptyCells(g);
    }
    if |EmptyCells(g)| > 0 {
      var m := EmptyCells(g)[0];
      assert IsEmptyAt(g, m);
    }
  }
}
