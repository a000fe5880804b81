/**
  The line views of GameBoard: rows, columns obtained by transposing the rows
  (`zip`), and the two diagonal families produced by `_getDiag`.
 */
module Lines {
  import opened Board

  function Max(a: int, b: int): (m: int) { if a >= b then a else b }
  function Min(a: int, b: int): (m: int) { if a <= b then a else b }

  /** Every row is at least `width` long, so `row[c]` exists for c < width. */
  predicate Covers<T>(rows: seq<seq<T>>, width: int)
  {
    forall r :: 0 <= r < |rows| ==> |rows[r]| >= width
  }

  /** `rows.map(row => row[c])`. */
  function Column<T>(rows: seq<seq<T>>, c: nat): (col: seq<T>)
    requires Covers(rows, c + 1)
    ensures |col| == |rows|
    ensures forall r :: 0 <= r < |rows| ==> col[r] == rows[r][c]
  {
    if |rows| == 0 then [] else [rows[0][c]] + Column(rows[1..], c)
  }

  /** `zip`: one column per entry of the first row. */
  function Zip<T>(rows: seq<seq<T>>): (cols: seq<seq<T>>)
    requires |rows| > 0 && Covers(rows, |rows[0]|)
    ensures |cols| == |rows[0]|
    ensures forall c :: 0 <= c < |cols| ==> |cols[c]| == |rows|
    ensures forall c, r :: 0 <= c < |cols| && 0 <= r < |rows| ==> cols[c][r] == rows[r][c]
  {
    seq(|rows[0]|, (c: int) requires 0 <= c < |rows[0]| && Covers(rows, |rows[0]|) => Column(rows, c))
  }

  /** Transposing a rectangular grid twice gives the grid back. */
  lemma ZipTwice<T>(rows: seq<seq<T>>)
    requires |rows| > 0 && |rows[0]| > 0
    requires forall r :: 0 <= r < |rows| ==> |rows[r]| == |rows[0]|
    ensures Zip(Zip(rows)) == rows
  {
    var t := Zip(rows);
    var tt := Zip(t);
    assert |tt| == |rows|;
    forall r | 0 <= r < |rows|
      ensures tt[r] == rows[r]
    {
      assert |tt[r]| == |rows[r]|;
      forall c | 0 <= c < |rows[r]|
        ensures tt[r][c] == rows[r][c]
      {
        assert tt[r][c] == t[c][r];
      }
    }
  }

  /** `iterRows`: the rows themselves, R of them, each C long. */
  function Rows(g: GameBoard): (lines: seq<seq<Cell>>)
    requires Valid(g)
    ensures |lines| == g.rows
    ensures forall r :: 0 <= r < g.rows ==> |lines[r]| == g.cols
    ensures forall r, c :: 0 <= r < g.rows && 0 <= c < g.cols ==> lines[r][c] == g.cells[r][c]
  {
    g.cells
  }

  /** `iterCols`: C columns, each R long, read top to bottom. */
  function Cols(g: GameBoard): (lines: seq<seq<Cell>>)
    requires Valid(g)
    ensures |lines| == g.cols
    ensures forall c :: 0 <= c < g.cols ==> |lines[c]| == g.rows
    ensures forall c, r :: 0 <= c < g.cols && 0 <= r < g.rows ==> lines[c][r] == g.cells[r][c]
  {
    Zip(g.cells)
  }

  /** The first row visited by diagonal x (the cells with row + col == x). */
  function DiagLo(g: GameBoard, x: int): (lo: int)
  {
    Max(0, x - g.cols + 1)
  }

  /** How many in-bounds cells have row + col == x. */
  function DiagLen(g: GameBoard, x: int): (len: int)
  {
    Max(0, Min(g.rows - 1, x) - DiagLo(g, x) + 1)
  }

  /** The inner loop of `_getDiag` from i on: `board[i][x - i]` for every
      i <= x that is below the row count and leaves x - i below the column
      count. The dimensions come from the board's `grid`, not from `b`. */
  function SegmentFrom(g: GameBoard, b: seq<seq<Cell>>, x: int, i: nat): (items: seq<Cell>)
    requires Shaped(b, g.rows, g.cols)
    ensures |items| == Max(0, Min(g.rows - 1, x) - Max(i, x - g.cols + 1) + 1)
    decreases x + 1 - i
  {
    if i >= x + 1 then []
    else (if i < g.rows && x - i < g.cols then [b[i][x - i]] else []) + SegmentFrom(g, b, x, i + 1)
  }

  /** Item k of the inner loop from i on is the k-th in-bounds cell of
      diagonal x at or below row i. */
  lemma {:induction false} SegmentFromEntry(g: GameBoard, b: seq<seq<Cell>>, x: int, i: nat, k: nat)
    requires Shaped(b, g.rows, g.cols) && k < |SegmentFrom(g, b, x, i)|
    ensures var lo := Max(i, x - g.cols + 1);
            && 0 <= lo + k < g.rows && 0 <= x - lo - k < g.cols
            && SegmentFrom(g, b, x, i)[k] == b[lo + k][x - lo - k]
    decreases x + 1 - i
  {
    var rest := SegmentFrom(g, b, x, i + 1);
    if i < g.rows && x - i < g.cols {
      if k > 0 {
        SegmentFromEntry(g, b, x, i + 1, k - 1);
      }
    } else {
      SegmentFromEntry(g, b, x, i + 1, k);
    }
  }

  /** Position i of diagonal x: row DiagLo(x) + i, column x minus that row. */
  function DiagCell(g: GameBoard, x: int, i: int): (m: Move)
    ensures m.row + m.col == x
  {
    Move(DiagLo(g, x) + i, x - DiagLo(g, x) - i)
  }

  /** Value v is what the board holds at m, and m is on the board. */
  predicate Shows(g: GameBoard, m: Move, v: Cell)
    requires Valid(g)
  {
    InBounds(g, m) && v == At(g.cells, m)
  }

  /** The cell of `b` at m. */
  function At(b: seq<seq<Cell>>, m: Move): (v: Cell)
    requires 0 <= m.row < |b| && 0 <= m.col < |b[m.row]|
  {
    b[m.row][m.col]
  }

  /** Diagonal x: the cells of `b` with row + col == x, by increasing row. */
  function Segment(g: GameBoard, b: seq<seq<Cell>>, x: int): (items: seq<Cell>)
    requires Shaped(b, g.rows, g.cols)
    ensures |items| == DiagLen(g, x)
  {
    SegmentFrom(g, b, x, 0)
  }

  /** Item i of diagonal x is the board cell DiagCell(x, i), which is on
      the board. */
  lemma SegmentEntry(g: GameBoard, b: seq<seq<Cell>>, x: int, i: int)
    requires Shaped(b, g.rows, g.cols) && 0 <= i < |Segment(g, b, x)|
    ensures InBounds(g, DiagCell(g, x, i)) && Segment(g, b, x)[i] == At(b, DiagCell(g, x, i))
  {
    SegmentFromEntry(g, b, x, 0, i);
  }

  /** The outer loop of `_getDiag` from x on, while x < R + C - minSize;
      `n` counts the iterations left, R + C - minSize - x. */
  function DiagsFrom(g: GameBoard, b: seq<seq<Cell>>, x: int, n: nat): (diags: seq<seq<Cell>>)
    requires Shaped(b, g.rows, g.cols)
    ensures |diags| == n
    decreases n
  {
    if n == 0 then []
    else [Segment(g, b, x)] + DiagsFrom(g, b, x + 1, n - 1)
  }

  /** Iteration k of the outer loop pushes diagonal x + k. */
  lemma {:induction false} DiagsFromEntry(g: GameBoard, b: seq<seq<Cell>>, x: int, n: nat, k: nat)
    requires Shaped(b, g.rows, g.cols) && k < n
    ensures DiagsFrom(g, b, x, n)[k] == Segment(g, b, x + k)
    decreases n
  {
    if k > 0 {
      DiagsFromEntry(g, b, x + 1, n - 1, k - 1);
    }
  }

  lemma DiagsFromEntries(g: GameBoard, b: seq<seq<Cell>>, x: int, n: nat)
    requires Shaped(b, g.rows, g.cols)
    ensures forall k :: 0 <= k < n ==> DiagsFrom(g, b, x, n)[k] == Segment(g, b, x + k)
  {
    forall k | 0 <= k < n
      ensures DiagsFrom(g, b, x, n)[k] == Segment(g, b, x + k)
    {
      DiagsFromEntry(g, b, x, n, k);
    }
  }

  /** `_getDiag(b, minSize)`: the diagonals x = minSize - 1 .. R + C - minSize - 1,
      that is max(0, R + C - 2 minSize + 1) of them. The filter is on the index
      x, not on the length of the segment. */
  function GetDiag(g: GameBoard, b: seq<seq<Cell>>, minSize: int): (diags: seq<seq<Cell>>)
    requires Shaped(b, g.rows, g.cols)
    ensures |diags| == Max(0, g.rows + g.cols - 2 * minSize + 1)
    ensures forall k :: 0 <= k < |diags| ==> diags[k] == Segment(g, b, minSize - 1 + k)
  {
    var n := Max(0, g.rows + g.cols - 2 * minSize + 1);
    DiagsFromEntries(g, b, minSize - 1, n);
    DiagsFrom(g, b, minSize - 1, n)
  }

  lemma GetDiagEntry(g: GameBoard, b: seq<seq<Cell>>, minSize: int, k: int, i: int)
    requires Shaped(b, g.rows, g.cols)
    requires 0 <= k < |GetDiag(g, b, minSize)| && 0 <= i < |GetDiag(g, b, minSize)[k]|
    ensures InBounds(g, DiagCell(g, minSize - 1 + k, i))
    ensures GetDiag(g, b, minSize)[k][i] == At(b, DiagCell(g, minSize - 1 + k, i))
  {
    var s := GetDiag(g, b, minSize)[k];
    assert s == Segment(g, b, minSize - 1 + k);
    SegmentEntry(g, b, minSize - 1 + k, i);
  }

  /** `arr.slice().reverse()`. */
  function Reverse(row: seq<Cell>): (rev: seq<Cell>)
    ensures |rev| == |row|
    ensures forall j :: 0 <= j < |row| ==> rev[j] == row[|row| - 1 - j]
  {
    if |row| == 0 then [] else Reverse(row[1..]) + [row[0]]
  }

  /** Every row reversed: the board mirrored left to right. */
  function Flip(cells: seq<seq<Cell>>): (flipped: seq<seq<Cell>>)
    ensures |flipped| == |cells|
    ensures forall r :: 0 <= r < |cells| ==> |flipped[r]| == |cells[r]|
    ensures forall r, c :: 0 <= r < |cells| && 0 <= c < |cells[r]| ==>
              flipped[r][c] == cells[r][|cells[r]| - 1 - c]
  {
    seq(|cells|, r requires 0 <= r < |cells| => Reverse(cells[r]))
  }

  /** `iterDiag1(minSize)`: the family with row + col constant; entry k is
      diagonal x = minSize - 1 + k. */
  function Diag1(g: GameBoard, minSize: int): (diags: seq<seq<Cell>>)
    requires Valid(g)
    ensures |diags| == Max(0, g.rows + g.cols - 2 * minSize + 1)
    ensures forall k :: 0 <= k < |diags| ==> |diags[k]| == DiagLen(g, minSize - 1 + k)
  {
    GetDiag(g, g.cells, minSize)
  }

  /** Position i of entry k of `iterDiag1` shows the board at cell i of
      diagonal minSize - 1 + k. */
  lemma Diag1Entry(g: GameBoard, minSize: int, k: int, i: int)
    requires Valid(g)
    requires 0 <= k < |Diag1(g, minSize)| && 0 <= i < |Diag1(g, minSize)[k]|
    ensures Shows(g, DiagCell(g, minSize - 1 + k, i), Diag1(g, minSize)[k][i])
  {
    GetDiagEntry(g, g.cells, minSize, k, i);
  }

  /** The board cell that position i of diagonal x of the mirrored board
      shows: same row, column C - 1 - col. These cells have row - col
      constant. */
  function MirrorCell(g: GameBoard, x: int, i: int): (m: Move)
    ensures m.row - m.col == x - (g.cols - 1)
  {
    var p := DiagCell(g, x, i);
    Move(p.row, g.cols - 1 - p.col)
  }

  /** `iterDiag2(minSize)`: the same traversal on the mirrored board, which
      reads the family with row - col constant: entry k holds the cells with
      row - col == minSize - 1 + k - (C - 1). */
  function Diag2(g: GameBoard, minSize: int): (diags: seq<seq<Cell>>)
    requires Valid(g)
    ensures |diags| == Max(0, g.rows + g.cols - 2 * minSize + 1)
    ensures forall k :: 0 <= k < |diags| ==> |diags[k]| == DiagLen(g, minSize - 1 + k)
  {
    GetDiag(g, Flip(g.cells), minSize)
  }

  /** Position i of entry k of `iterDiag2` shows the board at the mirror
      image of cell i of diagonal minSize - 1 + k. */
  lemma Diag2Entry(g: GameBoard, minSize: int, k: int, i: int)
    requires Valid(g)
    requires 0 <= k < |Diag2(g, minSize)| && 0 <= i < |Diag2(g, minSize)[k]|
    ensures Shows(g, MirrorCell(g, minSize - 1 + k, i), Diag2(g, minSize)[k][i])
  {
    var p := DiagCell(g, minSize - 1 + k, i);
    GetDiagEntry(g, Flip(g.cells), minSize, k, i);
    MirrorAt(g, p);
  }

  lemma MirrorAt(g: GameBoard, p: Move)
    requires Valid(g) && InBounds(g, p)
    ensures 0 <= p.row < |Flip(g.cells)| && 0 <= p.col < |Flip(g.cells)[p.row]|
    ensures At(Flip(g.cells), p) == g.cells[p.row][g.cols - 1 - p.col]
  {
    var f := Flip(g.cells);
    assert |f[p.row]| == g.cols;
  }

  /** Every in-bounds cell with row + col == x sits on diagonal x, at
      position row - DiagLo(x). */
  lemma DiagCovers(g: GameBoard, x: int, m: Move)
    requires Valid(g) && InBounds(g, m) && m.row + m.col == x
    ensures 0 <= m.row - DiagLo(g, x) < DiagLen(g, x)
    ensures DiagCell(g, x, m.row - DiagLo(g, x)) == m
  {
  }

  /** With minSize = 1 the family row + col = const partitions the board:
      every cell is at exactly one (diagonal, position) pair, namely
      (row + col, row - DiagLo(row + col)). */
  lemma {:induction false} Diag1Partition(g: GameBoard, m: Move)
    requires Valid(g) && InBounds(g, m)
    ensures var d := Diag1(g, 1);
            var x := m.row + m.col;
            && 0 <= x < |d|
            && 0 <= m.row - DiagLo(g, x) < |d[x]|
            && Shows(g, m, d[x][m.row - DiagLo(g, x)])
            && forall k, i :: 0 <= k < |d| && 0 <= i < |d[k]| && DiagCell(g, k, i) == m ==>
                 k == x && i == m.row - DiagLo(g, x)
  {
    var x := m.row + m.col;
    DiagCovers(g, x, m);
    Diag1Entry(g, 1, x, m.row - DiagLo(g, x));
  }

  /** On the mirrored board the same holds for row - col = const: the cell m
      is at position row - DiagLo(x) of diagonal x = row - col + C - 1. */
  lemma {:induction false} Diag2Partition(g: GameBoard, m: Move)
    requires Valid(g) && InBounds(g, m)
    ensures var d := Diag2(g, 1);
            var x := m.row - m.col + g.cols - 1;
            && 0 <= x < |d|
            && 0 <= m.row - DiagLo(g, x) < |d[x]|
            && MirrorCell(g, x, m.row - DiagLo(g, x)) == m
            && Shows(g, m, d[x][m.row - DiagLo(g, x)])
            && forall k, i :: 0 <= k < |d| && 0 <= i < |d[k]| && MirrorCell(g, k, i) == m ==>
                 k == x && i == m.row - DiagLo(g, x)
  {
    var d := Diag2(g, 1);
    var x := m.row - m.col + g.cols - 1;
    var i := m.row - DiagLo(g, x);
    var p := Move(m.row, g.cols - 1 - m.col);
    DiagCovers(g, x, p);
    assert MirrorCell(g, x, i) == m;
    assert 0 <= x < |d| && |d[x]| == DiagLen(g, x);
    Diag2Entry(g, 1, x, i);
  }

  /** On a square board the index filter is a length filter: every
      segment `_getDiag` keeps has at least minSize cells, and every
      diagonal with at least minSize cells is kept. */
  lemma SquareSegmentsLongEnough(g: GameBoard, minSize: int)
    requires Valid(g) && g.rows == g.cols
    ensures forall k :: 0 <= k < |Diag1(g, minSize)| ==> |Diag1(g, minSize)[k]| >= minSize
    ensures forall k :: 0 <= k < |Diag2(g, minSize)| ==> |Diag2(g, minSize)[k]| >= minSize
    ensures forall x :: 0 <= x <= g.rows + g.cols - 2 && DiagLen(g, x) >= minSize ==>
              minSize - 1 <= x < g.rows + g.cols - minSize
  {
  }

  /** On a 2 x 5 board the filter minSize = 3 still keeps diagonal x = 2,
      which has only two cells, (0, 2) and (1, 1). */
  lemma ShortSegmentOnWideBoard()
    ensures var g := CreateBoard(2, 5);
            |Diag1(g, 3)| == 2 && |Diag1(g, 3)[0]| == 2 &&
            DiagCell(g, 2, 0) == Move(0, 2) && DiagCell(g, 2, 1) == Move(1, 1)
  {
    var g := CreateBoard(2, 5);
    assert DiagLo(g, 2) == 0 && DiagLen(g, 2) == 2;
  }
}
