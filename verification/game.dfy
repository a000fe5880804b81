/**
  Terminal-state detection and scoring of main.js (`Game.isEnd`,
  `Game.utility`) and the one pure rule of a human move: an occupied or
  off-board cell is refused.
 */
module Game {
  import opened Options
  import opened Board
  import opened Lines

  /** The minSize isEnd passes to both diagonal families. */
  const DiagFilter := 3

  /** isEnd's pair: the winner (null when there is none) and whether the
      game is over. */
  datatype Status = Status(winner: Option<Cell>, ended: bool)

  /** Row r holds w in every cell. */
  predicate RowOf(g: GameBoard, r: int, w: Cell)
    requires Valid(g)
  {
    0 <= r < g.rows && forall c :: 0 <= c < g.cols ==> g.cells[r][c] == w
  }

  /** Column c holds w in every cell. */
  predicate ColOf(g: GameBoard, c: int, w: Cell)
    requires Valid(g)
  {
    0 <= c < g.cols && forall r :: 0 <= r < g.rows ==> g.cells[r][c] == w
  }

  /** The cells with row + col == x hold w, for an x that the diagonal
      filter keeps. */
  predicate DiagOf(g: GameBoard, x: int, w: Cell)
    requires Valid(g)
  {
    && DiagFilter - 1 <= x < g.rows + g.cols - DiagFilter
    && forall r, c :: 0 <= r < g.rows && 0 <= c < g.cols && r + c == x ==> g.cells[r][c] == w
  }

  /** The cells with row - col == d hold w, for a d whose mirrored index
      d + C - 1 the diagonal filter keeps. */
  predicate AntiDiagOf(g: GameBoard, d: int, w: Cell)
    requires Valid(g)
  {
    && DiagFilter - 1 <= d + g.cols - 1 < g.rows + g.cols - DiagFilter
    && forall r, c :: 0 <= r < g.rows && 0 <= c < g.cols && r - c == d ==> g.cells[r][c] == w
  }

  /** The mark w (not Empty) fills a whole row, a whole column, or a whole
      diagonal segment of either family that the filter keeps. */
  ghost predicate Wins(g: GameBoard, w: Cell)
    requires Valid(g)
  {
    && w != Empty
    && ((exists r :: RowOf(g, r, w)) || (exists c :: ColOf(g, c, w)) ||
        (exists x :: DiagOf(g, x, w)) || (exists d :: AntiDiagOf(g, d, w)))
  }

  /** Every line isEnd scans, in its scanning order: rows, columns, the
      row + col family and the row - col family. */
  function AllLines(g: GameBoard): (lines: seq<seq<Cell>>)
    requires Valid(g)
    ensures |lines| == g.rows + g.cols + 2 * DiagCount(g)
  {
    Rows(g) + Cols(g) + Diag1(g, DiagFilter) + Diag2(g, DiagFilter)
  }

  /** How many diagonals of each family the filter keeps. */
  function DiagCount(g: GameBoard): (n: int)
  {
    Max(0, g.rows + g.cols - 2 * DiagFilter + 1)
  }

  /** Line r of the scan is row r. */
  lemma AllLinesRow(g: GameBoard, r: int)
    requires Valid(g) && 0 <= r < g.rows
    ensures r < |AllLines(g)| && AllLines(g)[r] == Rows(g)[r]
  {
  }

  /** Line R + c of the scan is column c. */
  lemma AllLinesCol(g: GameBoard, c: int)
    requires Valid(g) && 0 <= c < g.cols
    ensures g.rows + c < |AllLines(g)| && AllLines(g)[g.rows + c] == Cols(g)[c]
  {
  }

  /** Line R + C + j of the scan is entry j of the row + col family. */
  lemma AllLinesDiag1(g: GameBoard, j: int)
    requires Valid(g) && 0 <= j < DiagCount(g)
    ensures g.rows + g.cols + j < |AllLines(g)|
    ensures AllLines(g)[g.rows + g.cols + j] == Diag1(g, DiagFilter)[j]
  {
  }

  /** Line R + C + n + j of the scan, n the size of a family, is entry j of
      the row - col family. */
  lemma AllLinesDiag2(g: GameBoard, j: int)
    requires Valid(g) && 0 <= j < DiagCount(g)
    ensures g.rows + g.cols + DiagCount(g) + j < |AllLines(g)|
    ensures AllLines(g)[g.rows + g.cols + DiagCount(g) + j] == Diag2(g, DiagFilter)[j]
  {
  }

  /** Every scanned line has at least one cell, so isEnd's `a[0]` exists. */
  lemma AllLinesNonEmpty(g: GameBoard)
    requires Valid(g)
    ensures forall k :: 0 <= k < |AllLines(g)| ==> |AllLines(g)[k]| > 0
  {
    forall k | 0 <= k < |AllLines(g)|
      ensures |AllLines(g)[k]| > 0
    {
      LineNonEmpty(g, k);
    }
  }

  lemma LineNonEmpty(g: GameBoard, k: int)
    requires Valid(g) && 0 <= k < |AllLines(g)|
    ensures |AllLines(g)[k]| > 0
  {
    var R, C, n := g.rows, g.cols, DiagCount(g);
    if k < R {
      AllLinesRow(g, k);
    } else if k < R + C {
      AllLinesCol(g, k - R);
    } else if k < R + C + n {
      AllLinesDiag1(g, k - R - C);
      DiagLinesNonEmpty(g, k - R - C);
    } else {
      AllLinesDiag2(g, k - R - C - n);
      DiagLinesNonEmpty(g, k - R - C - n);
    }
  }

  /** Entry j of either diagonal family has at least one cell. */
  lemma DiagLinesNonEmpty(g: GameBoard, j: int)
    requires Valid(g) && 0 <= j < DiagCount(g)
    ensures |Diag1(g, DiagFilter)[j]| > 0 && |Diag2(g, DiagFilter)[j]| > 0
  {
    DiagOnBoard(g, DiagFilter - 1 + j);
  }

  /** Every diagonal index from 0 to R + C - 2 meets the board. */
  lemma DiagOnBoard(g: GameBoard, x: int)
    requires Valid(g) && 0 <= x <= g.rows + g.cols - 2
    ensures DiagLen(g, x) > 0
  {
  }

  /** Every entry of l is w (`a.every(val => val === a[0])` with w = a[0]). */
  predicate Uniform(l: seq<Cell>, w: Cell)
  {
    forall k :: 0 <= k < |l| ==> l[k] == w
  }

  /** The test isEnd applies to each line. */
  predicate IsWinningLine(l: seq<Cell>)
  {
    |l| > 0 && l[0] != Empty && Uniform(l, l[0])
  }

  /** The mark of the first winning line, scanning in order. */
  function FirstWinner(lines: seq<seq<Cell>>): (w: Option<Cell>)
    requires forall k :: 0 <= k < |lines| ==> |lines[k]| > 0
    ensures w.Some? <==> exists k :: 0 <= k < |lines| && IsWinningLine(lines[k])
    ensures w.Some? ==>
              exists k :: (0 <= k < |lines| && IsWinningLine(lines[k]) && lines[k][0] == w.value &&
                           forall j :: 0 <= j < k ==> !IsWinningLine(lines[j]))
  {
    if |lines| == 0 then None
    else if lines[0][0] != Empty && Uniform(lines[0], lines[0][0]) then Some(lines[0][0])
    else
      var w := FirstWinner(lines[1..]);
      assert forall k :: 1 <= k < |lines| ==> lines[k] == lines[1..][k - 1];
      w
  }

  /** `isEnd`. */
  function IsEnd(g: GameBoard): (s: Status)
    requires Valid(g)
    ensures s.winner.Some? <==> exists w :: Wins(g, w)
    ensures s.winner.Some? ==> s.ended && Wins(g, s.winner.value)
    ensures s.winner.None? ==>
              (s.ended <==> forall i, j :: 0 <= i < g.rows && 0 <= j < g.cols ==> g.cells[i][j] != Empty)
  {
    var lines := AllLines(g);
    AllLinesNonEmpty(g);
    var w := FirstWinner(lines);
    WinningLinesAreWins(g);
    if w.Some? then Status(w, true) else Status(None, Full(g))
  }

  /** The winner isEnd reports is the mark of the first winning line in
      scan order: rows, then columns, then the two diagonal families. */
  lemma IsEndReportsFirstLine(g: GameBoard)
    requires Valid(g)
    ensures var s := IsEnd(g);
            s.winner.Some? ==>
              exists k :: (0 <= k < |AllLines(g)| && IsWinningLine(AllLines(g)[k]) &&
                           AllLines(g)[k][0] == s.winner.value &&
                           forall j :: 0 <= j < k ==> !IsWinningLine(AllLines(g)[j]))
  {
    AllLinesNonEmpty(g);
  }

  /** A winning line among the scanned ones is exactly a win of its mark. */
  lemma WinningLinesAreWins(g: GameBoard)
    requires Valid(g)
    ensures forall k :: 0 <= k < |AllLines(g)| && IsWinningLine(AllLines(g)[k]) ==>
              Wins(g, AllLines(g)[k][0])
    ensures forall w :: Wins(g, w) ==>
              exists k :: 0 <= k < |AllLines(g)| && IsWinningLine(AllLines(g)[k]) && AllLines(g)[k][0] == w
  {
    forall k | 0 <= k < |AllLines(g)| && IsWinningLine(AllLines(g)[k])
      ensures Wins(g, AllLines(g)[k][0])
    {
      LineWins(g, k);
    }
    forall w | Wins(g, w)
      ensures exists k :: 0 <= k < |AllLines(g)| && IsWinningLine(AllLines(g)[k]) && AllLines(g)[k][0] == w
    {
      WinHasLine(g, w);
    }
  }

  lemma LineWins(g: GameBoard, k: int)
    requires Valid(g) && 0 <= k < |AllLines(g)| && IsWinningLine(AllLines(g)[k])
    ensures Wins(g, AllLines(g)[k][0])
  {
    var R, C, n := g.rows, g.cols, DiagCount(g);
    if k < R {
      RowLineWins(g, k);
    } else if k < R + C {
      ColLineWins(g, k);
    } else if k < R + C + n {
      Diag1LineAtWins(g, k);
    } else {
      Diag2LineAtWins(g, k);
    }
  }

  /** A winning line in the row + col family stretch of the scan is a
      full kept diagonal. */
  lemma Diag1LineAtWins(g: GameBoard, k: int)
    requires Valid(g) && g.rows + g.cols <= k < g.rows + g.cols + DiagCount(g)
    requires k < |AllLines(g)| && IsWinningLine(AllLines(g)[k])
    ensures Wins(g, AllLines(g)[k][0])
  {
    AllLinesDiag1(g, k - g.rows - g.cols);
    Diag1LineWins(g, k - g.rows - g.cols);
  }

  /** A winning line in the row - col family stretch of the scan is a
      full kept anti-diagonal. */
  lemma Diag2LineAtWins(g: GameBoard, k: int)
    requires Valid(g) && g.rows + g.cols + DiagCount(g) <= k < |AllLines(g)|
    requires IsWinningLine(AllLines(g)[k])
    ensures Wins(g, AllLines(g)[k][0])
  {
    AllLinesDiag2(g, k - g.rows - g.cols - DiagCount(g));
    Diag2LineWins(g, k - g.rows - g.cols - DiagCount(g));
  }

  /** A winning line among the first R is a full row. */
  lemma RowLineWins(g: GameBoard, k: int)
    requires Valid(g) && 0 <= k < g.rows && IsWinningLine(AllLines(g)[k])
    ensures Wins(g, AllLines(g)[k][0])
  {
    AllLinesRow(g, k);
    assert RowOf(g, k, AllLines(g)[k][0]);
  }

  /** A winning line among the next C is a full column. */
  lemma ColLineWins(g: GameBoard, k: int)
    requires Valid(g) && g.rows <= k < g.rows + g.cols && IsWinningLine(AllLines(g)[k])
    ensures Wins(g, AllLines(g)[k][0])
  {
    AllLinesCol(g, k - g.rows);
    assert ColOf(g, k - g.rows, AllLines(g)[k][0]);
  }

  lemma Diag1LineWins(g: GameBoard, j: int)
    requires Valid(g) && 0 <= j < |Diag1(g, DiagFilter)| && IsWinningLine(Diag1(g, DiagFilter)[j])
    ensures Wins(g, Diag1(g, DiagFilter)[j][0])
  {
    var d := Diag1(g, DiagFilter);
    var w := d[j][0];
    var x := DiagFilter - 1 + j;
    forall r, c | 0 <= r < g.rows && 0 <= c < g.cols && r + c == x
      ensures g.cells[r][c] == w
    {
      DiagCovers(g, x, Move(r, c));
      Diag1Entry(g, DiagFilter, j, r - DiagLo(g, x));
    }
    assert DiagOf(g, x, w);
  }

  lemma Diag2LineWins(g: GameBoard, j: int)
    requires Valid(g) && 0 <= j < |Diag2(g, DiagFilter)| && IsWinningLine(Diag2(g, DiagFilter)[j])
    ensures Wins(g, Diag2(g, DiagFilter)[j][0])
  {
    var w := Diag2(g, DiagFilter)[j][0];
    var x := DiagFilter - 1 + j;
    var C := g.cols;
    forall r, c | 0 <= r < g.rows && 0 <= c < C && r - c == x - (C - 1)
      ensures g.cells[r][c] == w
    {
      Diag2CellInLine(g, j, Move(r, c));
    }
    assert AntiDiagOf(g, x - (C - 1), w);
  }

  lemma Diag2CellInLine(g: GameBoard, j: int, m: Move)
    requires Valid(g) && 0 <= j < |Diag2(g, DiagFilter)| && IsWinningLine(Diag2(g, DiagFilter)[j])
    requires InBounds(g, m) && m.row - m.col == DiagFilter - 1 + j - (g.cols - 1)
    ensures g.cells[m.row][m.col] == Diag2(g, DiagFilter)[j][0]
  {
    var d := Diag2(g, DiagFilter);
    var x := DiagFilter - 1 + j;
    var i := m.row - DiagLo(g, x);
    DiagCovers(g, x, Move(m.row, g.cols - 1 - m.col));
    assert MirrorCell(g, x, i) == m;
    Diag2Entry(g, DiagFilter, j, i);
  }

  lemma WinHasLine(g: GameBoard, w: Cell)
    requires Valid(g) && Wins(g, w)
    ensures exists k :: 0 <= k < |AllLines(g)| && IsWinningLine(AllLines(g)[k]) && AllLines(g)[k][0] == w
  {
    if r :| RowOf(g, r, w) {
      RowWinIsLine(g, r, w);
    } else if c :| ColOf(g, c, w) {
      ColWinIsLine(g, c, w);
    } else if x :| DiagOf(g, x, w) {
      DiagHasLine(g, x, w);
    } else {
      var e :| AntiDiagOf(g, e, w);
      AntiDiagHasLine(g, e, w);
    }
  }

  lemma DiagHasLine(g: GameBoard, x: int, w: Cell)
    requires Valid(g) && w != Empty && DiagOf(g, x, w)
    ensures exists k :: 0 <= k < |AllLines(g)| && IsWinningLine(AllLines(g)[k]) && AllLines(g)[k][0] == w
  {
    Diag1Uniform(g, x, w);
    DiagWinIsLine(g, x - (DiagFilter - 1), w);
  }

  lemma AntiDiagHasLine(g: GameBoard, e: int, w: Cell)
    requires Valid(g) && w != Empty && AntiDiagOf(g, e, w)
    ensures exists k :: 0 <= k < |AllLines(g)| && IsWinningLine(AllLines(g)[k]) && AllLines(g)[k][0] == w
  {
    Diag2Uniform(g, e, w);
    AntiDiagWinIsLine(g, e + g.cols - 1 - (DiagFilter - 1), w);
  }

  lemma RowWinIsLine(g: GameBoard, r: int, w: Cell)
    requires Valid(g) && w != Empty && RowOf(g, r, w)
    ensures r < |AllLines(g)| && IsWinningLine(AllLines(g)[r]) && AllLines(g)[r][0] == w
  {
    AllLinesRow(g, r);
  }

  lemma ColWinIsLine(g: GameBoard, c: int, w: Cell)
    requires Valid(g) && w != Empty && ColOf(g, c, w)
    ensures 0 <= g.rows + c < |AllLines(g)|
    ensures IsWinningLine(AllLines(g)[g.rows + c]) && AllLines(g)[g.rows + c][0] == w
  {
    AllLinesCol(g, c);
  }

  /** A row + col diagonal read as a non-empty line of w's is a winning
      line of the scan. */
  lemma DiagWinIsLine(g: GameBoard, j: int, w: Cell)
    requires Valid(g) && w != Empty && 0 <= j < DiagCount(g)
    requires |Diag1(g, DiagFilter)[j]| > 0 && Uniform(Diag1(g, DiagFilter)[j], w)
    ensures var k := g.rows + g.cols + j;
            0 <= k < |AllLines(g)| && IsWinningLine(AllLines(g)[k]) && AllLines(g)[k][0] == w
  {
    AllLinesDiag1(g, j);
    UniformLineWins(AllLines(g), g.rows + g.cols + j, Diag1(g, DiagFilter)[j], w);
  }

  /** A kept row + col diagonal holding w is read by `iterDiag1` as a
      non-empty line of w's. */
  lemma Diag1Uniform(g: GameBoard, x: int, w: Cell)
    requires Valid(g) && DiagOf(g, x, w)
    ensures var j := x - (DiagFilter - 1);
            0 <= j < |Diag1(g, DiagFilter)| && |Diag1(g, DiagFilter)[j]| > 0 && Uniform(Diag1(g, DiagFilter)[j], w)
  {
    var d := Diag1(g, DiagFilter);
    var j := x - (DiagFilter - 1);
    forall i | 0 <= i < |d[j]|
      ensures d[j][i] == w
    {
      Diag1Entry(g, DiagFilter, j, i);
      var m := DiagCell(g, x, i);
      assert g.cells[m.row][m.col] == w;
    }
  }

  /** A row - col diagonal read as a non-empty line of w's is a winning
      line of the scan. */
  lemma AntiDiagWinIsLine(g: GameBoard, j: int, w: Cell)
    requires Valid(g) && w != Empty && 0 <= j < DiagCount(g)
    requires |Diag2(g, DiagFilter)[j]| > 0 && Uniform(Diag2(g, DiagFilter)[j], w)
    ensures var k := g.rows + g.cols + DiagCount(g) + j;
            0 <= k < |AllLines(g)| && IsWinningLine(AllLines(g)[k]) && AllLines(g)[k][0] == w
  {
    AllLinesDiag2(g, j);
    UniformLineWins(AllLines(g), g.rows + g.cols + DiagCount(g) + j, Diag2(g, DiagFilter)[j], w);
  }

  /** A non-empty line all of whose cells hold a mark is a winning line
      of that mark. */
  lemma UniformIsWinning(l: seq<Cell>, w: Cell)
    requires |l| > 0 && w != Empty && Uniform(l, w)
    ensures IsWinningLine(l) && l[0] == w
  {
  }

  /** Line k of a scan that equals a non-empty line of w's is a winning
      line of w. */
  lemma UniformLineWins(lines: seq<seq<Cell>>, k: int, l: seq<Cell>, w: Cell)
    requires 0 <= k < |lines| && lines[k] == l
    requires |l| > 0 && w != Empty && Uniform(l, w)
    ensures IsWinningLine(lines[k]) && lines[k][0] == w
  {
  }

  /** A kept row - col diagonal holding w is read by `iterDiag2` as a
      non-empty line of w's. */
  lemma Diag2Uniform(g: GameBoard, e: int, w: Cell)
    requires Valid(g) && AntiDiagOf(g, e, w)
    ensures var j := e + g.cols - 1 - (DiagFilter - 1);
            0 <= j < |Diag2(g, DiagFilter)| && |Diag2(g, DiagFilter)[j]| > 0 && Uniform(Diag2(g, DiagFilter)[j], w)
  {
    var d := Diag2(g, DiagFilter);
    var x := e + g.cols - 1;
    var j := x - (DiagFilter - 1);
    forall i | 0 <= i < |d[j]|
      ensures d[j][i] == w
    {
      Diag2Entry(g, DiagFilter, j, i);
      var m := MirrorCell(g, x, i);
      assert g.cells[m.row][m.col] == w;
    }
  }

  /** `utility(state, player)`: +1 when the reported winner is `player`,
      -1 when it is another mark, 0 for a draw or a game still running. */
  function Utility(g: GameBoard, player: Cell): (u: int)
    requires Valid(g)
    ensures -1 <= u <= 1
    ensures u == 0 <==> forall w :: !Wins(g, w)
    ensures u == 1 ==> Wins(g, player)
    ensures u == -1 ==> exists w :: w != player && Wins(g, w)
    ensures Wins(g, player) && (forall w :: w != player ==> !Wins(g, w)) ==> u == 1
    ensures u == 1 <==> IsEnd(g).winner == Some(player)
    ensures u == -1 <==> IsEnd(g).winner.Some? && IsEnd(g).winner.value != player
  {
    var s := IsEnd(g);
    if s.ended then
      if s.winner.None? then 0
      else if s.winner.value == player then 1 else -1
    else 0
  }

  /** No mark wins on a board whose cells are all empty. */
  lemma NoWinOnEmptyBoard(g: GameBoard, w: Cell)
    requires Valid(g)
    requires forall i, j :: 0 <= i < g.rows && 0 <= j < g.cols ==> g.cells[i][j] == Empty
    ensures !Wins(g, w)
  {
    if w != Empty {
      forall r ensures !RowOf(g, r, w) {
        if 0 <= r < g.rows {
          assert g.cells[r][0] != w;
        }
      }
      forall c ensures !ColOf(g, c, w) {
        if 0 <= c < g.cols {
          assert g.cells[0][c] != w;
        }
      }
      forall x ensures !DiagOf(g, x, w) {
        if DiagFilter - 1 <= x < g.rows + g.cols - DiagFilter {
          var m := DiagCell(g, x, 0);
          DiagCovers(g, x, Move(if x < g.rows then x else g.rows - 1, x - (if x < g.rows then x else g.rows - 1)));
          assert InBounds(g, m) && g.cells[m.row][m.col] != w;
        }
      }
      forall e ensures !AntiDiagOf(g, e, w) {
        var x := e + g.cols - 1;
        if DiagFilter - 1 <= x < g.rows + g.cols - DiagFilter {
          var m := MirrorCell(g, x, 0);
          DiagCovers(g, x, Move(if x < g.rows then x else g.rows - 1, x - (if x < g.rows then x else g.rows - 1)));
          assert InBounds(g, m) && g.cells[m.row][m.col] != w;
        }
      }
    }
  }

  /** The empty board is neither won nor drawn. */
  lemma EmptyBoardIsOpen(rows: nat, cols: nat)
    requires rows > 0 && cols > 0
    ensures IsEnd(CreateBoard(rows, cols)) == Status(None, false)
  {
    var g := CreateBoard(rows, cols);
    forall w ensures !Wins(g, w) {
      NoWinOnEmptyBoard(g, w);
    }
    assert g.cells[0][0] == Empty;
  }

  /** A 2 x 5 board whose only marks are the human's at (0, 2) and (1, 1):
      two cells, yet isEnd reports a win, because the diagonal they share is
      kept by the index filter although it is shorter than 3. */
  lemma ShortDiagonalWinsOnWideBoard()
    ensures var g := GameBoard(2, 5, [[Empty, Empty, Player, Empty, Empty],
                                      [Empty, Player, Empty, Empty, Empty]]);
            Valid(g) && IsEnd(g) == Status(Some(Player), true) && Utility(g, Player) == 1
  {
    var g := GameBoard(2, 5, [[Empty, Empty, Player, Empty, Empty],
                              [Empty, Player, Empty, Empty, Empty]]);
    assert DiagOf(g, 2, Player);
    assert Wins(g, Player);
    forall w | w != Player && w != Empty
      ensures !Wins(g, w)
    {
      forall r ensures !RowOf(g, r, w) {
        if 0 <= r < 2 {
          assert g.cells[r][0] != w;
        }
      }
      forall c ensures !ColOf(g, c, w) {
        if 0 <= c < 5 {
          assert g.cells[0][c] != w;
        }
      }
      forall x ensures !DiagOf(g, x, w) {
        if 2 <= x < 4 {
          assert g.cells[0][x] != w;
        }
      }
      forall e ensures !AntiDiagOf(g, e, w) {
        if 2 <= e + 4 < 4 {
          assert g.cells[1][1 - e] != w;
        }
      }
    }
  }

  /** `playerMove`'s rule: the move is played only when (x, y) is among the
      valid inputs, that is an empty cell of the board; otherwise nothing
      happens. A played move marks that cell for the human and nothing else,
      and leaves one empty cell fewer. */
  function PlayerMove(g: GameBoard, x: int, y: int): (r: Option<GameBoard>)
    requires Valid(g)
    ensures r.Some? <==> IsEmptyAt(g, Move(x, y))
    ensures r.Some? ==> Changes(g, r.value, Move(x, y), Player)
    ensures r.Some? ==> |EmptyCells(r.value)| == |EmptyCells(g)| - 1
  {
    if Move(x, y) in EmptyCells(g) then
      PlayRemovesOneEmptyCell(g, Move(x, y), Player);
      Some(Set(g, x, y, Player))
    else None
  }

  /** Marking an empty cell removes exactly that cell from the empty cells. */
  lemma PlayRemovesOneEmptyCell(g: GameBoard, m: Move, v: Cell)
    requires Valid(g) && IsEmptyAt(g, m) && v != Empty
    ensures multiset(EmptyCells(Set(g, m.row, m.col, v))) == multiset(EmptyCells(g)) - multiset{m}
    ensures |EmptyCells(Set(g, m.row, m.col, v))| == |EmptyCells(g)| - 1
  {
    var h := Set(g, m.row, m.col, v);
    EmptyCellsAfterSet(g, m, v);
    assert m in multiset(EmptyCells(g));
    assert |multiset(EmptyCells(g))| == |EmptyCells(g)|;
    assert |multiset(EmptyCells(h))| == |EmptyCells(h)|;
  }

  lemma EmptyCellsAfterSet(g: GameBoard, m: Move, v: Cell)
    requires Valid(g) && IsEmptyAt(g, m) && v != Empty
    ensures multiset(EmptyCells(Set(g, m.row, m.col, v))) == multiset(EmptyCells(g)) - multiset{m}
  {
    var a := multiset(EmptyCells(Set(g, m.row, m.col, v)));
    var b := multiset(EmptyCells(g)) - multiset{m};
    forall p
      ensures a[p] == b[p]
    {
      EmptyAfterSet(g, m, v, p);
    }
  }

  lemma EmptyAfterSet(g: GameBoard, m: Move, v: Cell, p: Move)
    requires Valid(g) && InBounds(g, m) && v != Empty
    ensures IsEmptyAt(Set(g, m.row, m.col, v), p) <==> IsEmptyAt(g, p) && p != m
  {
    var h := Set(g, m.row, m.col, v);
    assert Changes(g, h, m, v);
    if InBounds(g, p) && p != m {
      assert h.cells[p.row][p.col] == g.cells[p.row][p.col];
    }
  }
}
