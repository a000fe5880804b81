# Tic-tac-toe game logic in Dafny

This project models the pure game logic of `main.js`, a browser
tic-tac-toe game in which a human (mark 1) plays a computer (mark 2):

- **`GameBoard`.** A rectangular grid with construction, `get`/`set`,
  a value `copy`, and the shuffled list of empty cells (`zeroes`,
  using a Fisher-Yates `shuffle`). It also provides the line views
  `isEnd` scans: rows, columns by transposition (`zip`), and two
  diagonal families built by `_getDiag`.
- **`Game`.** `isEnd` (the winner and whether the game is over),
  `utility` (−1/0/+1), `validInputs`, and `minimax`. `minimax` is a
  depth-bounded, fail-soft alpha-beta search in which the computer
  maximises. There is also the one pure rule of `playerMove`: only an
  empty cell can be played.

The modules follow the source:

- `Shuffling` holds `shuffle`.
- `Board` covers the cell store of `GameBoard`.
- `Lines` covers the line views of `GameBoard`.
- `Game` holds `isEnd`, `utility` and the player-move rule.
- `Search` holds `minimax`.
- `Reference` is an independent, unpruned minimax value used as the
  specification of the search.
- `AlphaBeta` proves the search against it.

The model follows the code as written in two places where a natural
reading of the game suggests otherwise:

- A win needs a whole row, column or kept diagonal segment to hold one
  mark; there is no "three in a row" window. The 3 that `isEnd` passes
  to the diagonal views (`Game.DiagFilter`) only selects which
  diagonal indices are scanned.
- `_getDiag` filters diagonals by their index x (it keeps
  `minSize - 1 <= x < R + C - minSize`), not by segment length, so a
  segment shorter than minSize can be kept. The model follows the code:
  - on a 2 × 5 board the index filter keeps a 2-cell diagonal
    (`Lines.ShortSegmentOnWideBoard`), and two marks on it win
    (`Game.ShortDiagonalWinsOnWideBoard`);
  - on square boards the two filters agree: every kept segment has at
    least minSize cells, and every diagonal with at least minSize cells
    is kept (`Lines.SquareSegmentsLongEnough`).

Randomness becomes an input:

- `Board.Zeroes` takes the shuffle's draws as a function `draw`. Step
  `i` picks `draw(i) % (i + 1)`, so exactly the indices
  `Math.floor(Math.random() * (i + 1))` can produce are reachable.
- `Search.Minimax` takes an `Rng` keyed by the path of moves from the
  root, so every node of a search has its own draws.

`minimax` is modelled as two pure functions:

- `Search.Expand` unfolds the board into the game tree the source
  walks. It applies the same leaf test and utility, visits the
  candidates in the shuffled order, and plays each one with `copy` and
  `set`.
- `Search.Prune` is the alpha-beta loop over that tree. It uses the same
  sentinels (−2/+2), switches the best move only on a strict
  improvement, updates alpha or beta the same way, and cuts off when
  `beta <= alpha`.

Because everything is pure and the draws do not depend on which nodes
are visited, composing the two returns what the source's single
recursive method returns.

## Model

| member | source | states |
|---|---|---|
| Shuffling.Swap | main.js:7 | the destructuring swap exchanges positions i and j and leaves every other position and the length as they were |
| Shuffling.SwapSameElements | main.js:7 | a swap keeps the multiset of elements |
| Shuffling.Pick | main.js:6 | the index drawn at step i is in [0, i], as `floor(random() * (i + 1))` is |
| Shuffling.PickReaches | main.js:6 | every index in [0, i] is the pick of some draw function, so the draws cover every outcome of `floor(random() * (i + 1))` |
| Shuffling.ShuffleSteps | main.js:5-8 | each run of the swap loop from step i down keeps the length of the sequence |
| Shuffling.StepsKeepTail | main.js:5-8 | steps i down to 1 never touch a position above i, so the suffix already passed is final |
| Shuffling.StepsSameElements | main.js:5-8 | any run of the swap loop, for any draws, keeps the multiset of elements |
| Shuffling.Shuffle | main.js:4-10 | the shuffle returns a sequence of the same length and the same multiset of elements, whatever the draws |
| Shuffling.ShuffleSameElements | main.js:4-10 | an element is in the shuffled sequence exactly when it is in the input |
| Shuffling.IdentityDrawsKeepOrder | main.js:4-10 | when every draw picks the current index, the shuffle leaves the order unchanged |
| Board.EmptyRow | main.js:23-25 | the inner loop of `createBoard` builds a row of `cols` cells, all empty |
| Board.EmptyRows | main.js:21-27 | the outer loop builds `rows` such rows, every cell empty |
| Board.CreateBoard | main.js:19-28 | the created board has the requested dimensions, rows × cols cells, every one of them empty |
| Board.Get | main.js:47-49 | `get(i, j)` reads a cell that is Empty exactly when (i, j) is an empty in-bounds cell, the test `zeroes` applies |
| Board.Set | main.js:43-45 | after `set(i, j, v)`, cell (i, j) holds v, every other cell is as before and the dimensions are unchanged |
| Board.CopyRows | main.js:84 | copying every row with `slice()` gives the same rows |
| Board.Copy | main.js:82-86 | the copy has the same dimensions and the same cells as the original |
| Board.SetOnCopyLeavesOriginal | main.js:82-86 | writing into a copy gives the written value at that cell and leaves the original board as it was |
| Board.EmptyInRow | main.js:33-37 | the inner loop of `zeroes` over row i from column j lists each empty cell of that stretch exactly once and nothing else |
| Board.EmptyFrom | main.js:32-38 | the scan of rows i onward lists every empty cell of those rows exactly once and no other coordinate |
| Board.EmptyCells | main.js:30-38 | the row-major scan lists every empty cell exactly once and no other coordinate |
| Board.Zeroes | main.js:30-41 | `zeroes` returns every empty cell exactly once and no other coordinate, for any shuffle draws |
| Board.RowsFull | main.js:137 | the outer `every` is true exactly when no cell of any row is empty |
| Board.Full | main.js:137 | the full-board test is true exactly when no cell is empty |
| Board.RowFull | main.js:137 | `row.every(val => val !== 0)` is true exactly when no cell of the row is empty |
| Board.FullIffNoEmptyCells | main.js:137 | the board is full exactly when `zeroes` would return no cell |
| Lines.Column | main.js:3 | `rows.map(row => row[c])` has one entry per row, entry r being `rows[r][c]` |
| Lines.Zip | main.js:3 | `zip` gives one column per entry of the first row, each as long as the row list, with `cols[c][r] == rows[r][c]` |
| Lines.ZipTwice | main.js:3 | transposing a rectangular grid twice gives the grid back |
| Lines.Rows | main.js:51-53 | `iterRows` yields R lines of length C whose entries are the board's cells |
| Lines.Cols | main.js:55-57 | `iterCols` yields C lines of length R with `cols[c][r]` the cell at (r, c) |
| Lines.SegmentFrom | main.js:63-67 | the inner loop from row i collects as many cells as there are in-bounds rows between max(i, x − C + 1) and min(R − 1, x) |
| Lines.SegmentFromEntry | main.js:63-67 | item k of the inner loop is the cell at row lo + k, column x − lo − k, and that cell is on the board |
| Lines.Segment | main.js:62-68 | diagonal x has as many items as in-bounds cells with row + col == x |
| Lines.SegmentEntry | main.js:62-68 | item i of diagonal x is the board cell at row DiagLo(x) + i with row + col == x |
| Lines.DiagsFromEntry | main.js:61-69 | iteration k of the outer loop pushes diagonal x + k |
| Lines.DiagsFrom | main.js:61-69 | the outer loop run n times from diagonal x pushes n segments |
| Lines.GetDiag | main.js:59-71 | `_getDiag(b, minSize)` returns max(0, R + C − 2·minSize + 1) segments, entry k being diagonal minSize − 1 + k |
| Lines.Diag1 | main.js:73-75 | `iterDiag1` has max(0, R + C − 2·minSize + 1) entries and entry k has as many cells as diagonal minSize − 1 + k |
| Lines.Diag1Entry | main.js:73-75 | position i of entry k of `iterDiag1` is the board's value at an on-board cell with row + col == minSize − 1 + k |
| Lines.Reverse | main.js:78 | `slice().reverse()` gives a row of the same length with `rev[j] == row[len − 1 − j]` |
| Lines.Flip | main.js:78 | the mirrored board has the same shape with `flipped[r][c] == cells[r][C − 1 − c]` |
| Lines.Diag2 | main.js:77-80 | `iterDiag2` has the same count and segment lengths as `iterDiag1` |
| Lines.Diag2Entry | main.js:77-80 | position i of entry k of `iterDiag2` is the board's value at an on-board cell with row − col == minSize − 1 + k − (C − 1) |
| Lines.Diag1Partition | main.js:73-75 | with minSize 1 every cell is on exactly one (diagonal, position) pair of `iterDiag1`, and shows its own value there |
| Lines.Diag2Partition | main.js:77-80 | with minSize 1 every cell is on exactly one (diagonal, position) pair of `iterDiag2`, on diagonal row − col + C − 1, and shows its own value there |
| Lines.SquareSegmentsLongEnough | main.js:61 | on a square board the index filter is a length filter: every kept segment has at least minSize cells and every diagonal with at least minSize cells is kept |
| Lines.ShortSegmentOnWideBoard | main.js:61-66 | on a 2 × 5 board, minSize 3 still keeps diagonal x = 2, which has only the cells (0, 2) and (1, 1) |
| Game.AllLines | main.js:131 | isEnd scans R + C + 2·max(0, R + C − 5) lines |
| Game.AllLinesRow | main.js:131 | the first R scanned lines are the rows |
| Game.AllLinesCol | main.js:131 | the next C scanned lines are the columns |
| Game.AllLinesDiag1 | main.js:131 | the next block of lines is `iterDiag1(3)` in order |
| Game.AllLinesDiag2 | main.js:131 | the last block of lines is `iterDiag2(3)` in order |
| Game.AllLinesNonEmpty | main.js:131-133 | every scanned line has a first cell `a[0]` |
| Game.FirstWinner | main.js:131-136 | a winner is reported exactly when some scanned line is uniform and not empty, and it is the mark of the first such line |
| Game.IsEndReportsFirstLine | main.js:131-134 | the reported winner is the mark of the first winning line in scan order: rows, then columns, then the two diagonal families |
| Game.WinningLinesAreWins | main.js:131-134 | a uniform non-empty scanned line is a win of its mark, and every win of a mark shows up as such a line |
| Game.IsEnd | main.js:130-138 | a winner is reported exactly when some mark fills a whole row, column or kept diagonal, and then the game is over; with no winner the game is over exactly when no cell is empty |
| Game.EmptyBoardIsOpen | main.js:130-138 | on a freshly created board isEnd reports no winner and not ended |
| Game.NoWinOnEmptyBoard | main.js:131-134 | on a board with every cell empty no line passes the `a[0] !== 0` test, so no mark wins |
| Game.ShortDiagonalWinsOnWideBoard | main.js:130-138 | on a 2 × 5 board two human marks on the kept 2-cell diagonal end the game as a human win, with utility 1 for the human |
| Game.Utility | main.js:144-155 | the utility is in {−1, 0, 1}; it is 1 exactly when isEnd reports `player` as the winner and −1 exactly when it reports another mark; 0 exactly when no mark wins; so 1 whenever `player` is the only winner |
| Game.PlayerMove | main.js:211-221 | the move is played exactly when (x, y) is among the valid inputs; it then marks that cell for the human and nothing else |
| Game.PlayRemovesOneEmptyCell | main.js:221 | marking an empty cell removes exactly that cell from the empty cells, one fewer in all |
| Search.ValidInputs | main.js:140-142 | the candidates are every empty cell exactly once and nothing else |
| Search.CandidatesDistinct | main.js:140-142 | no candidate appears twice in `validInputs` |
| Search.Play | main.js:169-170 | a candidate is played on a copy: the child differs from the board only at that cell, which holds the mover's mark |
| Search.OpenBoardHasMove | main.js:137 | a board isEnd does not call over has an empty cell, so minimax always has a candidate to try |
| Search.Expand | main.js:157-172 | the tree is a leaf exactly at depth 0 or on an ended board, holding the computer's utility; otherwise a node trying the candidates of `validInputs` in order |
| Search.Child | main.js:169-172 | the subtree after a move is a leaf exactly when one ply of depth was left or the move ends the game, and otherwise tries the candidates of the new board |
| Search.Branches | main.js:164-172 | one branch per candidate, in order, branch k playing candidate k and holding a scored subtree |
| Search.Grow | main.js:164-172 | an inner node has one branch per candidate, in the order `validInputs` returns them |
| Search.Scan | main.js:164-187 | the loop's best move, once set, is a candidate of the node, and its score is in {−1, 0, 1}; on a non-empty node a move is always chosen |
| Search.Prune | main.js:157-188 | at a leaf the search returns no move and the leaf's utility; at an inner node it returns a candidate and a score in {−1, 0, 1} |
| Search.Minimax | main.js:157-188 | the score is in {−1, 0, 1}; no move is returned exactly at depth 0 or on an ended board, and then the score is the computer's utility; otherwise the move is an empty cell of the board |
| Search.BestMove | main.js:229 | the computer's search proposes a move exactly when the depth is positive and the game is not over, and the move is an empty cell |
| Reference.Optimum | main.js:161-177 | the best of a list is the sentinel when the list is empty and a score when the list holds scores |
| Reference.OptimumIsBest | main.js:174-177 | no entry beats the best, and a non-empty list of scores attains it |
| Reference.Value | main.js:157-188 | the unpruned minimax value is always in {−1, 0, 1} |
| Reference.BestIsBest | main.js:174-177 | the best child value bounds every candidate's value and is attained by one of them |
| Reference.BestSameElements | main.js:164 | the best child value depends only on which candidates are tried, not on their order |
| AlphaBeta.PruneWindow | main.js:157-188 | fail-soft guarantee: for any window −2 ≤ alpha < beta ≤ 2, the search score equals the true value inside the window and lies between the bound and the value outside it |
| AlphaBeta.ScanWindow | main.js:164-187 | the loop keeps the fail-soft guarantee for the better of the best score so far and the value of the remaining branches |
| AlphaBeta.RootScanChoosesItsScore | main.js:174-177 | in the computer's root loop the chosen move leads to a subtree whose value is exactly the returned score |
| AlphaBeta.RootScanFirst | main.js:174-177 | the root loop switches only on a strict improvement, so the chosen branch is the first one whose value reaches the returned score |
| AlphaBeta.ExpandValue | main.js:157-172 | the tree the search walks has the unpruned minimax value of its board |
| AlphaBeta.GrowValue | main.js:164-186 | an inner node's unpruned value is the best child value over the empty cells in row-major order, whatever order the shuffle tried them in |
| AlphaBeta.ScanIsOptimum | main.js:164-186 | a node whose branch values are vs scans to the best of vs |
| AlphaBeta.RootScoreIsValue | main.js:157-188 | called with the default window (−2, 2), minimax returns the unpruned minimax value |
| AlphaBeta.ScoreIndependentOfOrder | main.js:157-188 | the root score is the same for any two shuffle outcomes |
| AlphaBeta.BestMoveIsOptimal | main.js:229 | the move the computer plays has the minimax value of the board |
| AlphaBeta.BestMoveIsFirstOptimal | main.js:164-177 | among the moves that attain the minimax value, the computer plays the first one `validInputs` returned: every earlier candidate has a strictly smaller value |

## Left out

- The DOM and UI code is not modelled: the `Game` constructor's button
  lookup, `initialize`, `checkEnd`, the rendering in `playerMove` and
  `opponentMove`, `console.log` and `setTimeout`. It is plumbing around
  `isEnd` and `minimax` with no pure behaviour of its own.
- `Math.random` becomes an explicit input: the `draw` function of the
  shuffle and the path-keyed `Rng` of the search.
- The random choice of who moves first is left out. It only decides
  whether `opponentMove` runs once at the start.
- The `"i-j"` string encoding of coordinates and its `parseInt`
  decoding are replaced by a `Move(row, col)` datatype. This is a
  serialisation detail.
- Object identity and aliasing of the JavaScript arrays are left out.
  Boards are values, so `copy` is the identity on values, and a search
  can never modify its input board.
- The fixed 3 × 3 grid and search depth 6 of the `Game` constructor are
  parameters here. Every result holds for any positive dimensions and
  any depth.
- No concrete full-depth 3 × 3 position is evaluated: its game tree is
  far too large to unfold in the verifier. The general results
  `AlphaBeta.BestMoveIsOptimal` and `AlphaBeta.BestMoveIsFirstOptimal`
  hold for every position.
- Search.Minimax: not written as one recursive method with a loop. It
  is the composition of `Expand` (the tree walk) and `Prune` (the loop).
  The two agree with the source's interleaved evaluation because both
  are pure and the draws are keyed by node.
