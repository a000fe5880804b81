/**
  `Game.minimax` of main.js: depth-bounded, fail-soft alpha-beta search.
  The computer (Opponent) maximises and the human (Player) minimises the
  computer's utility.

  The model splits the source's single recursive method in two: `Expand`
  unfolds the board into the game tree minimax walks (leaf test, utility,
  shuffled candidates, copy-and-set for each child), and `Prune` is the
  alpha-beta loop over that tree. `Minimax` composes them. As pure
  functions the two orders of evaluation give the same result; the random
  draws are keyed by the node (see `Rng`), so they do not depend on which
  nodes the pruning visits either.
 */
module Search {
  import opened Options
  import opened Board
  import opened Shuffling
  import opened Game

  /** The random draws: rng(path, i) is the index drawn at shuffle step i at
      the node reached from the root by the moves in `path`. Every node of a
      search is reached by a different path, so this covers every sequence
      of draws the source can make. */
  type Rng = (seq<Move>, nat) -> nat

  /** minimax's pair: the best move (null at a leaf) and its score. */
  datatype Result = Result(move: Option<Move>, score: int)

  /** The game tree below a position: a leaf holds the computer's utility, a
      node one branch per candidate move, in the order they are tried. */
  datatype Tree = Leaf(score: int) | Node(branches: seq<Branch>)
  datatype Branch = Branch(move: Move, tree: Tree)

  /** The mark the side to move places. */
  function Mark(maximizing: bool): (c: Cell)
  {
    if maximizing then Opponent else Player
  }

  /** The starting best score: below every utility for the maximiser,
      above every utility for the minimiser. */
  function Sentinel(maximizing: bool): (s: int)
  {
    if maximizing then -2 else 2
  }

  predicate IsScore(s: int)
  {
    -1 <= s <= 1
  }

  /** The moves a node tries, in order. */
  function Moves(t: Tree): (ms: seq<Move>)
    requires t.Node?
    ensures |ms| == |t.branches|
    ensures forall k :: 0 <= k < |ms| ==> ms[k] == t.branches[k].move
  {
    seq(|t.branches|, k requires 0 <= k < |t.branches| => t.branches[k].move)
  }

  /** Every leaf holds a utility and every node has something to try. */
  predicate Scored(t: Tree)
  {
    match t
    case Leaf(s) => IsScore(s)
    case Node(bs) => |bs| > 0 && forall k :: 0 <= k < |bs| ==> Scored(bs[k].tree)
  }

  /** `validInputs(state)` at the node reached by `path`: the shuffled empty
      cells, each exactly once. */
  function ValidInputs(g: GameBoard, rng: Rng, path: seq<Move>): (ms: seq<Move>)
    requires Valid(g)
    ensures forall m :: multiset(ms)[m] == (if IsEmptyAt(g, m) then 1 else 0)
    ensures forall m :: m in ms <==> IsEmptyAt(g, m)
  {
    Zeroes(g, (i: nat) => rng(path, i))
  }

  /** No candidate is tried twice: distinct positions hold distinct cells. */
  lemma CandidatesDistinct(g: GameBoard, rng: Rng, path: seq<Move>, i: nat, j: nat)
    requires Valid(g)
    requires i < j < |ValidInputs(g, rng, path)|
    ensures ValidInputs(g, rng, path)[i] != ValidInputs(g, rng, path)[j]
  {
    var ms := ValidInputs(g, rng, path);
    assert ms == ms[..j] + ms[j..];
    assert ms[i] in ms[..j] && ms[j] in ms[j..];
    assert multiset(ms)[ms[i]] == multiset(ms[..j])[ms[i]] + multiset(ms[j..])[ms[i]];
  }

  /** `tState = state.copy(); tState.set(i, j, mark)`. */
  function Play(g: GameBoard, m: Move, v: Cell): (h: GameBoard)
    requires Valid(g) && InBounds(g, m)
    ensures Changes(g, h, m, v)
  {
    var t := Copy(g);
    Set(t, m.row, m.col, v)
  }

  /** A board that is not over still has an empty cell to play. */
  lemma OpenBoardHasMove(g: GameBoard)
    requires Valid(g) && !IsEnd(g).ended
    ensures exists m :: IsEmptyAt(g, m)
  {
    var i, j :| 0 <= i < g.rows && 0 <= j < g.cols && g.cells[i][j] == Empty;
    assert IsEmptyAt(g, Move(i, j));
  }

  /** The tree minimax explores from `g`: a leaf with the computer's utility
      once the depth is spent or the game is over, otherwise a node (see
      `Grow`). */
  function Expand(g: GameBoard, depth: nat, maximizing: bool, rng: Rng, path: seq<Move>): (t: Tree)
    requires Valid(g)
    ensures Scored(t)
    ensures t.Leaf? <==> depth == 0 || IsEnd(g).ended
    ensures t.Leaf? ==> t.score == Utility(g, Opponent)
    ensures t.Node? ==> Moves(t) == ValidInputs(g, rng, path)
    decreases depth, 3
  {
    if depth == 0 || IsEnd(g).ended then Leaf(Utility(g, Opponent))
    else
      OpenBoardHasMove(g);
      Grow(g, depth, maximizing, rng, path)
  }

  /** The node for a position with an empty cell: one branch per empty
      cell, in the shuffled order of `validInputs`. */
  function Grow(g: GameBoard, depth: nat, maximizing: bool, rng: Rng, path: seq<Move>): (t: Tree)
    requires Valid(g) && depth > 0 && exists m :: IsEmptyAt(g, m)
    ensures Scored(t)
    ensures t.Node? && Moves(t) == ValidInputs(g, rng, path)
    decreases depth, 2
  {
    var ms := ValidInputs(g, rng, path);
    var t := Node(Branches(g, ms, depth, maximizing, rng, path));
    assert Moves(t) == ms;
    t
  }

  /** One branch per candidate, in order, each holding the subtree after
      that move. */
  function Branches(g: GameBoard, ms: seq<Move>, depth: nat, maximizing: bool, rng: Rng, path: seq<Move>)
    : (bs: seq<Branch>)
    requires Valid(g) && depth > 0
    requires forall k :: 0 <= k < |ms| ==> IsEmptyAt(g, ms[k])
    ensures |bs| == |ms|
    ensures forall k :: 0 <= k < |bs| ==> bs[k].move == ms[k] && Scored(bs[k].tree)
    decreases depth, 1
  {
    seq(|ms|, k requires 0 <= k < |ms| => Branch(ms[k], Child(g, ms[k], depth, maximizing, rng, path)))
  }

  /** The subtree after the side to move plays `m`. */
  function Child(g: GameBoard, m: Move, depth: nat, maximizing: bool, rng: Rng, path: seq<Move>): (t: Tree)
    requires Valid(g) && IsEmptyAt(g, m) && depth > 0
    ensures Scored(t)
    ensures t.Leaf? <==> depth == 1 || IsEnd(Play(g, m, Mark(maximizing))).ended
    ensures t.Node? ==> Moves(t) == ValidInputs(Play(g, m, Mark(maximizing)), rng, path + [m])
    decreases depth, 0
  {
    Expand(Play(g, m, Mark(maximizing)), depth - 1, !maximizing, rng, path + [m])
  }

  /** The state of minimax's loop is sound: either nothing has been chosen
      yet and the score is the sentinel, or the chosen move is one the node
      tries and, on a scored tree, the score is a utility. */
  predicate LoopState(t: Tree, maximizing: bool, best: Result)
    requires t.Node?
  {
    if best.move.None? then best.score == Sentinel(maximizing)
    else best.move.value in Moves(t) && (Scored(t) ==> IsScore(best.score))
  }

  /** The alpha-beta search of a tree: a leaf's score, or the outcome of
      the loop over the node's branches. */
  function Prune(t: Tree, alpha: int, beta: int, maximizing: bool): (r: Result)
    ensures t.Leaf? ==> r.move.None? && r.score == t.score
    ensures t.Node? ==> LoopState(t, maximizing, r)
    ensures t.Node? && Scored(t) ==> r.move.Some?
    ensures Scored(t) ==> IsScore(r.score)
    decreases t, 1, 0
  {
    match t
    case Leaf(s) => Result(None, s)
    case Node(bs) => Scan(t, 0, alpha, beta, maximizing, Result(None, Sentinel(maximizing)))
  }

  /** The `for (cord of validInputs)` loop from branch `i` on, with the
      running alpha, beta and best (move, score). The best changes only on
      a strict improvement; the loop stops once beta <= alpha. */
  function Scan(t: Tree, i: nat, alpha: int, beta: int, maximizing: bool, best: Result): (r: Result)
    requires t.Node? && i <= |t.branches|
    requires LoopState(t, maximizing, best)
    ensures LoopState(t, maximizing, r)
    ensures Scored(t) && i < |t.branches| ==> r.move.Some?
    ensures best.move.Some? ==> r.move.Some?
    decreases t, 0, |t.branches| - i
  {
    if i == |t.branches| then best
    else
      var b := t.branches[i];
      var u := Prune(b.tree, alpha, beta, !maximizing).score;
      var best' := if (maximizing && u > best.score) || (!maximizing && u < best.score)
                   then Result(Some(b.move), u) else best;
      var alpha' := if maximizing && u > alpha then u else alpha;
      var beta' := if !maximizing && u < beta then u else beta;
      if beta' <= alpha' then best'
      else Scan(t, i + 1, alpha', beta', maximizing, best')
  }

  /** `minimax(state, depth, alpha, beta, maximizing)`. At a leaf (depth 0 or
      a finished game) it returns no move and the computer's utility; at any
      other node a move that is an empty cell of the board; the score is
      always in {-1, 0, 1}. */
  function Minimax(g: GameBoard, depth: nat, alpha: int, beta: int, maximizing: bool,
                   rng: Rng, path: seq<Move>): (r: Result)
    requires Valid(g)
    ensures IsScore(r.score)
    ensures r.move.None? <==> depth == 0 || IsEnd(g).ended
    ensures r.move.None? ==> r.score == Utility(g, Opponent)
    ensures r.move.Some? ==> IsEmptyAt(g, r.move.value)
  {
    var t := Expand(g, depth, maximizing, rng, path);
    var r := Prune(t, alpha, beta, maximizing);
    assert t.Node? && r.move.Some? ==> r.move.value in ValidInputs(g, rng, path);
    r
  }

  /** What `opponentMove` asks for: the move of a root search with the
      default window (-2, 2), the computer to move. */
  function BestMove(g: GameBoard, depth: nat, rng: Rng): (m: Option<Move>)
    requires Valid(g)
    ensures m.Some? <==> depth > 0 && !IsEnd(g).ended
    ensures m.Some? ==> IsEmptyAt(g, m.value)
  {
    Minimax(g, depth, -2, 2, true, rng, []).move
  }
}
