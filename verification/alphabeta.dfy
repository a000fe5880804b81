/**
  Alpha-beta pruning in `Search.Minimax` does not change the answer: with
  the root window (-2, 2) its score is the plain minimax value of
  `Reference.Value`, whatever order the shuffle puts the candidates in, and
  the move it returns is one that attains that value.
 */
module AlphaBeta {
  import opened Options
  import opened Board
  import opened Lines
  import opened Game
  import opened Search
  import opened Reference

  /** The minimax value of a tree, without pruning. */
  function TreeValue(t: Tree, maximizing: bool): (v: int)
    ensures Scored(t) ==> IsScore(v)
    decreases t, 1
  {
    match t
    case Leaf(s) => s
    case Node(_) => ScanValue(t, 0, maximizing)
  }

  /** The best value of the branches from `i` on, the sentinel when there
      are none; it is never worse than the sentinel. */
  function ScanValue(t: Tree, i: nat, maximizing: bool): (v: int)
    requires t.Node? && i <= |t.branches|
    ensures Prefer(maximizing, Sentinel(maximizing), v) == v
    ensures Scored(t) && i < |t.branches| ==> IsScore(v)
    decreases t, 0, |t.branches| - i
  {
    if i == |t.branches| then Sentinel(maximizing)
    else Prefer(maximizing, TreeValue(t.branches[i].tree, !maximizing), ScanValue(t, i + 1, maximizing))
  }

  /** The fail-soft alpha-beta guarantee relating a search result `r` to the
      true value `v` for the window (a, b): exact inside the window, and on
      the correct side of it (and no further out than `v`) outside. */
  predicate Window(r: int, v: int, a: int, b: int)
  {
    && (v <= a ==> v <= r <= a)
    && (a < v < b ==> r == v)
    && (b <= v ==> b <= r <= v)
  }

  /** Every search within a proper window meets the window guarantee. */
  lemma {:induction false} PruneWindow(t: Tree, alpha: int, beta: int, maximizing: bool)
    requires -2 <= alpha < beta <= 2
    ensures Window(Prune(t, alpha, beta, maximizing).score, TreeValue(t, maximizing), alpha, beta)
    decreases t, 1
  {
    if t.Node? {
      ScanWindow(t, 0, alpha, beta, maximizing, Result(None, Sentinel(maximizing)));
    }
  }

  /** The loop meets the window guarantee for the better of the best so far
      and the best remaining branch. For the maximiser the best so far is at
      most alpha; for the minimiser it is at least beta. */
  lemma {:induction false} ScanWindow(t: Tree, i: nat, alpha: int, beta: int, maximizing: bool, best: Result)
    requires t.Node? && i <= |t.branches|
    requires LoopState(t, maximizing, best)
    requires -2 <= alpha < beta <= 2
    requires if maximizing then -2 <= best.score <= alpha else beta <= best.score <= 2
    ensures Window(Scan(t, i, alpha, beta, maximizing, best).score,
                   Prefer(maximizing, best.score, ScanValue(t, i, maximizing)), alpha, beta)
    decreases t, 0, |t.branches| - i
  {
    if i < |t.branches| {
      var b := t.branches[i];
      PruneWindow(b.tree, alpha, beta, !maximizing);
      var u := Prune(b.tree, alpha, beta, !maximizing).score;
      var best' := if (maximizing && u > best.score) || (!maximizing && u < best.score)
                   then Result(Some(b.move), u) else best;
      var alpha' := if maximizing && u > alpha then u else alpha;
      var beta' := if !maximizing && u < beta then u else beta;
      assert Moves(t)[i] == b.move;
      if beta' > alpha' {
        ScanWindow(t, i + 1, alpha', beta', maximizing, best');
      }
      var c := TreeValue(b.tree, !maximizing);
      var rest := ScanValue(t, i + 1, maximizing);
      assert ScanValue(t, i, maximizing) == Prefer(maximizing, c, rest);
      StepWindow(maximizing, best.score, alpha, beta, u, c, rest, Scan(t, i, alpha, beta, maximizing, best).score);
    }
  }

  /** One iteration of the loop keeps the window guarantee: `u` is the
      child's search score for value `c`, `rest` the value of the remaining
      branches, and `r` what the loop returns after this iteration. */
  lemma StepWindow(maximizing: bool, b: int, alpha: int, beta: int, u: int, c: int, rest: int, r: int)
    requires -2 <= alpha < beta <= 2
    requires if maximizing then b <= alpha else beta <= b
    requires Window(u, c, alpha, beta)
    requires var b' := if (maximizing && u > b) || (!maximizing && u < b) then u else b;
             var alpha' := if maximizing && u > alpha then u else alpha;
             var beta' := if !maximizing && u < beta then u else beta;
             (beta' <= alpha' ==> r == b') && (beta' > alpha' ==> Window(r, Prefer(maximizing, b', rest), alpha', beta'))
    ensures Window(r, Prefer(maximizing, b, Prefer(maximizing, c, rest)), alpha, beta)
  {
  }

  /** Branch `m` of `t` leads to a subtree of value `v` for the minimiser. */
  predicate Attains(t: Tree, m: Move, v: int)
    requires t.Node?
  {
    exists k :: 0 <= k < |t.branches| && t.branches[k].move == m && TreeValue(t.branches[k].tree, false) == v
  }

  /** In the root loop of the computer's search (alpha equal to the best
      score, beta 2) nothing is pruned, and the chosen move's subtree has
      exactly the returned score as its value. */
  lemma {:induction false} RootScanChoosesItsScore(t: Tree, i: nat, best: Result)
    requires t.Node? && Scored(t) && i <= |t.branches|
    requires LoopState(t, true, best)
    requires best.move.Some? ==> Attains(t, best.move.value, best.score)
    ensures var r := Scan(t, i, best.score, 2, true, best);
            r.move.Some? ==> Attains(t, r.move.value, r.score)
    decreases |t.branches| - i
  {
    if i < |t.branches| {
      var b := t.branches[i];
      assert Scored(b.tree);
      PruneWindow(b.tree, best.score, 2, false);
      var u := Prune(b.tree, best.score, 2, false).score;
      assert Moves(t)[i] == b.move;
      if u > best.score {
        assert Attains(t, b.move, u);
        RootScanChoosesItsScore(t, i + 1, Result(Some(b.move), u));
      } else {
        RootScanChoosesItsScore(t, i + 1, best);
      }
    }
  }

  /** Branch `c` is the first branch of `t` whose value for the minimiser
      reaches `v`, and it plays `m`. */
  predicate FirstAt(t: Tree, c: int, m: Move, v: int)
    requires t.Node?
  {
    && 0 <= c < |t.branches| && t.branches[c].move == m && TreeValue(t.branches[c].tree, false) == v
    && forall j :: 0 <= j < c ==> TreeValue(t.branches[j].tree, false) < v
  }

  /** The branches before `i` all have a value of at most `v`. */
  predicate NoneAbove(t: Tree, i: int, v: int)
    requires t.Node? && 0 <= i <= |t.branches|
  {
    forall j :: 0 <= j < i ==> TreeValue(t.branches[j].tree, false) <= v
  }

  /** In a root window (a, 2) a child's search score above a is its value,
      and one at most a means the value is at most a too. */
  lemma RootStep(u: int, v: int, a: int)
    requires -2 <= a < 2 && Window(u, v, a, 2) && IsScore(v)
    ensures u > a ==> v == u
    ensures u <= a ==> v <= a
  {
  }

  /** The root loop switches its move only on a strict improvement, so it
      ends on the first branch that attains its score: every branch before
      the chosen one has a strictly smaller value. */
  lemma {:induction false} RootScanFirst(t: Tree, i: nat, best: Result)
    requires t.Node? && Scored(t) && i <= |t.branches|
    requires LoopState(t, true, best)
    requires NoneAbove(t, i, best.score)
    requires best.move.Some? ==> exists c :: c < i && FirstAt(t, c, best.move.value, best.score)
    ensures var r := Scan(t, i, best.score, 2, true, best);
            r.move.Some? ==> exists c :: FirstAt(t, c, r.move.value, r.score)
    decreases |t.branches| - i
  {
    if i < |t.branches| {
      var b := t.branches[i];
      assert Scored(b.tree);
      PruneWindow(b.tree, best.score, 2, false);
      var u := Prune(b.tree, best.score, 2, false).score;
      var v := TreeValue(b.tree, false);
      RootStep(u, v, best.score);
      assert Moves(t)[i] == b.move;
      if u > best.score {
        assert v == u;
        assert FirstAt(t, i, b.move, u);
        RootScanFirst(t, i + 1, Result(Some(b.move), u));
      } else {
        assert v <= best.score;
        assert NoneAbove(t, i + 1, best.score);
        if best.move.Some? {
          var c :| c < i && FirstAt(t, c, best.move.value, best.score);
          assert c < i + 1;
        }
        RootScanFirst(t, i + 1, best);
      }
    } else if best.move.Some? {
      var c :| c < i && FirstAt(t, c, best.move.value, best.score);
    }
  }

  /** The expanded tree has the plain minimax value of its board. */
  lemma {:induction false} ExpandValue(g: GameBoard, depth: nat, maximizing: bool, rng: Rng, path: seq<Move>)
    requires Valid(g)
    ensures TreeValue(Expand(g, depth, maximizing, rng, path), maximizing) == Value(g, depth, maximizing)
    decreases depth, 2, 0
  {
    if depth > 0 && !IsEnd(g).ended {
      OpenBoardHasMove(g);
      GrowValue(g, depth, maximizing, rng, path);
    }
  }

  lemma {:induction false} GrowValue(g: GameBoard, depth: nat, maximizing: bool, rng: Rng, path: seq<Move>)
    requires Valid(g) && depth > 0 && exists m :: IsEmptyAt(g, m)
    ensures TreeValue(Grow(g, depth, maximizing, rng, path), maximizing) == Best(g, EmptyCells(g), depth, maximizing)
    decreases depth, 1, 0
  {
    var ms := ValidInputs(g, rng, path);
    var t := Grow(g, depth, maximizing, rng, path);
    forall k | 0 <= k < |ms|
      ensures InBounds(g, ms[k])
    {
      assert IsEmptyAt(g, ms[k]);
    }
    var vs := Values(g, ms, depth, maximizing);
    forall k | 0 <= k < |ms|
      ensures TreeValue(t.branches[k].tree, !maximizing) == vs[k]
    {
      BranchShape(g, depth, maximizing, rng, path, k);
      ChildTreeValue(g, ms[k], depth - 1, maximizing, rng, path);
    }
    ScanIsOptimum(t, vs, maximizing, 0);
    assert vs[0..] == vs;
    ShuffledBest(g, depth, maximizing, rng, path);
  }

  /** A node whose branch values are `vs`, in order, scans to the optimum
      of `vs`. */
  lemma {:induction false} ScanIsOptimum(t: Tree, vs: seq<int>, maximizing: bool, i: nat)
    requires t.Node? && |t.branches| == |vs| && i <= |vs|
    requires forall k :: 0 <= k < |vs| ==> TreeValue(t.branches[k].tree, !maximizing) == vs[k]
    ensures ScanValue(t, i, maximizing) == Optimum(maximizing, vs[i..])
    decreases |vs| - i
  {
    if i < |vs| {
      ScanIsOptimum(t, vs, maximizing, i + 1);
      assert vs[i..][1..] == vs[i + 1..];
    }
  }

  /** Trying the empty cells in the shuffled order gives the same best value
      as trying them in row-major order. */
  lemma ShuffledBest(g: GameBoard, depth: nat, maximizing: bool, rng: Rng, path: seq<Move>)
    requires Valid(g) && depth > 0
    ensures Best(g, ValidInputs(g, rng, path), depth, maximizing) == Best(g, EmptyCells(g), depth, maximizing)
  {
    var ms := ValidInputs(g, rng, path);
    var es := EmptyCells(g);
    assert forall m :: m in ms <==> m in es;
    BestSameElements(g, ms, es, depth, maximizing);
  }

  /** Branch `i` of the expanded node plays the `i`-th candidate and
      holds the subtree after it. */
  lemma BranchShape(g: GameBoard, depth: nat, maximizing: bool, rng: Rng, path: seq<Move>, i: nat)
    requires Valid(g) && depth > 0 && exists m :: IsEmptyAt(g, m)
    requires i < |ValidInputs(g, rng, path)|
    ensures var m := ValidInputs(g, rng, path)[i];
            IsEmptyAt(g, m)
            && Grow(g, depth, maximizing, rng, path).branches[i] == Branch(m, Child(g, m, depth, maximizing, rng, path))
  {
    var ms := ValidInputs(g, rng, path);
    assert IsEmptyAt(g, ms[i]);
  }

  /** The subtree after `m` has the value of playing `m`. The depth is
      written `d + 1` because the child is searched `d` plies deep. */
  lemma {:induction false} ChildTreeValue(g: GameBoard, m: Move, d: nat, maximizing: bool, rng: Rng, path: seq<Move>)
    requires Valid(g) && IsEmptyAt(g, m)
    ensures TreeValue(Child(g, m, d + 1, maximizing, rng, path), !maximizing) == ChildValue(g, m, d + 1, maximizing)
    decreases d + 1, 0, 0
  {
    ExpandValue(Play(g, m, Mark(maximizing)), d, !maximizing, rng, path + [m]);
  }

  /** With the root window (-2, 2) the search score is the minimax value. */
  lemma RootScoreIsValue(g: GameBoard, depth: nat, maximizing: bool, rng: Rng, path: seq<Move>)
    requires Valid(g)
    ensures Minimax(g, depth, -2, 2, maximizing, rng, path).score == Value(g, depth, maximizing)
  {
    PruneWindow(Expand(g, depth, maximizing, rng, path), -2, 2, maximizing);
    ExpandValue(g, depth, maximizing, rng, path);
  }

  /** The shuffle order does not change the score of a root search. */
  lemma ScoreIndependentOfOrder(g: GameBoard, depth: nat, maximizing: bool, rng1: Rng, rng2: Rng)
    requires Valid(g)
    ensures Minimax(g, depth, -2, 2, maximizing, rng1, []).score == Minimax(g, depth, -2, 2, maximizing, rng2, []).score
  {
    RootScoreIsValue(g, depth, maximizing, rng1, []);
    RootScoreIsValue(g, depth, maximizing, rng2, []);
  }

  /** The move `opponentMove` plays attains the minimax value of the board. */
  lemma BestMoveIsOptimal(g: GameBoard, depth: nat, rng: Rng)
    requires Valid(g)
    ensures var m := BestMove(g, depth, rng);
            m.Some? ==> ChildValue(g, m.value, depth, true) == Value(g, depth, true)
  {
    RootScoreIsValue(g, depth, true, rng, []);
    if depth > 0 && !IsEnd(g).ended {
      OpenBoardHasMove(g);
      var t := Grow(g, depth, true, rng, []);
      var ms := ValidInputs(g, rng, []);
      RootScanChoosesItsScore(t, 0, Result(None, Sentinel(true)));
      var r := Prune(t, -2, 2, true);
      var k :| 0 <= k < |t.branches| && t.branches[k].move == r.move.value
               && TreeValue(t.branches[k].tree, false) == r.score;
      BranchShape(g, depth, true, rng, [], k);
      ChildTreeValue(g, ms[k], depth - 1, true, rng, []);
    }
  }

  /** When the computer has a move, the root search is the pruned scan of
      the grown root node, and its score is the board's minimax value. */
  lemma RootFacts(g: GameBoard, depth: nat, rng: Rng)
    requires Valid(g) && BestMove(g, depth, rng).Some?
    ensures depth > 0 && exists m :: IsEmptyAt(g, m)
    ensures BestMove(g, depth, rng) == Prune(Grow(g, depth, true, rng, []), -2, 2, true).move
    ensures Value(g, depth, true) == Prune(Grow(g, depth, true, rng, []), -2, 2, true).score
  {
    RootScoreIsValue(g, depth, true, rng, []);
    OpenBoardHasMove(g);
  }

  /** The root branch that plays candidate c is branch c. */
  lemma ChosenIndex(g: GameBoard, depth: nat, rng: Rng, k: nat, c: nat)
    requires Valid(g) && depth > 0 && exists m :: IsEmptyAt(g, m)
    requires k < |ValidInputs(g, rng, [])| && c < |ValidInputs(g, rng, [])|
    requires Grow(g, depth, true, rng, []).branches[k].move == ValidInputs(g, rng, [])[c]
    ensures k == c
  {
    BranchShape(g, depth, true, rng, [], k);
    if k < c {
      CandidatesDistinct(g, rng, [], k, c);
    } else if c < k {
      CandidatesDistinct(g, rng, [], c, k);
    }
  }

  /** Root branch j holds the value of playing candidate j. */
  lemma EarlierBranch(g: GameBoard, d: nat, rng: Rng, j: nat)
    requires Valid(g) && exists m :: IsEmptyAt(g, m)
    requires j < |ValidInputs(g, rng, [])|
    ensures TreeValue(Grow(g, d + 1, true, rng, []).branches[j].tree, false)
            == ChildValue(g, ValidInputs(g, rng, [])[j], d + 1, true)
  {
    BranchShape(g, d + 1, true, rng, [], j);
    ChildTreeValue(g, ValidInputs(g, rng, [])[j], d, true, rng, []);
  }

  /** Among the moves that attain the minimax value, `opponentMove` plays
      the first one `validInputs` returned: every candidate before it has
      a strictly worse value for the computer. */
  lemma BestMoveIsFirstOptimal(g: GameBoard, depth: nat, rng: Rng, c: nat)
    requires Valid(g)
    requires c < |ValidInputs(g, rng, [])|
    requires BestMove(g, depth, rng) == Some(ValidInputs(g, rng, [])[c])
    ensures forall j :: 0 <= j < c ==>
              ChildValue(g, ValidInputs(g, rng, [])[j], depth, true) < Value(g, depth, true)
  {
    RootFacts(g, depth, rng);
    var t := Grow(g, depth, true, rng, []);
    var ms := ValidInputs(g, rng, []);
    RootScanFirst(t, 0, Result(None, Sentinel(true)));
    var r := Prune(t, -2, 2, true);
    var k :| FirstAt(t, k, r.move.value, r.score);
    ChosenIndex(g, depth, rng, k, c);
    forall j | 0 <= j < c
      ensures ChildValue(g, ms[j], depth, true) < Value(g, depth, true)
    {
      EarlierBranch(g, depth - 1, rng, j);
    }
  }
}
