/**
  Plain minimax: the value of a position under best play by both sides,
  looking `depth` plies ahead, with no pruning and no particular move
  order. It is the yardstick for `Search.Minimax`.
 */
module Reference {
  import opened Board
  import opened Lines
  import opened Game
  import opened Search

  /** The side to move's preferred of two values. */
  function Prefer(maximizing: bool, x: int, y: int): (p: int)
  {
    if maximizing then Max(x, y) else Min(x, y)
  }

  /** The best of `vs` for the side to move, the sentinel when there is
      nothing to choose from. */
  function Optimum(maximizing: bool, vs: seq<int>): (r: int)
    ensures |vs| == 0 ==> r == Sentinel(maximizing)
    ensures |vs| > 0 && (forall k :: 0 <= k < |vs| ==> IsScore(vs[k])) ==> IsScore(r)
  {
    if |vs| == 0 then Sentinel(maximizing)
    else Prefer(maximizing, vs[0], Optimum(maximizing, vs[1..]))
  }

  /** No entry beats the optimum, and a non-empty sequence of scores
      attains it (the sentinel is beaten by any score). */
  lemma {:induction false} OptimumIsBest(maximizing: bool, vs: seq<int>)
    requires forall k :: 0 <= k < |vs| ==> IsScore(vs[k])
    ensures forall k :: 0 <= k < |vs| ==>
      if maximizing then vs[k] <= Optimum(maximizing, vs) else Optimum(maximizing, vs) <= vs[k]
    ensures |vs| > 0 ==> exists k :: 0 <= k < |vs| && vs[k] == Optimum(maximizing, vs)
  {
    if |vs| > 0 {
      var rest := Optimum(maximizing, vs[1..]);
      OptimumIsBest(maximizing, vs[1..]);
      forall k | 1 <= k < |vs|
        ensures if maximizing then vs[k] <= rest else rest <= vs[k]
      {
        assert vs[k] == vs[1..][k - 1];
      }
      assert Optimum(maximizing, vs) == Prefer(maximizing, vs[0], rest);
      if Optimum(maximizing, vs) != vs[0] {
        assert |vs| > 1;
        var k :| 0 <= k < |vs[1..]| && vs[1..][k] == rest;
        assert vs[k + 1] == Optimum(maximizing, vs);
      }
    }
  }

  /** The minimax value of a position, the computer's utility at a leaf. */
  function Value(g: GameBoard, depth: nat, maximizing: bool): (v: int)
    requires Valid(g)
    ensures IsScore(v)
    decreases depth, 3
  {
    if depth == 0 || IsEnd(g).ended then Utility(g, Opponent)
    else
      OpenBoardHasMove(g);
      Best(g, EmptyCells(g), depth, maximizing)
  }

  /** The best child value over `ms` for the side to move, the sentinel when
      `ms` is empty. */
  function Best(g: GameBoard, ms: seq<Move>, depth: nat, maximizing: bool): (v: int)
    requires Valid(g) && depth > 0
    requires forall k :: 0 <= k < |ms| ==> InBounds(g, ms[k])
    ensures |ms| == 0 ==> v == Sentinel(maximizing)
    ensures |ms| > 0 ==> IsScore(v)
    decreases depth, 2
  {
    Optimum(maximizing, Values(g, ms, depth, maximizing))
  }

  /** The value of each candidate move, in order. */
  function Values(g: GameBoard, ms: seq<Move>, depth: nat, maximizing: bool): (vs: seq<int>)
    requires Valid(g) && depth > 0
    requires forall k :: 0 <= k < |ms| ==> InBounds(g, ms[k])
    ensures |vs| == |ms|
    ensures forall k :: 0 <= k < |ms| ==> vs[k] == ChildValue(g, ms[k], depth, maximizing) && IsScore(vs[k])
    decreases depth, 1
  {
    seq(|ms|, k requires 0 <= k < |ms| => ChildValue(g, ms[k], depth, maximizing))
  }

  /** The value of playing `m` from `g`. */
  function ChildValue(g: GameBoard, m: Move, depth: nat, maximizing: bool): (v: int)
    requires Valid(g) && InBounds(g, m) && depth > 0
    ensures IsScore(v)
    decreases depth, 0
  {
    Value(Play(g, m, Mark(maximizing)), depth - 1, !maximizing)
  }

  /** Best is a best child value: no child beats it, and it is attained by a
      child unless there are none. */
  lemma BestIsBest(g: GameBoard, ms: seq<Move>, depth: nat, maximizing: bool)
    requires Valid(g) && depth > 0
    requires forall k :: 0 <= k < |ms| ==> InBounds(g, ms[k])
    ensures forall m :: m in ms ==>
      if maximizing then ChildValue(g, m, depth, maximizing) <= Best(g, ms, depth, maximizing)
      else Best(g, ms, depth, maximizing) <= ChildValue(g, m, depth, maximizing)
    ensures |ms| > 0 ==> exists m :: m in ms && ChildValue(g, m, depth, maximizing) == Best(g, ms, depth, maximizing)
  {
    var vs := Values(g, ms, depth, maximizing);
    OptimumIsBest(maximizing, vs);
    forall m | m in ms
      ensures if maximizing then ChildValue(g, m, depth, maximizing) <= Best(g, ms, depth, maximizing)
              else Best(g, ms, depth, maximizing) <= ChildValue(g, m, depth, maximizing)
    {
      var k :| 0 <= k < |ms| && ms[k] == m;
      assert vs[k] == ChildValue(g, m, depth, maximizing);
    }
    if |ms| > 0 {
      var k :| 0 <= k < |vs| && vs[k] == Optimum(maximizing, vs);
      assert ms[k] in ms;
    }
  }

  /** Best depends only on which moves are offered, not on their order or
      repetitions. */
  lemma BestSameElements(g: GameBoard, ms: seq<Move>, ns: seq<Move>, depth: nat, maximizing: bool)
    requires Valid(g) && depth > 0
    requires forall k :: 0 <= k < |ms| ==> InBounds(g, ms[k])
    requires forall k :: 0 <= k < |ns| ==> InBounds(g, ns[k])
    requires forall m :: m in ms <==> m in ns
    ensures Best(g, ms, depth, maximizing) == Best(g, ns, depth, maximizing)
  {
    BestCovered(g, ms, ns, depth, maximizing);
    BestCovered(g, ns, ms, depth, maximizing);
  }

  /** When every candidate of `ms` is also in `ns`, the side to move does
      at least as well choosing among `ns`. */
  lemma BestCovered(g: GameBoard, ms: seq<Move>, ns: seq<Move>, depth: nat, maximizing: bool)
    requires Valid(g) && depth > 0
    requires forall k :: 0 <= k < |ms| ==> InBounds(g, ms[k])
    requires forall k :: 0 <= k < |ns| ==> InBounds(g, ns[k])
    requires forall m :: m in ms ==> m in ns
    ensures if maximizing then Best(g, ms, depth, maximizing) <= Best(g, ns, depth, maximizing)
            else Best(g, ns, depth, maximizing) <= Best(g, ms, depth, maximizing)
  {
    if |ms| > 0 {
      assert ms[0] in ns;
      BestIsBest(g, ms, depth, maximizing);
      BestIsBest(g, ns, depth, maximizing);
      var m :| m in ms && ChildValue(g, m, depth, maximizing) == Best(g, ms, depth, maximizing);
      assert m in ns;
    }
  }
}
