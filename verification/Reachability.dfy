/** Reachability in a finite directed graph, and what a depth-first traversal with a visited set finds. */
module Reachability {

  /** Each node with its direct successors; a node that is not a key has none. */
  type Graph = map<string, set<string>>

  function Succ(g: Graph, x: string): set<string> {
    if x in g then g[x] else {}
  }

  /** A nonempty list of nodes in which each is a direct successor of the one before. */
  ghost predicate IsPath(g: Graph, p: seq<string>) {
    && p != []
    && forall i | 0 <= i < |p| - 1 :: p[i + 1] in Succ(g, p[i])
  }

  ghost predicate PathFromTo(g: Graph, p: seq<string>, x: string, y: string) {
    IsPath(g, p) && p[0] == x && p[|p| - 1] == y
  }

  ghost predicate Reaches(g: Graph, x: string, y: string) {
    exists p: seq<string> :: PathFromTo(g, p, x, y)
  }

  function Targets(g: Graph): set<string> {
    set k, y | k in g && y in g[k] :: y
  }

  /** The nodes to which there is a path from `x`; `x` itself is one of them. */
  ghost function ReachSet(g: Graph, x: string): set<string> {
    set y | y in {x} + Targets(g) && Reaches(g, x, y)
  }

  lemma ReachesSelf(g: Graph, x: string)
    ensures Reaches(g, x, x)
  {
    assert PathFromTo(g, [x], x, x);
  }

  lemma ReachesCons(g: Graph, x: string, y: string, z: string)
    requires y in Succ(g, x) && Reaches(g, y, z)
    ensures Reaches(g, x, z)
  {
    var p: seq<string> :| PathFromTo(g, p, y, z);
    var q := [x] + p;
    assert forall i | 0 < i < |q| :: q[i] == p[i - 1];
    assert PathFromTo(g, q, x, z);
  }

  lemma InReachSet(g: Graph, x: string, y: string)
    ensures y in ReachSet(g, x) <==> Reaches(g, x, y)
  {
    if Reaches(g, x, y) {
      var p: seq<string> :| PathFromTo(g, p, x, y);
      if |p| > 1 {
        assert p[|p| - 2 + 1] in Succ(g, p[|p| - 2]);
      }
    }
  }

  ghost predicate ClosedUnder(g: Graph, v: set<string>) {
    forall u | u in v :: Succ(g, u) <= v
  }

  lemma {:induction false} PathStaysInside(g: Graph, v: set<string>, p: seq<string>)
    requires IsPath(g, p) && ClosedUnder(g, v) && p[0] in v
    ensures p[|p| - 1] in v
  {
    if |p| <= 1 {
    } else {
      var q := p[..|p| - 1];
      PathStaysInside(g, v, q);
      assert p[|q| - 1 + 1] in Succ(g, p[|q| - 1]);
    }
  }

  /** A closed set of reachable nodes that contains the start is everything reachable. */
  lemma ClosedReachableIsReachSet(g: Graph, x: string, v: set<string>)
    requires x in v && ClosedUnder(g, v)
    requires forall u | u in v :: Reaches(g, x, u)
    ensures v == ReachSet(g, x)
  {
    forall y
      ensures y in v <==> y in ReachSet(g, x)
    {
      InReachSet(g, x, y);
      if Reaches(g, x, y) {
        var p: seq<string> :| PathFromTo(g, p, x, y);
        PathStaysInside(g, v, p);
      }
    }
  }

  /** More edges, more reachable nodes. */
  lemma ReachSetMonotone(g: Graph, h: Graph, x: string)
    requires forall u :: Succ(g, u) <= Succ(h, u)
    ensures ReachSet(g, x) <= ReachSet(h, x)
  {
    forall y | y in ReachSet(g, x)
      ensures y in ReachSet(h, x)
    {
      InReachSet(g, x, y);
      InReachSet(h, x, y);
      var p: seq<string> :| PathFromTo(g, p, x, y);
      assert PathFromTo(h, p, x, y);
    }
  }

  ghost predicate Reversed(g: Graph, h: Graph) {
    forall a, b :: b in Succ(g, a) <==> a in Succ(h, b)
  }

  /** A path backwards is a path of the reversed graph. */
  lemma {:induction false} ReversedPath(g: Graph, h: Graph, p: seq<string>)
    requires Reversed(g, h) && IsPath(g, p)
    ensures Reaches(h, p[|p| - 1], p[0])
  {
    if |p| == 1 {
      ReachesSelf(h, p[0]);
    } else {
      var q := p[..|p| - 1];
      ReversedPath(g, h, q);
      assert p[|q| - 1 + 1] in Succ(g, p[|q| - 1]);
      ReachesCons(h, p[|p| - 1], q[|q| - 1], p[0]);
    }
  }

  lemma ReversedReach(g: Graph, h: Graph, x: string, y: string)
    requires Reversed(g, h) && Reaches(g, x, y)
    ensures Reaches(h, y, x)
  {
    var p: seq<string> :| PathFromTo(g, p, x, y);
    ReversedPath(g, h, p);
  }

  /**
    What one call of a depth-first visit from `x` does to the shared visited set: it adds `x` and only
    nodes reachable from `x`, and leaves no successor of an added node unvisited.
   */
  ghost predicate Visits(g: Graph, x: string, before: set<string>, after: set<string>) {
    && before <= after && x in after
    && (forall u | u in after && u !in before :: Reaches(g, x, u) && Succ(g, u) <= after)
  }

  lemma VisitFromScratch(g: Graph, x: string, after: set<string>)
    requires Visits(g, x, {}, after)
    ensures after == ReachSet(g, x)
  {
    ClosedReachableIsReachSet(g, x, after);
  }

  /** The state of a visit of `x` after some of its successors, `done`, have been visited. */
  ghost predicate VisitsSome(g: Graph, x: string, done: set<string>, before: set<string>, after: set<string>) {
    && before + {x} <= after && done <= after
    && (forall u | u in after && u !in before :: Reaches(g, x, u))
    && (forall u | u in after && u !in before && u != x :: Succ(g, u) <= after)
  }

  lemma VisitStart(g: Graph, x: string, before: set<string>)
    ensures VisitsSome(g, x, {}, before, before + {x})
  {
    ReachesSelf(g, x);
  }

  lemma VisitNext(g: Graph, x: string, done: set<string>, y: string, before: set<string>, mid: set<string>, after: set<string>)
    requires VisitsSome(g, x, done, before, mid) && y in Succ(g, x) && Visits(g, y, mid, after)
    ensures VisitsSome(g, x, done + {y}, before, after)
  {
    forall u | u in after && u !in before
      ensures Reaches(g, x, u)
    {
      if u !in mid {
        ReachesCons(g, x, y, u);
      }
    }
  }
}
