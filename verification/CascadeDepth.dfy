/**
  What the depth measure is worth: below an agent under which nothing is shared and nothing depends on itself, its one
  visited set never cuts a chain short. What a new dependency adds to the chains, and how it may close a cycle.
 */
module CascadeDepth {
  import opened Reachability
  import opened CascadeModel

  // ---------- trees ----------

  /** Of what `id` reaches, nothing has two direct predecessors that `id` reaches. */
  ghost predicate UnsharedBelow(g: Graph, id: string) {
    forall a, b, c | Reaches(g, id, a) && Reaches(g, id, b) && c in Succ(g, a) && c in Succ(g, b) :: a == b
  }

  ghost predicate AcyclicBelow(g: Graph, id: string) {
    forall x, y | Reaches(g, id, x) && y in Succ(g, x) :: !Reaches(g, y, x)
  }

  /** The agents that `id` reaches form a tree. Other agents may share them, and may be anything themselves. */
  ghost predicate TreeBelow(nodes: map<string, AgentNode>, id: string) {
    var g := DependenciesGraph(nodes);
    && UnsharedBelow(g, id)
    && AcyclicBelow(g, id)
    && forall x | x in nodes && Reaches(g, id, x) :: NoDuplicates(nodes[x].dependencies)
  }

  lemma {:induction false} ReachesTransitive(g: Graph, p: seq<string>, z: string)
    requires IsPath(g, p) && Reaches(g, p[|p| - 1], z)
    ensures Reaches(g, p[0], z)
  {
    if |p| == 1 {
    } else {
      assert p[0 + 1] in Succ(g, p[0]);
      assert forall i | 0 <= i < |p[1..]| :: p[1..][i] == p[i + 1];
      PathTail(g, p);
      ReachesTransitive(g, p[1..], z);
      ReachesCons(g, p[0], p[1], z);
    }
  }

  lemma PathTail(g: Graph, p: seq<string>)
    requires IsPath(g, p) && |p| > 1
    ensures IsPath(g, p[1..]) && p[1] in Succ(g, p[0])
  {
    assert p[0 + 1] in Succ(g, p[0]);
    forall i | 0 <= i < |p[1..]| - 1
      ensures p[1..][i + 1] in Succ(g, p[1..][i])
    {
      assert p[i + 1 + 1] in Succ(g, p[i + 1]);
    }
  }

  lemma ReachesThrough(g: Graph, x: string, y: string, z: string)
    requires Reaches(g, x, y) && Reaches(g, y, z)
    ensures Reaches(g, x, z)
  {
    var p: seq<string> :| PathFromTo(g, p, x, y);
    ReachesTransitive(g, p, z);
  }

  lemma TreeBelowDependency(nodes: map<string, AgentNode>, id: string, dep: string)
    requires TreeBelow(nodes, id) && dep in Succ(DependenciesGraph(nodes), id)
    ensures TreeBelow(nodes, dep)
  {
    var g := DependenciesGraph(nodes);
    forall x | Reaches(g, dep, x)
      ensures Reaches(g, id, x)
    {
      ReachesCons(g, id, dep, x);
    }
  }

  /** Of two agents of a tree that reach a third, one reaches the other. */
  lemma {:induction false} OnOnePath(g: Graph, id: string, p: seq<string>, q: seq<string>)
    requires UnsharedBelow(g, id) && IsPath(g, p) && IsPath(g, q) && p[|p| - 1] == q[|q| - 1]
    requires Reaches(g, id, p[0]) && Reaches(g, id, q[0])
    ensures Reaches(g, p[0], q[0]) || Reaches(g, q[0], p[0])
    decreases |p|
  {
    if |p| == 1 {
      assert PathFromTo(g, q, q[0], p[0]);
    } else if |q| == 1 {
      assert PathFromTo(g, p, p[0], q[0]);
    } else {
      var p', q' := p[..|p| - 1], q[..|q| - 1];
      assert p[|p| - 2 + 1] in Succ(g, p[|p| - 2]) && q[|q| - 2 + 1] in Succ(g, q[|q| - 2]);
      assert PathFromTo(g, p', p[0], p[|p| - 2]) && PathFromTo(g, q', q[0], q[|q| - 2]);
      ReachesThrough(g, id, p[0], p[|p| - 2]);
      ReachesThrough(g, id, q[0], q[|q| - 2]);
      OnOnePath(g, id, p', q');
    }
  }

  /** Nothing is reachable from two dependencies of one agent. */
  lemma SiblingsApart(g: Graph, id: string, a: string, b: string, z: string)
    requires UnsharedBelow(g, id) && AcyclicBelow(g, id) && a in Succ(g, id) && b in Succ(g, id) && a != b
    requires Reaches(g, a, z)
    ensures !Reaches(g, b, z)
  {
    if Reaches(g, b, z) {
      var p: seq<string> :| PathFromTo(g, p, a, z);
      var q: seq<string> :| PathFromTo(g, q, b, z);
      DependencyReached(g, id, a);
      DependencyReached(g, id, b);
      OnOnePath(g, id, p, q);
      if Reaches(g, a, b) {
        SiblingUnreached(g, id, a, b);
      } else {
        SiblingUnreached(g, id, b, a);
      }
    }
  }

  lemma DependencyReached(g: Graph, id: string, dep: string)
    requires dep in Succ(g, id)
    ensures Reaches(g, id, dep) && Reaches(g, id, id)
  {
    ReachesSelf(g, dep);
    ReachesSelf(g, id);
    ReachesCons(g, id, dep, dep);
  }

  lemma SiblingUnreached(g: Graph, id: string, a: string, b: string)
    requires UnsharedBelow(g, id) && AcyclicBelow(g, id) && a in Succ(g, id) && b in Succ(g, id) && a != b
    ensures !Reaches(g, a, b)
  {
    if Reaches(g, a, b) {
      var p: seq<string> :| PathFromTo(g, p, a, b);
      var last := p[|p| - 2];
      assert p[|p| - 2 + 1] in Succ(g, last);
      assert PathFromTo(g, p[..|p| - 1], a, last);
      ReachesCons(g, id, a, last);
      ReachesSelf(g, id);
    }
  }

  // ---------- the traversal ----------

  /** Nothing that `id` reaches has been visited. */
  ghost predicate Untouched(g: Graph, id: string, visited: set<string>) {
    forall z | Reaches(g, id, z) :: z !in visited
  }

  /** A visit sees only what is reachable. */
  lemma {:induction false} DepthSeesReachable(nodes: map<string, AgentNode>, id: string, visited: set<string>, z: string)
    requires z in DepthTo(nodes, id, visited).1
    ensures z in visited || Reaches(DependenciesGraph(nodes), id, z)
    decreases nodes.Keys - visited, 1, 0
  {
    ReachesSelf(DependenciesGraph(nodes), id);
    if id in visited || id !in nodes || nodes[id].dependencies == [] {
    } else {
      var n := |nodes[id].dependencies|;
      DepthOverSeesReachable(nodes, id, n, visited, z);
      if z !in visited && z != id {
        var i :| 0 <= i < n && Reaches(DependenciesGraph(nodes), nodes[id].dependencies[i], z);
        ReachesCons(DependenciesGraph(nodes), id, nodes[id].dependencies[i], z);
      }
    }
  }

  lemma {:induction false} DepthOverSeesReachable(
    nodes: map<string, AgentNode>, id: string, n: nat, visited: set<string>, z: string)
    requires id in nodes && id !in visited && n <= |nodes[id].dependencies|
    requires z in DepthOver(nodes, id, n, visited).1
    ensures z in visited || z == id
            || exists i | 0 <= i < n :: Reaches(DependenciesGraph(nodes), nodes[id].dependencies[i], z)
    decreases nodes.Keys - visited, 0, n
  {
    if n == 0 {
    } else {
      var seen := DepthOver(nodes, id, n - 1, visited).1;
      DepthSeesReachable(nodes, nodes[id].dependencies[n - 1], seen, z);
      if z in seen {
        DepthOverSeesReachable(nodes, id, n - 1, visited, z);
      }
    }
  }

  /** So the next dependency is untouched when its turn comes. */
  lemma NextUntouched(nodes: map<string, AgentNode>, id: string, n: nat, visited: set<string>)
    requires TreeBelow(nodes, id) && id in nodes && n < |nodes[id].dependencies|
    requires id !in visited && Untouched(DependenciesGraph(nodes), id, visited)
    ensures Untouched(DependenciesGraph(nodes), nodes[id].dependencies[n], DepthOver(nodes, id, n, visited).1)
  {
    var g, dependencies := DependenciesGraph(nodes), nodes[id].dependencies;
    assert forall i | 0 <= i < |dependencies| :: dependencies[i] in Succ(g, id);
    ReachesSelf(g, id);
    forall z | Reaches(g, dependencies[n], z)
      ensures z !in DepthOver(nodes, id, n, visited).1
    {
      ReachesCons(g, id, dependencies[n], z);
      forall i | 0 <= i < n
        ensures !Reaches(g, dependencies[i], z)
      {
        SiblingsApart(g, id, dependencies[n], dependencies[i], z);
      }
      if z in DepthOver(nodes, id, n, visited).1 {
        DepthOverSeesReachable(nodes, id, n, visited, z);
      }
    }
  }

  lemma ChainTail(nodes: map<string, AgentNode>, id: string, n: nat) returns (i: nat)
    requires ChainFrom(nodes, id, n + 1)
    ensures id in nodes && i < |nodes[id].dependencies| && ChainFrom(nodes, nodes[id].dependencies[i], n)
  {
    var p: seq<string> :| |p| == n + 2 && p[0] == id && IsPath(DependenciesGraph(nodes), p);
    PathTail(DependenciesGraph(nodes), p);
    i :| 0 <= i < |nodes[id].dependencies| && nodes[id].dependencies[i] == p[1];
    assert |p[1..]| == n + 1 && p[1..][0] == p[1];
  }

  /** Below an untouched tree no chain is longer than the measured depth. */
  lemma {:induction false} DepthCoversChains(nodes: map<string, AgentNode>, id: string, visited: set<string>, n: nat)
    requires TreeBelow(nodes, id) && Untouched(DependenciesGraph(nodes), id, visited) && ChainFrom(nodes, id, n)
    ensures n <= DepthTo(nodes, id, visited).0
    decreases nodes.Keys - visited, 1, 0
  {
    ReachesSelf(DependenciesGraph(nodes), id);
    if n == 0 {
    } else {
      var i := ChainTail(nodes, id, n - 1);
      DepthOverCoversChains(nodes, id, |nodes[id].dependencies|, visited, i, n - 1);
    }
  }

  lemma {:induction false} DepthOverCoversChains(
    nodes: map<string, AgentNode>, id: string, m: nat, visited: set<string>, i: nat, n: nat)
    requires TreeBelow(nodes, id) && id in nodes && m <= |nodes[id].dependencies| && i < m
    requires id !in visited && Untouched(DependenciesGraph(nodes), id, visited)
    requires ChainFrom(nodes, nodes[id].dependencies[i], n)
    ensures 1 + n <= DepthOver(nodes, id, m, visited).0
    decreases nodes.Keys - visited, 0, m
  {
    if i < m - 1 {
      DepthOverCoversChains(nodes, id, m - 1, visited, i, n);
    } else {
      NextUntouched(nodes, id, m - 1, visited);
      TreeBelowDependency(nodes, id, nodes[id].dependencies[i]);
      DepthCoversChains(nodes, nodes[id].dependencies[i], DepthOver(nodes, id, m - 1, visited).1, n);
    }
  }

  /** Where a tree lies below an agent its measured depth is the length of its longest chain. */
  lemma DepthIsLongestInTree(nodes: map<string, AgentNode>, id: string, n: nat)
    requires TreeBelow(nodes, id)
    ensures ChainFrom(nodes, id, DepthTo(nodes, id, {}).0)
    ensures ChainFrom(nodes, id, n) ==> n <= DepthTo(nodes, id, {}).0
  {
    DepthIsRealChain(nodes, id, {});
    if ChainFrom(nodes, id, n) {
      DepthCoversChains(nodes, id, {}, n);
    }
  }

  // ---------- what one more edge does to paths ----------

  ghost predicate AddsEdge(g: Graph, h: Graph, from: string, to: string) {
    forall x :: Succ(h, x) == Succ(g, x) + if x == from then {to} else {}
  }

  lemma LinkAddsEdge(cfg: Config, s: State, from: string, to: string)
    requires from in s.nodes && to in s.nodes
    ensures AddsEdge(DependenciesGraph(s.nodes), DependenciesGraph(Link(cfg, s, from, to).nodes), from, to)
  {
  }

  lemma PathsStay(g: Graph, h: Graph, from: string, to: string, p: seq<string>)
    requires AddsEdge(g, h, from, to) && IsPath(g, p)
    ensures IsPath(h, p)
  {
    forall i | 0 <= i < |p| - 1
      ensures p[i + 1] in Succ(h, p[i])
    {
      assert p[i + 1] in Succ(g, p[i]);
    }
  }

  /** Unless the edge closes a cycle, nothing that starts at its end takes it. */
  lemma {:induction false} PathFromEnd(g: Graph, h: Graph, from: string, to: string, p: seq<string>)
    requires AddsEdge(g, h, from, to) && !Reaches(g, to, from) && IsPath(h, p) && p[0] == to
    ensures IsPath(g, p)
  {
    if |p| == 1 {
    } else {
      var init := p[..|p| - 1];
      assert p[|p| - 2 + 1] in Succ(h, p[|p| - 2]);
      PathFromEnd(g, h, from, to, init);
      assert PathFromTo(g, init, to, p[|p| - 2]);
      assert p[|p| - 1] in Succ(g, p[|p| - 2]);
      forall i | 0 <= i < |p| - 1
        ensures p[i + 1] in Succ(g, p[i])
      {
        assert i < |init| - 1 ==> init[i + 1] in Succ(g, init[i]);
      }
    }
  }

  /** A path takes the new edge at place `i`, and nowhere else. */
  ghost predicate TakesAt(g: Graph, from: string, to: string, p: seq<string>, i: nat) {
    i + 1 < |p| && p[i] == from && p[i + 1] == to && IsPath(g, p[..i + 1]) && IsPath(g, p[i + 1..])
  }

  lemma {:induction false} PathTakesOnce(g: Graph, h: Graph, from: string, to: string, p: seq<string>) returns (i: nat)
    requires AddsEdge(g, h, from, to) && !Reaches(g, to, from) && IsPath(h, p)
    ensures IsPath(g, p) || TakesAt(g, from, to, p, i)
  {
    i := 0;
    if |p| == 1 {
    } else {
      PathTail(h, p);
      if p[1] in Succ(g, p[0]) {
        var j := PathTakesOnce(g, h, from, to, p[1..]);
        i := j + 1;
        TakesLater(g, from, to, p, j);
      } else {
        PathFromEnd(g, h, from, to, p[1..]);
        assert p[..1] == [from];
      }
    }
  }

  lemma TakesLater(g: Graph, from: string, to: string, p: seq<string>, j: nat)
    requires |p| > 1 && p[1] in Succ(g, p[0])
    requires IsPath(g, p[1..]) || TakesAt(g, from, to, p[1..], j)
    ensures IsPath(g, p) || TakesAt(g, from, to, p, j + 1)
  {
    if IsPath(g, p[1..]) {
      PathCons(g, p[0], p[1..]);
      assert [p[0]] + p[1..] == p;
    } else {
      assert p[1..][j + 1..] == p[j + 2..];
      PathCons(g, p[0], p[1..][..j + 1]);
      assert [p[0]] + p[1..][..j + 1] == p[..j + 2];
    }
  }

  lemma PathCons(g: Graph, x: string, p: seq<string>)
    requires IsPath(g, p) && p[0] in Succ(g, x)
    ensures IsPath(g, [x] + p)
  {
    var q := [x] + p;
    forall i | 0 <= i < |q| - 1
      ensures q[i + 1] in Succ(g, q[i])
    {
      assert i > 0 ==> p[i - 1 + 1] in Succ(g, p[i - 1]);
    }
  }

  lemma PathConcat(g: Graph, p: seq<string>, q: seq<string>)
    requires IsPath(g, p) && IsPath(g, q) && q[0] in Succ(g, p[|p| - 1])
    ensures IsPath(g, p + q)
  {
    var r := p + q;
    forall i | 0 <= i < |r| - 1
      ensures r[i + 1] in Succ(g, r[i])
    {
      assert i < |p| - 1 ==> p[i + 1] in Succ(g, p[i]);
      assert i >= |p| ==> q[i - |p| + 1] in Succ(g, q[i - |p|]);
    }
  }

  /** From anything that reaches a cycle there are chains of every length. */
  lemma {:induction false} CycleHasAllChains(nodes: map<string, AgentNode>, x: string, y: string, z: string, n: nat)
    requires y in Succ(DependenciesGraph(nodes), x) && Reaches(DependenciesGraph(nodes), y, x)
    requires Reaches(DependenciesGraph(nodes), z, x)
    ensures ChainFrom(nodes, z, n)
    decreases n
  {
    var g := DependenciesGraph(nodes);
    if n == 0 {
      assert IsPath(g, [z]);
    } else {
      var w := y;
      if z != x {
        var p: seq<string> :| PathFromTo(g, p, z, x);
        PathTail(g, p);
        w := p[1];
        assert PathFromTo(g, p[1..], w, x);
      }
      CycleHasAllChains(nodes, x, y, w, n - 1);
      ChainCons(nodes, z, w, n - 1);
    }
  }

  // ---------- measuring small trees ----------

  lemma DepthLeaf(nodes: map<string, AgentNode>, id: string, visited: set<string>)
    requires id in nodes && nodes[id].dependencies == [] && id !in visited
    ensures DepthTo(nodes, id, visited) == (0, visited + {id})
  {
  }

  lemma DepthOne(nodes: map<string, AgentNode>, id: string, dep: string, visited: set<string>)
    requires id in nodes && nodes[id].dependencies == [dep] && id !in visited
    ensures var (below, seen) := DepthTo(nodes, dep, visited + {id});
            DepthTo(nodes, id, visited) == (1 + below, seen)
  {
    assert DepthOver(nodes, id, 0, visited) == (0, visited + {id});
  }

  lemma DepthTwo(nodes: map<string, AgentNode>, id: string, d: string, e: string, visited: set<string>)
    requires id in nodes && nodes[id].dependencies == [d, e] && id !in visited
    ensures var (first, seen) := DepthTo(nodes, d, visited + {id});
            var (second, seen') := DepthTo(nodes, e, seen);
            DepthTo(nodes, id, visited) == (1 + if first >= second then first else second, seen')
  {
    assert DepthOver(nodes, id, 0, visited) == (0, visited + {id});
    assert DepthOver(nodes, id, 1, visited).0 == 1 + DepthTo(nodes, d, visited + {id}).0;
  }

  // ---------- what the guard lets through ----------

  function DepthLimit(cfg: Config, nodes: map<string, AgentNode>, id: string): int {
    PolicyForAgent(cfg, nodes, id).maxDependencyDepth
  }

  /** With the new dependency, a chain that begins with it is longer than the caller's tier allows. */
  ghost predicate StartsLongChain(cfg: Config, s: State, from: string, to: string)
    requires from in s.nodes && to in s.nodes
  {
    exists n: nat :: ChainFrom(Link(cfg, s, from, to).nodes, to, n) && n + 1 > DepthLimit(cfg, s.nodes, from)
  }

  lemma ChainsFromEnd(cfg: Config, s: State, from: string, to: string, n: nat)
    requires from in s.nodes && to in s.nodes && !Reaches(DependenciesGraph(s.nodes), to, from)
    ensures ChainFrom(Link(cfg, s, from, to).nodes, to, n) <==> ChainFrom(s.nodes, to, n)
  {
    var g, h := DependenciesGraph(s.nodes), DependenciesGraph(Link(cfg, s, from, to).nodes);
    LinkAddsEdge(cfg, s, from, to);
    if ChainFrom(s.nodes, to, n) {
      var p: seq<string> :| |p| == n + 1 && p[0] == to && IsPath(g, p);
      PathsStay(g, h, from, to, p);
    }
    if ChainFrom(Link(cfg, s, from, to).nodes, to, n) {
      var p: seq<string> :| |p| == n + 1 && p[0] == to && IsPath(h, p);
      PathFromEnd(g, h, from, to, p);
    }
  }

  /** A dependency that closes a cycle starts chains of every length. */
  lemma ClosedCycle(cfg: Config, s: State, from: string, to: string, n: nat)
    requires from in s.nodes && to in s.nodes && Reaches(DependenciesGraph(s.nodes), to, from)
    ensures ChainFrom(Link(cfg, s, from, to).nodes, to, n) && ChainFrom(Link(cfg, s, from, to).nodes, from, n)
  {
    var t := Link(cfg, s, from, to);
    var g, h := DependenciesGraph(s.nodes), DependenciesGraph(t.nodes);
    LinkAddsEdge(cfg, s, from, to);
    var p: seq<string> :| PathFromTo(g, p, to, from);
    PathsStay(g, h, from, to, p);
    assert PathFromTo(h, p, to, from);
    ReachesSelf(h, from);
    CycleHasAllChains(t.nodes, from, to, to, n);
    CycleHasAllChains(t.nodes, from, to, from, n);
  }

  /** Where a tree lies below the callee, a new dependency within the fanout is refused for its depth only if it would
      start too long a chain; and one that is admitted starts too long a chain exactly if it closes a cycle. */
  lemma GuardIsExactButForCycles(cfg: Config, s: State, from: string, to: string)
    requires TreeBelow(s.nodes, to) && from in s.nodes && to in s.nodes && to !in s.nodes[from].dependencies
    requires |s.nodes[from].dependencies| < PolicyForAgent(cfg, s.nodes, from).maxFanout
    ensures var outcome := AddDependency(cfg, s, from, to).1;
            && (outcome.DepthExceeded? || outcome == Added)
            && (outcome.DepthExceeded? ==> StartsLongChain(cfg, s, from, to))
            && (outcome == Added ==>
                  (StartsLongChain(cfg, s, from, to) <==> Reaches(DependenciesGraph(s.nodes), to, from)))
  {
    var g, depth, limit := DependenciesGraph(s.nodes), DepthTo(s.nodes, to, {}).0, DepthLimit(cfg, s.nodes, from);
    DepthIsLongestInTree(s.nodes, to, depth);
    if Reaches(g, to, from) {
      ClosedCycle(cfg, s, from, to, if limit < 0 then 0 else limit);
    } else {
      ChainsFromEnd(cfg, s, from, to, depth);
      forall n: nat | ChainFrom(Link(cfg, s, from, to).nodes, to, n)
        ensures n <= depth
      {
        ChainsFromEnd(cfg, s, from, to, n);
        DepthIsLongestInTree(s.nodes, to, n);
      }
    }
  }

  /** So where no cycle is closed the guard refuses exactly the dependencies that start too long a chain. */
  lemma RefusedIffChainTooLong(cfg: Config, s: State, from: string, to: string)
    requires TreeBelow(s.nodes, to) && from in s.nodes && to in s.nodes && to !in s.nodes[from].dependencies
    requires |s.nodes[from].dependencies| < PolicyForAgent(cfg, s.nodes, from).maxFanout
    ensures (AddDependency(cfg, s, from, to).1.DepthExceeded? <==> StartsLongChain(cfg, s, from, to))
       <==> !(AddDependency(cfg, s, from, to).1 == Added && Reaches(DependenciesGraph(s.nodes), to, from))
  {
    GuardIsExactButForCycles(cfg, s, from, to);
  }

  /** An agent may be made to depend on itself, under any tier that allows a dependency at all. */
  lemma SelfDependencyIsAdmitted(cfg: Config, s: State, a: string, n: nat)
    requires a in s.nodes && s.nodes[a].dependencies == []
    requires PolicyForAgent(cfg, s.nodes, a).maxFanout > 0 && DepthLimit(cfg, s.nodes, a) > 0
    ensures var (t, outcome) := AddDependency(cfg, s, a, a);
            outcome == Added && ChainFrom(t.nodes, a, n)
  {
    DepthLeaf(s.nodes, a, {});
    ReachesSelf(DependenciesGraph(s.nodes), a);
    ClosedCycle(cfg, s, a, a, n);
  }

  /** Two agents may be made to depend on each other, in two calls. */
  lemma MutualDependencyIsAdmitted(a: string, b: string, n: nat)
    requires a != b
    ensures var cfg := Config(DEFAULT_BLAST_RADIUS_POLICY, map[], 3);
            ChainFrom(Run(cfg, [OpAddDependency(a, b), OpAddDependency(b, a)]).nodes, a, n)
  {
    var cfg := Config(DEFAULT_BLAST_RADIUS_POLICY, map[], 3);
    RunPair(cfg, OpAddDependency(a, b), OpAddDependency(b, a));
    MutualFirst(cfg, a, b);
    MutualSecond(cfg, Step(cfg, EMPTY, OpAddDependency(a, b)), a, b, n);
  }

  /** Of two agents of which the first depends on the second, the second may be made to depend on the first. */
  lemma MutualSecond(cfg: Config, s: State, a: string, b: string, n: nat)
    requires a != b && cfg == Config(DEFAULT_BLAST_RADIUS_POLICY, map[], 3) && OneDependsOnOther(s, a, b)
    ensures ChainFrom(Step(cfg, s, OpAddDependency(b, a)).nodes, a, n)
  {
    DepthOne(s.nodes, a, b, {});
    DepthLeaf(s.nodes, b, {} + {a});
    assert b in Succ(DependenciesGraph(s.nodes), a);
    DependencyReached(DependenciesGraph(s.nodes), a, b);
    ClosedCycle(cfg, s, b, a, n);
  }

  ghost predicate OneDependsOnOther(s: State, a: string, b: string) {
    && s.nodes.Keys == {a, b}
    && s.nodes[a].dependencies == [b] && s.nodes[b].dependencies == []
    && s.nodes[a].trustTier == s.nodes[b].trustTier == Provisional
  }

  lemma MutualFirst(cfg: Config, a: string, b: string)
    requires a != b && cfg == Config(DEFAULT_BLAST_RADIUS_POLICY, map[], 3)
    ensures OneDependsOnOther(Step(cfg, EMPTY, OpAddDependency(a, b)), a, b)
  {
    var r := Register(Register(EMPTY, a, Provisional), b, Provisional);
    DepthLeaf(r.nodes, b, {});
  }
}
