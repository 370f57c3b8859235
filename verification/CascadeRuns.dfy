/**
  Runs that show what the manager does not prevent: limits passed, links that share a breaker, and dependents that a
  quarantine does not reach.
 */
module CascadeRuns {
  import opened Wrappers
  import opened Metrics
  import opened Reachability
  import opened CascadeModel
  import opened CascadeDepth
  import opened CascadeLimits
  import opened CascadeFailure

  const DEFAULT_CONFIG := Config(DEFAULT_BLAST_RADIUS_POLICY, map[], 3)

  // ---------- following the dependencies of a run ----------

  datatype Sketch = Sketch(tier: TrustTier, dependencies: seq<string>)

  type Sketches = map<string, Sketch>

  ghost predicate Sketched(s: State, m: Sketches) {
    s.nodes.Keys == m.Keys &&
    forall x | x in m :: s.nodes[x].trustTier == m[x].tier && s.nodes[x].dependencies == m[x].dependencies
  }

  function WithAgent(m: Sketches, x: string): Sketches {
    if x in m then m else m[x := Sketch(Provisional, [])]
  }

  function WithAgents(m: Sketches, from: string, to: string): Sketches {
    WithAgent(WithAgent(m, from), to)
  }

  function WithDependency(m: Sketches, from: string, to: string): Sketches {
    var r := WithAgents(m, from, to);
    r[from := Sketch(r[from].tier, r[from].dependencies + [to])]
  }

  lemma RegisteredSketch(s: State, m: Sketches, from: string, to: string)
    requires Sketched(s, m)
    ensures Sketched(Registered(s, from, to), WithAgents(m, from, to))
  {
  }

  /** A dependency whose callee measures `depth` is admitted if that is within the limits. */
  lemma DependencyAdmitted(cfg: Config, s: State, m: Sketches, from: string, to: string, depth: nat)
    requires Sketched(s, m) && DepthTo(Registered(s, from, to).nodes, to, {}).0 == depth
    requires var caller := WithAgents(m, from, to)[from];
             var policy := PolicyForTier(cfg, caller.tier);
             && to !in caller.dependencies
             && |caller.dependencies| < policy.maxFanout && depth + 1 <= policy.maxDependencyDepth
    ensures AddDependency(cfg, s, from, to).1 == Added
    ensures Sketched(AddDependency(cfg, s, from, to).0, WithDependency(m, from, to))
  {
    RegisteredSketch(s, m, from, to);
    AddDependencyLinks(cfg, s, from, to);
  }

  // ---------- a limit passed from below ----------

  /** The guard looks at one moment only: edges added further down later carry an agent past its tier's depth. */
  lemma DepthGuardIsNotAnInvariant(a: string, b: string, c: string, d: string)
    requires a != b && a != c && a != d && b != c && b != d && c != d
    ensures var ops := [OpRegister(a, Untrusted), OpAddDependency(a, b), OpAddDependency(b, c), OpAddDependency(c, d)];
            var nodes := Run(DEFAULT_CONFIG, ops).nodes;
            a in nodes && ChainFrom(nodes, a, 3) && DepthLimit(DEFAULT_CONFIG, nodes, a) == 2
  {
    RunFour(DEFAULT_CONFIG, OpRegister(a, Untrusted), OpAddDependency(a, b), OpAddDependency(b, c), OpAddDependency(c, d));
    ThreeLeaves(Step(DEFAULT_CONFIG, EMPTY, OpRegister(a, Untrusted)), a, b, c, d);
  }

  lemma ThreeLeaves(s: State, a: string, b: string, c: string, d: string)
    requires a != b && a != c && a != d && b != c && b != d && c != d
    requires Sketched(s, map[a := Sketch(Untrusted, [])])
    ensures var t := Step(DEFAULT_CONFIG, s, OpAddDependency(a, b));
            var u := Step(DEFAULT_CONFIG, t, OpAddDependency(b, c));
            var nodes := Step(DEFAULT_CONFIG, u, OpAddDependency(c, d)).nodes;
            a in nodes && ChainFrom(nodes, a, 3) && DepthLimit(DEFAULT_CONFIG, nodes, a) == 2
  {
    var t, m := Step(DEFAULT_CONFIG, s, OpAddDependency(a, b)), map[a := Sketch(Untrusted, [])];
    LeafAdded(DEFAULT_CONFIG, s, m, a, b);
    TwoLeaves(t, WithDependency(m, a, b), a, b, c, d);
  }

  lemma TwoLeaves(t: State, m: Sketches, a: string, b: string, c: string, d: string)
    requires a != b && a != c && a != d && b != c && b != d && c != d
    requires Sketched(t, m) && m.Keys == {a, b} && m[a] == Sketch(Untrusted, [b]) && m[b] == Sketch(Provisional, [])
    ensures var u := Step(DEFAULT_CONFIG, t, OpAddDependency(b, c));
            var nodes := Step(DEFAULT_CONFIG, u, OpAddDependency(c, d)).nodes;
            a in nodes && ChainFrom(nodes, a, 3) && DepthLimit(DEFAULT_CONFIG, nodes, a) == 2
  {
    var u := Step(DEFAULT_CONFIG, t, OpAddDependency(b, c));
    LeafAdded(DEFAULT_CONFIG, t, m, b, c);
    var n := WithDependency(m, b, c);
    LeafAdded(DEFAULT_CONFIG, u, n, c, d);
    LineOfFour(Step(DEFAULT_CONFIG, u, OpAddDependency(c, d)), WithDependency(n, c, d), a, b, c, d);
  }

  lemma LineOfFour(s: State, m: Sketches, a: string, b: string, c: string, d: string)
    requires Sketched(s, m) && a in m && b in m && c in m
    requires m[a] == Sketch(Untrusted, [b]) && m[b].dependencies == [c] && m[c].dependencies == [d]
    ensures ChainFrom(s.nodes, a, 3) && DepthLimit(DEFAULT_CONFIG, s.nodes, a) == 2
  {
    ChainOfThree(s.nodes, a, b, c, d);
  }

  /** A new agent may become the first dependency of an agent. */
  lemma LeafAdded(cfg: Config, s: State, m: Sketches, from: string, to: string)
    requires Sketched(s, m) && from in m && to !in m && m[from].dependencies == []
    requires PolicyForTier(cfg, m[from].tier).maxFanout > 0 && PolicyForTier(cfg, m[from].tier).maxDependencyDepth > 0
    ensures Sketched(Step(cfg, s, OpAddDependency(from, to)), WithDependency(m, from, to))
    ensures var r := WithDependency(m, from, to);
            && r.Keys == m.Keys + {to} && r[from] == Sketch(m[from].tier, [to]) && r[to] == Sketch(Provisional, [])
            && forall x | x in m && x != from :: r[x] == m[x]
  {
    RegisteredSketch(s, m, from, to);
    DepthLeaf(Registered(s, from, to).nodes, to, {});
    DependencyAdmitted(cfg, s, m, from, to, 0);
    assert m[from].dependencies + [to] == [to];
  }

  lemma ChainOfThree(nodes: map<string, AgentNode>, x: string, a: string, b: string, c: string)
    requires x in nodes && a in nodes && b in nodes
    requires a in nodes[x].dependencies && b in nodes[a].dependencies && c in nodes[b].dependencies
    ensures ChainFrom(nodes, x, 3)
  {
    assert IsPath(DependenciesGraph(nodes), [c]);
    assert ChainFrom(nodes, c, 0);
    ChainCons(nodes, b, c, 0);
    ChainCons(nodes, a, b, 1);
    ChainCons(nodes, x, a, 2);
  }

  // ---------- a limit passed because two chains share an agent ----------

  /** x depends on b and then on a, a on b, b on c. */
  function Diamond(x: string, a: string, b: string, c: string): Sketches {
    map[x := Sketch(Provisional, [b, a]), a := Sketch(Provisional, [b]), b := Sketch(Provisional, [c]),
        c := Sketch(Provisional, [])]
  }

  predicate AllDifferent(x: string, a: string, b: string, c: string) {
    x != a && x != b && x != c && a != b && a != c && b != c
  }

  /** The measure counts two below `x`, where there is a chain of three. */
  lemma DepthUndercountsDiamond(s: State, m: Sketches, x: string, a: string, b: string, c: string)
    requires AllDifferent(x, a, b, c) && Sketched(s, m)
    requires forall id | id in Diamond(x, a, b, c) :: id in m && m[id] == Diamond(x, a, b, c)[id]
    ensures DepthTo(s.nodes, x, {}).0 == 2 && ChainFrom(s.nodes, x, 3)
  {
    assert x in Diamond(x, a, b, c) && a in Diamond(x, a, b, c) && b in Diamond(x, a, b, c) && c in Diamond(x, a, b, c);
    DepthTwo(s.nodes, x, b, a, {});
    DepthOne(s.nodes, b, c, {} + {x});
    DepthLeaf(s.nodes, c, {} + {x} + {b});
    var seen := {} + {x} + {b} + {c};
    DepthOne(s.nodes, a, b, seen);
    ChainOfThree(s.nodes, x, a, b, c);
  }

  /** In whichever order `x` lists `a` and `b`, the diamond has no chain longer than three. */
  lemma {:induction false} ChainsOfDiamond(nodes: map<string, AgentNode>, x: string, a: string, b: string, c: string,
                                           id: string, n: nat)
    requires AllDifferent(x, a, b, c) && x in nodes && a in nodes && b in nodes && c in nodes
    requires nodes[x].dependencies == [a, b] || nodes[x].dependencies == [b, a]
    requires nodes[a].dependencies == [b] && nodes[b].dependencies == [c] && nodes[c].dependencies == []
    requires id in {x, a, b, c} && ChainFrom(nodes, id, n)
    ensures n <= if id == c then 0 else if id == b then 1 else if id == a then 2 else 3
    decreases n
  {
    if n == 0 {
    } else {
      var i := ChainTail(nodes, id, n - 1);
      ChainsOfDiamond(nodes, x, a, b, c, nodes[id].dependencies[i], n - 1);
    }
  }

  /** The order of the list decides: with the other order the measure finds the chain of three, and no chain is
      longer. */
  lemma OtherOrderIsExact(nodes: map<string, AgentNode>, x: string, a: string, b: string, c: string)
    requires AllDifferent(x, a, b, c) && x in nodes && a in nodes && b in nodes && c in nodes
    requires nodes[x].dependencies == [a, b] && nodes[a].dependencies == [b]
    requires nodes[b].dependencies == [c] && nodes[c].dependencies == []
    ensures DepthTo(nodes, x, {}).0 == 3
    ensures forall n: nat :: ChainFrom(nodes, x, n) ==> n <= 3
    ensures ChainFrom(nodes, x, 3)
  {
    ChainOfThree(nodes, x, a, b, c);
    forall n: nat | ChainFrom(nodes, x, n)
      ensures n <= 3
    {
      ChainsOfDiamond(nodes, x, a, b, c, x, n);
    }
    DepthTwo(nodes, x, a, b, {});
    DepthOne(nodes, a, b, {} + {x});
    DepthOne(nodes, b, c, {} + {x} + {a});
    DepthLeaf(nodes, c, {} + {x} + {a} + {b});
    assert DepthTo(nodes, b, {} + {x} + {a} + {b} + {c}).0 == 0;
  }

  function DiamondOps(x: string, a: string, b: string, c: string): seq<Op> {
    [OpAddDependency(b, c), OpAddDependency(a, b), OpAddDependency(x, b), OpAddDependency(x, a)]
  }

  lemma DepthOfPair(s: State, m: Sketches, b: string, c: string)
    requires Sketched(s, m) && b in m && c in m && b != c && m[b].dependencies == [c] && m[c].dependencies == []
    ensures DepthTo(s.nodes, b, {}).0 == 1
  {
    DepthOne(s.nodes, b, c, {});
    DepthLeaf(s.nodes, c, {} + {b});
  }

  lemma DepthOfTriple(s: State, m: Sketches, a: string, b: string, c: string)
    requires Sketched(s, m) && a in m && b in m && c in m && a != b && b != c && a != c
    requires m[a].dependencies == [b] && m[b].dependencies == [c] && m[c].dependencies == []
    ensures DepthTo(s.nodes, a, {}).0 == 2
  {
    DepthOne(s.nodes, a, b, {});
    DepthOne(s.nodes, b, c, {} + {a});
    DepthLeaf(s.nodes, c, {} + {a} + {b});
  }

  /** Four calls, each admitted, make a diamond. */
  lemma DiamondRun(x: string, a: string, b: string, c: string)
    requires AllDifferent(x, a, b, c)
    ensures Sketched(Run(DEFAULT_CONFIG, DiamondOps(x, a, b, c)), Diamond(x, a, b, c))
  {
    RunFour(DEFAULT_CONFIG, OpAddDependency(b, c), OpAddDependency(a, b), OpAddDependency(x, b), OpAddDependency(x, a));
    var s1 := Step(DEFAULT_CONFIG, EMPTY, OpAddDependency(b, c));
    var s2 := Step(DEFAULT_CONFIG, s1, OpAddDependency(a, b));
    var s3 := Step(DEFAULT_CONFIG, s2, OpAddDependency(x, b));
    DiamondSketches(x, a, b, c);
    FirstAdded(b, c);
    OverPairAdded(s1, Pair(b, c), a, b, c);
    OverPairAdded(s2, Line(a, b, c), x, b, c);
    OverTripleAdded(s3, Fork(x, a, b, c), x, a, b, c);
  }

  function Pair(b: string, c: string): Sketches {
    map[b := Sketch(Provisional, [c]), c := Sketch(Provisional, [])]
  }

  function Line(a: string, b: string, c: string): Sketches {
    Pair(b, c)[a := Sketch(Provisional, [b])]
  }

  function Fork(x: string, a: string, b: string, c: string): Sketches {
    Line(a, b, c)[x := Sketch(Provisional, [b])]
  }

  lemma DiamondSketches(x: string, a: string, b: string, c: string)
    requires AllDifferent(x, a, b, c)
    ensures WithDependency(map[], b, c) == Pair(b, c)
    ensures WithDependency(Pair(b, c), a, b) == Line(a, b, c)
    ensures WithDependency(Line(a, b, c), x, b) == Fork(x, a, b, c)
    ensures WithDependency(Fork(x, a, b, c), x, a) == Diamond(x, a, b, c)
  {
    assert [] + [c] == [c] && [] + [b] == [b] && [b] + [a] == [b, a];
  }

  lemma FirstAdded(b: string, c: string)
    requires b != c
    ensures Sketched(Step(DEFAULT_CONFIG, EMPTY, OpAddDependency(b, c)), WithDependency(map[], b, c))
  {
    RegisteredSketch(EMPTY, map[], b, c);
    DepthLeaf(Registered(EMPTY, b, c).nodes, c, {});
    DependencyAdmitted(DEFAULT_CONFIG, EMPTY, map[], b, c, 0);
  }

  /** A new agent may depend on one that depends on one other. */
  lemma OverPairAdded(s: State, m: Sketches, from: string, b: string, c: string)
    requires Sketched(s, m) && from !in m && b in m && c in m && b != c
    requires m[b].dependencies == [c] && m[c].dependencies == []
    ensures Sketched(Step(DEFAULT_CONFIG, s, OpAddDependency(from, b)), WithDependency(m, from, b))
  {
    RegisteredSketch(s, m, from, b);
    DepthOfPair(Registered(s, from, b), WithAgents(m, from, b), b, c);
    DependencyAdmitted(DEFAULT_CONFIG, s, m, from, b, 1);
  }

  lemma OverTripleAdded(s: State, m: Sketches, from: string, a: string, b: string, c: string)
    requires Sketched(s, m) && from in m && a in m && b in m && c in m && a != b && b != c && a != c
    requires m[from] == Sketch(Provisional, [b])
    requires m[a].dependencies == [b] && m[b].dependencies == [c] && m[c].dependencies == []
    ensures Sketched(Step(DEFAULT_CONFIG, s, OpAddDependency(from, a)), WithDependency(m, from, a))
  {
    RegisteredSketch(s, m, from, a);
    DepthOfTriple(Registered(s, from, a), WithAgents(m, from, a), a, b, c);
    DependencyAdmitted(DEFAULT_CONFIG, s, m, from, a, 2);
  }

  /** The next dependency is then admitted, because of the undercount, and passes the limit: a chain of four under a
      tier that allows three. */
  lemma UndercountPassesLimit(y: string, x: string, a: string, b: string, c: string)
    requires AllDifferent(x, a, b, c) && y != x && y != a && y != b && y != c
    ensures var s := Run(DEFAULT_CONFIG, DiamondOps(x, a, b, c));
            var (t, outcome) := AddDependency(DEFAULT_CONFIG, s, y, x);
            && outcome == Added
            && WithinLimits(DEFAULT_CONFIG, s.nodes)
            && y in t.nodes && ChainFrom(t.nodes, y, 4) && DepthLimit(DEFAULT_CONFIG, t.nodes, y) == 3
  {
    DiamondRun(x, a, b, c);
    DiamondWithinLimits(Run(DEFAULT_CONFIG, DiamondOps(x, a, b, c)), x, a, b, c);
    OverDiamond(Run(DEFAULT_CONFIG, DiamondOps(x, a, b, c)), y, x, a, b, c);
  }

  /** On top of a diamond one more dependency is admitted, and starts a chain of four. */
  lemma OverDiamond(s: State, y: string, x: string, a: string, b: string, c: string)
    requires AllDifferent(x, a, b, c) && y != x && y != a && y != b && y != c && Sketched(s, Diamond(x, a, b, c))
    ensures var (t, outcome) := AddDependency(DEFAULT_CONFIG, s, y, x);
            && outcome == Added
            && y in t.nodes && ChainFrom(t.nodes, y, 4) && DepthLimit(DEFAULT_CONFIG, t.nodes, y) == 3
  {
    var m := Diamond(x, a, b, c);
    RegisteredSketch(s, m, y, x);
    DepthUndercountsDiamond(Registered(s, y, x), WithAgents(m, y, x), x, a, b, c);
    DependencyAdmitted(DEFAULT_CONFIG, s, m, y, x, 2);
    DiamondUnder(AddDependency(DEFAULT_CONFIG, s, y, x).0, WithDependency(m, y, x), y, x, a, b, c);
  }

  lemma DiamondUnder(t: State, m: Sketches, y: string, x: string, a: string, b: string, c: string)
    requires Sketched(t, m) && y in m && x in m && a in m && b in m && m[y] == Sketch(Provisional, [] + [x])
    requires a in m[x].dependencies && b in m[a].dependencies && c in m[b].dependencies
    ensures ChainFrom(t.nodes, y, 4) && DepthLimit(DEFAULT_CONFIG, t.nodes, y) == 3
  {
    ChainOfThree(t.nodes, x, a, b, c);
    ChainCons(t.nodes, y, x, 3);
  }

  lemma DiamondWithinLimits(s: State, x: string, a: string, b: string, c: string)
    requires AllDifferent(x, a, b, c) && Sketched(s, Diamond(x, a, b, c))
    ensures WithinLimits(DEFAULT_CONFIG, s.nodes)
  {
    forall id, n: nat | id in s.nodes && n > 0 && ChainFrom(s.nodes, id, n)
      ensures n <= DepthLimit(DEFAULT_CONFIG, s.nodes, id)
    {
      ChainsOfDiamond(s.nodes, x, a, b, c, id, n);
    }
  }

  // ---------- links that share a breaker ----------

  function Repeat(op: Op, n: nat): seq<Op> {
    if n == 0 then [] else Repeat(op, n - 1) + [op]
  }

  /** A breaker of the default policy after `n` failures at time 1. */
  function FailedTimes(n: nat): Breaker {
    Breaker(4, 30_000, n, if n < 4 then None else Some(1), if n < 4 then Closed else Open)
  }

  predicate HasFailed(s: State, key: string, n: nat) {
    key in s.breakers && s.breakers[key] == FailedTimes(n)
  }

  lemma OneMoreFailure(ops: seq<Op>, c: string, d: string, n: nat)
    requires HasFailed(Run(DEFAULT_CONFIG, ops), LinkKey(c, d), n) && n < 4
    ensures HasFailed(Run(DEFAULT_CONFIG, ops + [OpRecordFailure(c, d, "call failed", 1)]), LinkKey(c, d), n + 1)
  {
    RunSnoc(DEFAULT_CONFIG, ops, OpRecordFailure(c, d, "call failed", 1));
    FailureOnBreaker(DEFAULT_CONFIG, Run(DEFAULT_CONFIG, ops), c, d, "call failed", 1, LinkKey(c, d));
  }

  function FailingOps(a: string, b: string, c: string, d: string, n: nat): seq<Op> {
    [OpAddDependency(a, b)] + Repeat(OpRecordFailure(c, d, "call failed", 1), n)
  }

  lemma FailingOpsStart(a: string, b: string, c: string, d: string)
    ensures FailingOps(a, b, c, d, 0) == [] + [OpAddDependency(a, b)]
  {
  }

  lemma FailingOpsSnoc(a: string, b: string, c: string, d: string, n: nat)
    ensures FailingOps(a, b, c, d, n + 1) == FailingOps(a, b, c, d, n) + [OpRecordFailure(c, d, "call failed", 1)]
  {
  }

  /** A link's breaker as failures reported under its key leave it. */
  lemma {:induction false} FailuresOnKey(a: string, b: string, c: string, d: string, n: nat)
    requires LinkKey(a, b) == LinkKey(c, d) && n <= 4
    ensures HasFailed(Run(DEFAULT_CONFIG, FailingOps(a, b, c, d, n)), LinkKey(c, d), n)
  {
    if n == 0 {
      NoFailureYet(a, b, c, d);
    } else {
      FailuresOnKey(a, b, c, d, n - 1);
      OneFailureMore(a, b, c, d, n - 1);
    }
  }

  lemma OneFailureMore(a: string, b: string, c: string, d: string, n: nat)
    requires n < 4 && HasFailed(Run(DEFAULT_CONFIG, FailingOps(a, b, c, d, n)), LinkKey(c, d), n)
    ensures HasFailed(Run(DEFAULT_CONFIG, FailingOps(a, b, c, d, n + 1)), LinkKey(c, d), n + 1)
  {
    FailingOpsSnoc(a, b, c, d, n);
    OneMoreFailure(FailingOps(a, b, c, d, n), c, d, n);
  }

  lemma NoFailureYet(a: string, b: string, c: string, d: string)
    requires LinkKey(a, b) == LinkKey(c, d)
    ensures HasFailed(Run(DEFAULT_CONFIG, FailingOps(a, b, c, d, 0)), LinkKey(c, d), 0)
  {
    FailingOpsStart(a, b, c, d);
    RunSnoc(DEFAULT_CONFIG, [], OpAddDependency(a, b));
    FirstLinkHasBreaker(a, b);
  }

  lemma FirstLinkHasBreaker(a: string, b: string)
    ensures var s := Step(DEFAULT_CONFIG, EMPTY, OpAddDependency(a, b));
            HasFailed(s, LinkKey(a, b), 0)
  {
    RegisteredSketch(EMPTY, map[], a, b);
    DepthLeaf(Registered(EMPTY, a, b).nodes, b, {});
    AddDependencyLinks(DEFAULT_CONFIG, EMPTY, a, b);
  }

  /** For every caller with an arrow in its id and every callee there is another link, of a caller without one, whose
      failures make the manager refuse their calls although none of these was ever reported to fail. */
  lemma CollidingFailuresRefuse(a: string, b: string) returns (c: string, d: string)
    requires HasArrow(a)
    ensures !HasArrow(c) && c != a
    ensures var s := Run(DEFAULT_CONFIG, FailingOps(a, b, c, d, 4));
            LinkKey(a, b) in s.breakers && !s.breakers[LinkKey(a, b)].CanExecute(1)
  {
    c, d := CollidingLink(a, b);
    FailuresOnKey(a, b, c, d, 4);
  }

  // ---------- a quarantine reaches direct dependents only ----------

  /** One failure opens a breaker, and one open breaker quarantines. */
  const STRICT_CONFIG :=
    Config(DEFAULT_BLAST_RADIUS_POLICY.(circuitBreakerThreshold := 1),
           map[Provisional := PolicyOverride(None, None, None, None, None, None)], 1)

  function OneHopOps(x: string, a: string, b: string): seq<Op> {
    [OpAddDependency(a, b), OpAddDependency(x, a)]
  }

  predicate AllHealthy(s: State) {
    forall id | id in s.nodes :: s.nodes[id].healthStatus == Healthy && s.nodes[id].trustTier == Provisional
  }

  predicate HasNewBreaker(s: State, a: string, b: string) {
    LinkKey(a, b) in s.breakers && s.breakers[LinkKey(a, b)] == NewBreaker(1, 30_000)
  }

  /** x depends on a, and a on b. */
  predicate OneHopReady(s: State, x: string, a: string, b: string) {
    && s.nodes.Keys == {x, a, b}
    && s.nodes[x].dependencies == [a] && s.nodes[a].dependencies == [b] && s.nodes[b].dependents == [a]
    && AllHealthy(s) && HasNewBreaker(s, a, b)
  }

  lemma OneHopFirst(a: string, b: string)
    requires a != b
    ensures var s := Step(STRICT_CONFIG, EMPTY, OpAddDependency(a, b));
            && s.nodes.Keys == {a, b}
            && s.nodes[a].dependencies == [b] && s.nodes[b].dependencies == [] && s.nodes[b].dependents == [a]
            && AllHealthy(s) && HasNewBreaker(s, a, b)
  {
    RegisteredSketch(EMPTY, map[], a, b);
    DepthLeaf(Registered(EMPTY, a, b).nodes, b, {});
    AddDependencyLinks(STRICT_CONFIG, EMPTY, a, b);
  }

  lemma OneHopSecond(s: State, x: string, a: string, b: string)
    requires x != a && x != b && a != b && s.nodes.Keys == {a, b}
    requires s.nodes[a].dependencies == [b] && s.nodes[b].dependencies == [] && s.nodes[b].dependents == [a]
    requires AllHealthy(s) && HasNewBreaker(s, a, b)
    ensures OneHopReady(Step(STRICT_CONFIG, s, OpAddDependency(x, a)), x, a, b)
  {
    var r := Registered(s, x, a);
    DepthOne(r.nodes, a, b, {});
    DepthLeaf(r.nodes, b, {} + {a});
    AddDependencyLinks(STRICT_CONFIG, s, x, a);
  }

  lemma OneHopState(x: string, a: string, b: string)
    requires x != a && x != b && a != b
    ensures OneHopReady(Run(STRICT_CONFIG, OneHopOps(x, a, b)), x, a, b)
  {
    var o1 := [OpAddDependency(a, b)];
    assert [] + o1 == o1 && o1 + [OpAddDependency(x, a)] == OneHopOps(x, a, b);
    RunSnoc(STRICT_CONFIG, [], o1[0]);
    RunSnoc(STRICT_CONFIG, o1, OpAddDependency(x, a));
    OneHopFirst(a, b);
    OneHopSecond(Run(STRICT_CONFIG, o1), x, a, b);
  }

  lemma OneHopReaches(s: State, x: string, a: string, b: string)
    requires OneHopReady(s, x, a, b)
    ensures Reaches(DependenciesGraph(s.nodes), x, b)
  {
    var g := DependenciesGraph(s.nodes);
    assert a in Succ(g, x) && b in Succ(g, a);
    DependencyReached(g, a, b);
    ReachesCons(g, x, a, b);
  }

  lemma OneRefused(s: State, x: string, a: string, b: string)
    requires OneHopReady(s, x, a, b)
    ensures var t := RecordFailure(STRICT_CONFIG, s, a, b, "call failed", 1);
            && t.nodes.Keys == {x, a, b} && |RefusedCallers(t, b, 1)| == 1
  {
    var t := RecordFailure(STRICT_CONFIG, s, a, b, "call failed", 1);
    RecordFailureSameLinks(STRICT_CONFIG, s, a, b, "call failed", 1);
    SameLinksFields(s, t);
    FailureOnBreaker(STRICT_CONFIG, s, a, b, "call failed", 1, LinkKey(a, b));
    assert t.nodes[b].dependents == [a];
    assert RefusedCallers(t, b, 1) == {a};
  }

  /** b is out, a which depends on it is degraded, and x which depends on a is healthy. */
  predicate QuarantinedOneHop(t: State, x: string, a: string, b: string) {
    && t.nodes.Keys == {x, a, b}
    && t.nodes[b].healthStatus == Unreachable
    && t.nodes[a].healthStatus == Degraded
    && t.nodes[x].healthStatus == Healthy
  }

  lemma FailureStep(s: State, a: string, b: string)
    ensures Step(STRICT_CONFIG, s, OpRecordFailure(a, b, "call failed", 1))
         == RecordFailure(STRICT_CONFIG, s, a, b, "call failed", 1)
  {
  }

  lemma CalleeGoesOut(s: State, x: string, a: string, b: string)
    requires Invariant(STRICT_CONFIG, s) && OneHopReady(s, x, a, b)
    ensures var t := Step(STRICT_CONFIG, s, OpRecordFailure(a, b, "call failed", 1));
            t.nodes.Keys == {x, a, b} && t.nodes[b].healthStatus == Unreachable
  {
    FailureStep(s, a, b);
    OneRefused(s, x, a, b);
    FailureJudgesCallee(STRICT_CONFIG, s, a, b, "call failed", 1);
  }

  /** What a failure over the lower link makes of one of the callers. */
  lemma CallerAfterFailure(s: State, x: string, a: string, b: string, id: string)
    requires Invariant(STRICT_CONFIG, s) && OneHopReady(s, x, a, b) && id in s.nodes && id != b
    ensures var t := Step(STRICT_CONFIG, s, OpRecordFailure(a, b, "call failed", 1));
            id in t.nodes && t.nodes[id].healthStatus == if id == a then Degraded else Healthy
  {
    FailureStep(s, a, b);
    OneRefused(s, x, a, b);
    FailureSparesOthers(STRICT_CONFIG, s, a, b, "call failed", 1, id);
  }

  lemma OneHopFailure(s: State, x: string, a: string, b: string)
    requires x != a && x != b && a != b && Invariant(STRICT_CONFIG, s) && OneHopReady(s, x, a, b)
    ensures QuarantinedOneHop(Step(STRICT_CONFIG, s, OpRecordFailure(a, b, "call failed", 1)), x, a, b)
  {
    CalleeGoesOut(s, x, a, b);
    CallerAfterFailure(s, x, a, b, a);
    CallerAfterFailure(s, x, a, b, x);
  }

  lemma OneHopFailureAfter(ops: seq<Op>, x: string, a: string, b: string)
    requires x != a && x != b && a != b && OneHopReady(Run(STRICT_CONFIG, ops), x, a, b)
    ensures QuarantinedOneHop(Run(STRICT_CONFIG, ops + [OpRecordFailure(a, b, "call failed", 1)]), x, a, b)
  {
    var s, t := Run(STRICT_CONFIG, ops), Run(STRICT_CONFIG, ops + [OpRecordFailure(a, b, "call failed", 1)]);
    assert t == Step(STRICT_CONFIG, s, OpRecordFailure(a, b, "call failed", 1)) by {
      RunSnoc(STRICT_CONFIG, ops, OpRecordFailure(a, b, "call failed", 1));
    }
    assert QuarantinedOneHop(t, x, a, b) by {
      RunKeepsInvariant(STRICT_CONFIG, ops);
      OneHopFailure(s, x, a, b);
    }
  }

  /** An agent that depends on the quarantined one through another stays healthy. */
  lemma TransitiveDependentStaysHealthy(x: string, a: string, b: string)
    requires x != a && x != b && a != b
    ensures Reaches(DependenciesGraph(Run(STRICT_CONFIG, OneHopOps(x, a, b)).nodes), x, b)
    ensures QuarantinedOneHop(
              Run(STRICT_CONFIG, OneHopOps(x, a, b) + [OpRecordFailure(a, b, "call failed", 1)]), x, a, b)
  {
    var ops := OneHopOps(x, a, b);
    OneHopState(x, a, b);
    OneHopReaches(Run(STRICT_CONFIG, ops), x, a, b);
    OneHopFailureAfter(ops, x, a, b);
  }
}
