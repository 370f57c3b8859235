/**
  When every agent stays within the dependency depth of its tier: exactly when each dependency fits, in every run; and
  always when dependencies are declared bottom-up over trees.
 */
module CascadeLimits {
  import opened Reachability
  import opened CascadeModel
  import opened CascadeDepth

  /** No agent starts a chain of more dependencies than its tier allows. */
  ghost predicate WithinLimits(cfg: Config, nodes: map<string, AgentNode>) {
    forall a, n: nat | a in nodes && n > 0 && ChainFrom(nodes, a, n) :: n <= DepthLimit(cfg, nodes, a)
  }

  ghost predicate ChainBetween(nodes: map<string, AgentNode>, a: string, b: string, n: nat) {
    exists p: seq<string> :: |p| == n + 1 && PathFromTo(DependenciesGraph(nodes), p, a, b)
  }

  /** The edge closes no cycle, and no chain through it is too long for the agent that starts it. */
  ghost predicate EdgeFits(cfg: Config, nodes: map<string, AgentNode>, from: string, to: string) {
    && !Reaches(DependenciesGraph(nodes), to, from)
    && forall a, k: nat, n: nat | a in nodes && ChainBetween(nodes, a, from, k) && ChainFrom(nodes, to, n) ::
         k + 1 + n <= DepthLimit(cfg, nodes, a)
  }

  // ---------- one edge ----------

  lemma LinkKeepsTiers(cfg: Config, s: State, from: string, to: string, a: string)
    requires from in s.nodes && to in s.nodes
    ensures Link(cfg, s, from, to).nodes.Keys == s.nodes.Keys
    ensures DepthLimit(cfg, Link(cfg, s, from, to).nodes, a) == DepthLimit(cfg, s.nodes, a)
  {
  }

  lemma ChainsAroundEdge(nodes: map<string, AgentNode>, from: string, to: string, p: seq<string>, i: nat)
    requires TakesAt(DependenciesGraph(nodes), from, to, p, i)
    ensures ChainBetween(nodes, p[0], from, i) && ChainFrom(nodes, to, |p| - i - 2)
  {
    var g, before, behind := DependenciesGraph(nodes), p[..i + 1], p[i + 1..];
    assert |before| == i + 1 && PathFromTo(g, before, p[0], from);
    assert |behind| == |p| - i - 2 + 1 && behind[0] == to;
  }

  lemma FittingEdgeKeepsChain(cfg: Config, s: State, from: string, to: string, a: string, n: nat)
    requires from in s.nodes && to in s.nodes && WithinLimits(cfg, s.nodes) && EdgeFits(cfg, s.nodes, from, to)
    requires a in s.nodes && n > 0 && ChainFrom(Link(cfg, s, from, to).nodes, a, n)
    ensures n <= DepthLimit(cfg, s.nodes, a)
  {
    var g, h := DependenciesGraph(s.nodes), DependenciesGraph(Link(cfg, s, from, to).nodes);
    LinkAddsEdge(cfg, s, from, to);
    var p: seq<string> :| |p| == n + 1 && p[0] == a && IsPath(h, p);
    var i := PathTakesOnce(g, h, from, to, p);
    if IsPath(g, p) {
      assert ChainFrom(s.nodes, a, n);
    } else {
      ChainsAroundEdge(s.nodes, from, to, p, i);
    }
  }

  lemma ChainThroughEdge(cfg: Config, s: State, from: string, to: string, a: string, k: nat, n: nat)
    requires from in s.nodes && to in s.nodes && ChainBetween(s.nodes, a, from, k) && ChainFrom(s.nodes, to, n)
    ensures ChainFrom(Link(cfg, s, from, to).nodes, a, k + 1 + n)
  {
    var g, h := DependenciesGraph(s.nodes), DependenciesGraph(Link(cfg, s, from, to).nodes);
    LinkAddsEdge(cfg, s, from, to);
    var p: seq<string> :| |p| == k + 1 && PathFromTo(g, p, a, from);
    var q: seq<string> :| |q| == n + 1 && q[0] == to && IsPath(g, q);
    PathsStay(g, h, from, to, p);
    PathsStay(g, h, from, to, q);
    PathConcat(h, p, q);
    assert |p + q| == k + 1 + n + 1 && (p + q)[0] == a;
  }

  /** A new edge keeps all agents within their limits exactly if it fits. */
  lemma LinkKeepsLimitsIff(cfg: Config, s: State, from: string, to: string)
    requires from in s.nodes && to in s.nodes && WithinLimits(cfg, s.nodes)
    ensures WithinLimits(cfg, Link(cfg, s, from, to).nodes) <==> EdgeFits(cfg, s.nodes, from, to)
  {
    var t := Link(cfg, s, from, to);
    if EdgeFits(cfg, s.nodes, from, to) {
      forall a, n: nat | a in t.nodes && n > 0 && ChainFrom(t.nodes, a, n)
        ensures n <= DepthLimit(cfg, t.nodes, a)
      {
        LinkKeepsTiers(cfg, s, from, to, a);
        FittingEdgeKeepsChain(cfg, s, from, to, a, n);
      }
    }
    if WithinLimits(cfg, t.nodes) {
      LimitsNeedFittingEdge(cfg, s, from, to);
    }
  }

  lemma LimitsNeedFittingEdge(cfg: Config, s: State, from: string, to: string)
    requires from in s.nodes && to in s.nodes && WithinLimits(cfg, Link(cfg, s, from, to).nodes)
    ensures EdgeFits(cfg, s.nodes, from, to)
  {
    var t := Link(cfg, s, from, to);
    LinkKeepsTiers(cfg, s, from, to, from);
    if Reaches(DependenciesGraph(s.nodes), to, from) {
      var limit := DepthLimit(cfg, t.nodes, from);
      var n: nat := if limit < 0 then 1 else limit + 1;
      ClosedCycle(cfg, s, from, to, n);
      assert false;
    }
    forall a, k: nat, n: nat | a in s.nodes && ChainBetween(s.nodes, a, from, k) && ChainFrom(s.nodes, to, n)
      ensures k + 1 + n <= DepthLimit(cfg, s.nodes, a)
    {
      LinkKeepsTiers(cfg, s, from, to, a);
      ChainThroughEdge(cfg, s, from, to, a, k, n);
    }
  }

  // ---------- runs ----------

  function Registered(s: State, from: string, to: string): State {
    Register(Register(s, from, Provisional), to, Provisional)
  }

  /** If the operation adds an edge, the edge fits. */
  ghost predicate StepFits(cfg: Config, s: State, op: Op) {
    op.OpAddDependency? ==>
      var r := Registered(s, op.from, op.to);
      op.to !in r.nodes[op.from].dependencies && AddDependency(cfg, s, op.from, op.to).1 == Added ==>
        EdgeFits(cfg, r.nodes, op.from, op.to)
  }

  /** The same dependencies and tiers, with perhaps new agents that have no dependencies. */
  ghost predicate SameDependencies(n: map<string, AgentNode>, m: map<string, AgentNode>) {
    && n.Keys <= m.Keys
    && (forall a | a in n :: n[a].dependencies == m[a].dependencies && n[a].trustTier == m[a].trustTier)
    && (forall a | a in m && a !in n :: m[a].dependencies == [])
  }

  lemma SameDependenciesSameChains(n: map<string, AgentNode>, m: map<string, AgentNode>, p: seq<string>)
    requires SameDependencies(n, m)
    ensures IsPath(DependenciesGraph(n), p) <==> IsPath(DependenciesGraph(m), p)
  {
    var g, h := DependenciesGraph(n), DependenciesGraph(m);
    assert forall x :: Succ(g, x) == Succ(h, x);
  }

  lemma SameDependenciesSameLimits(cfg: Config, n: map<string, AgentNode>, m: map<string, AgentNode>)
    requires SameDependencies(n, m)
    ensures WithinLimits(cfg, n) <==> WithinLimits(cfg, m)
  {
    forall a, k: nat
      ensures ChainFrom(n, a, k) <==> ChainFrom(m, a, k)
    {
      SameChains(n, m, a, k);
    }
    forall a, k: nat | a in m && a !in n && k > 0
      ensures !ChainFrom(m, a, k)
    {
      if ChainFrom(m, a, k) {
        var i := ChainTail(m, a, k - 1);
      }
    }
  }

  lemma SameChains(n: map<string, AgentNode>, m: map<string, AgentNode>, a: string, k: nat)
    requires SameDependencies(n, m)
    ensures ChainFrom(n, a, k) <==> ChainFrom(m, a, k)
  {
    if ChainFrom(n, a, k) {
      var p: seq<string> :| |p| == k + 1 && p[0] == a && IsPath(DependenciesGraph(n), p);
      SameDependenciesSameChains(n, m, p);
    }
    if ChainFrom(m, a, k) {
      var p: seq<string> :| |p| == k + 1 && p[0] == a && IsPath(DependenciesGraph(m), p);
      SameDependenciesSameChains(n, m, p);
    }
  }

  lemma RegisteringKeepsDependencies(s: State, from: string, to: string)
    ensures SameDependencies(s.nodes, Registered(s, from, to).nodes)
  {
  }

  /** Only a new dependency changes dependencies. */
  lemma OtherStepsKeepDependencies(cfg: Config, s: State, op: Op)
    requires !op.OpAddDependency?
    ensures SameDependencies(s.nodes, Step(cfg, s, op).nodes)
  {
    match op
    case OpRegister(id, tier) =>
    case OpReadBreaker(from, to, at) =>
    case OpRecordSuccess(from, to) =>
      RecordSuccessSameLinks(s, from, to);
      SameLinksFields(s, Step(cfg, s, op));
    case OpRecordFailure(from, to, reason, at) =>
      RecordFailureSameLinks(cfg, s, from, to, reason, at);
      SameLinksFields(s, Step(cfg, s, op));
    case OpPropagateHealth(id) =>
      PropagateHealthSameLinks(s, id);
      SameLinksFields(s, Step(cfg, s, op));
    case OpResetAgent(id) =>
    case OpAnalyze(at) =>
  }

  /** What adding a dependency comes to: the agents registered, and the edge linked if it is new and admitted. */
  lemma AddDependencyLinks(cfg: Config, s: State, from: string, to: string)
    ensures var r := Registered(s, from, to);
            AddDependency(cfg, s, from, to).0 ==
            if to !in r.nodes[from].dependencies && AddDependency(cfg, s, from, to).1 == Added
            then Link(cfg, r, from, to) else r
  {
  }

  /** One operation keeps all agents within their limits exactly if the edge it adds, if any, fits. */
  lemma StepKeepsLimitsIff(cfg: Config, s: State, op: Op)
    requires WithinLimits(cfg, s.nodes)
    ensures WithinLimits(cfg, Step(cfg, s, op).nodes) <==> StepFits(cfg, s, op)
  {
    if op.OpAddDependency? {
      var r := Registered(s, op.from, op.to);
      RegisteringKeepsDependencies(s, op.from, op.to);
      SameDependenciesSameLimits(cfg, s.nodes, r.nodes);
      AddDependencyLinks(cfg, s, op.from, op.to);
      LinkKeepsLimitsIff(cfg, r, op.from, op.to);
    } else {
      OtherStepsKeepDependencies(cfg, s, op);
      SameDependenciesSameLimits(cfg, s.nodes, Step(cfg, s, op).nodes);
    }
  }

  /** A limit once passed stays passed. */
  lemma LimitsHeldBefore(cfg: Config, s: State, t: State)
    requires Extends(s, t) && WithinLimits(cfg, t.nodes)
    ensures WithinLimits(cfg, s.nodes)
  {
    forall a, n: nat | a in s.nodes && n > 0 && ChainFrom(s.nodes, a, n)
      ensures n <= DepthLimit(cfg, s.nodes, a)
    {
      ChainSurvives(s, t, a, n);
    }
  }

  /** Every edge the run added fitted when it was added. */
  ghost predicate StepsFit(cfg: Config, ops: seq<Op>) {
    ops == [] ||
    var init, last := ops[..|ops| - 1], ops[|ops| - 1];
    StepsFit(cfg, init) && StepFits(cfg, Run(cfg, init), last)
  }

  /** Over every run, all agents are within their limits at the end exactly if every edge fitted when it was added. */
  lemma {:induction false} RunKeepsLimitsIff(cfg: Config, ops: seq<Op>)
    ensures WithinLimits(cfg, Run(cfg, ops).nodes) <==> StepsFit(cfg, ops)
  {
    if ops == [] {
    } else {
      var init, last := ops[..|ops| - 1], ops[|ops| - 1];
      RunKeepsLimitsIff(cfg, init);
      LimitsOfStep(cfg, Run(cfg, init), last);
    }
  }

  lemma LimitsOfStep(cfg: Config, s: State, op: Op)
    ensures WithinLimits(cfg, Step(cfg, s, op).nodes) <==> WithinLimits(cfg, s.nodes) && StepFits(cfg, s, op)
  {
    StepExtends(cfg, s, op);
    if WithinLimits(cfg, Step(cfg, s, op).nodes) {
      LimitsHeldBefore(cfg, s, Step(cfg, s, op));
    }
    if WithinLimits(cfg, s.nodes) {
      StepKeepsLimitsIff(cfg, s, op);
    }
  }

  // ---------- bottom-up ----------

  /** A dependency declared bottom-up: nothing depends on the caller yet, and a tree lies below the callee. */
  ghost predicate BottomUp(s: State, op: Op) {
    op.OpAddDependency? ==>
      var r := Registered(s, op.from, op.to);
      op.from != op.to && r.nodes[op.from].dependents == [] && TreeBelow(r.nodes, op.to)
  }

  lemma NothingReachesTop(nodes: map<string, AgentNode>, from: string, a: string, k: nat)
    requires Converse(nodes) && from in nodes && nodes[from].dependents == [] && ChainBetween(nodes, a, from, k)
    ensures k == 0 && a == from
  {
    var p: seq<string> :| |p| == k + 1 && PathFromTo(DependenciesGraph(nodes), p, a, from);
    if k > 0 {
      assert p[k - 1 + 1] in Succ(DependenciesGraph(nodes), p[k - 1]);
      assert DependsOn(nodes, p[k - 1], from);
    }
  }

  lemma BottomUpFits(cfg: Config, s: State, op: Op)
    requires Invariant(cfg, s) && BottomUp(s, op)
    ensures StepFits(cfg, s, op)
  {
    if op.OpAddDependency? && AddDependency(cfg, s, op.from, op.to).1 == Added {
      var r := Registered(s, op.from, op.to);
      RegisterKeepsInvariant(cfg, s, op.from, Provisional);
      RegisterKeepsInvariant(cfg, Register(s, op.from, Provisional), op.to, Provisional);
      if op.to !in r.nodes[op.from].dependencies {
        TopEdgeFits(cfg, r, op.from, op.to);
      }
    }
  }

  lemma TopEdgeFits(cfg: Config, r: State, from: string, to: string)
    requires Converse(r.nodes) && from in r.nodes && to in r.nodes && from != to
    requires r.nodes[from].dependents == [] && TreeBelow(r.nodes, to)
    requires DepthTo(r.nodes, to, {}).0 + 1 <= DepthLimit(cfg, r.nodes, from)
    ensures EdgeFits(cfg, r.nodes, from, to)
  {
    var g := DependenciesGraph(r.nodes);
    if Reaches(g, to, from) {
      var p: seq<string> :| PathFromTo(g, p, to, from);
      assert ChainBetween(r.nodes, to, from, |p| - 1);
      NothingReachesTop(r.nodes, from, to, |p| - 1);
      assert false;
    }
    forall a, k: nat, n: nat | a in r.nodes && ChainBetween(r.nodes, a, from, k) && ChainFrom(r.nodes, to, n)
      ensures k + 1 + n <= DepthLimit(cfg, r.nodes, a)
    {
      NothingReachesTop(r.nodes, from, a, k);
      DepthIsLongestInTree(r.nodes, to, n);
    }
  }

  /** Every dependency of the run was declared bottom-up. */
  ghost predicate AllBottomUp(cfg: Config, ops: seq<Op>) {
    ops == [] ||
    var init, last := ops[..|ops| - 1], ops[|ops| - 1];
    AllBottomUp(cfg, init) && BottomUp(Run(cfg, init), last)
  }

  lemma {:induction false} BottomUpStepsFit(cfg: Config, ops: seq<Op>)
    requires AllBottomUp(cfg, ops)
    ensures StepsFit(cfg, ops)
  {
    if ops == [] {
    } else {
      var init, last := ops[..|ops| - 1], ops[|ops| - 1];
      BottomUpStepsFit(cfg, init);
      RunKeepsInvariant(cfg, init);
      BottomUpFits(cfg, Run(cfg, init), last);
    }
  }

  /** Every run that declares its dependencies bottom-up over trees keeps every agent within its tier's depth. */
  lemma BottomUpRunsKeepLimits(cfg: Config, ops: seq<Op>)
    requires AllBottomUp(cfg, ops)
    ensures WithinLimits(cfg, Run(cfg, ops).nodes)
  {
    BottomUpStepsFit(cfg, ops);
    RunKeepsLimitsIff(cfg, ops);
  }
}
