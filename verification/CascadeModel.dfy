/**
  Cascade containment on values: the dependency graph, the per-link breakers and the event log as one
  state, each public operation as a function on it, and what every run of operations keeps.
 */
module CascadeModel {
  import opened Metrics
  import opened Wrappers
  import opened Reachability

  datatype TrustTier = Untrusted | Provisional | Trusted | Verified

  datatype HealthStatus = Healthy | Degraded | Failing | Unreachable

  datatype CascadeAction = CircuitOpened | AgentQuarantined | RollbackTriggered | HealthPropagated

  datatype BlastRadiusPolicy = BlastRadiusPolicy(
    maxDependencyDepth: int,
    maxFanout: int,
    circuitBreakerThreshold: int,
    circuitBreakerResetMs: int,
    autoQuarantine: bool,
    autoRollback: bool)

  datatype PolicyOverride = PolicyOverride(
    maxDependencyDepth: Option<int>,
    maxFanout: Option<int>,
    circuitBreakerThreshold: Option<int>,
    circuitBreakerResetMs: Option<int>,
    autoQuarantine: Option<bool>,
    autoRollback: Option<bool>)

  datatype Config = Config(
    defaultPolicy: BlastRadiusPolicy,
    tierPolicies: map<TrustTier, PolicyOverride>,
    cascadeThreshold: int)

  datatype AgentNode = AgentNode(
    trustTier: TrustTier,
    healthStatus: HealthStatus,
    dependencies: seq<string>,
    dependents: seq<string>)

  datatype CascadeEvent = CascadeEvent(
    sourceAgentId: string,
    affectedAgentIds: seq<string>,
    action: CascadeAction,
    reason: string,
    blastRadius: nat,
    containedAt: nat)

  datatype State = State(
    nodes: map<string, AgentNode>,
    breakers: map<string, Breaker>,
    events: seq<CascadeEvent>)

  // ---------- policies ----------

  const DEFAULT_BLAST_RADIUS_POLICY := BlastRadiusPolicy(5, 10, 5, 30_000, true, false)

  function TierDefaults(tier: TrustTier): PolicyOverride {
    match tier
    case Untrusted => PolicyOverride(Some(2), Some(3), Some(3), None, Some(true), Some(true))
    case Provisional => PolicyOverride(Some(3), Some(5), Some(4), None, Some(true), Some(false))
    case Trusted => PolicyOverride(Some(5), Some(10), Some(5), None, Some(false), Some(false))
    case Verified => PolicyOverride(Some(8), Some(20), Some(8), None, Some(false), Some(false))
  }

  /** The overrides configured for the tier if there are any, else the built-in ones, over the default policy. */
  function PolicyForTier(cfg: Config, tier: TrustTier): BlastRadiusPolicy {
    var o := if tier in cfg.tierPolicies then cfg.tierPolicies[tier] else TierDefaults(tier);
    var d := cfg.defaultPolicy;
    BlastRadiusPolicy(
      GetOr(o.maxDependencyDepth, d.maxDependencyDepth), GetOr(o.maxFanout, d.maxFanout),
      GetOr(o.circuitBreakerThreshold, d.circuitBreakerThreshold), GetOr(o.circuitBreakerResetMs, d.circuitBreakerResetMs),
      GetOr(o.autoQuarantine, d.autoQuarantine), GetOr(o.autoRollback, d.autoRollback))
  }

  function PolicyForAgent(cfg: Config, nodes: map<string, AgentNode>, id: string): BlastRadiusPolicy {
    PolicyForTier(cfg, if id in nodes then nodes[id].trustTier else Provisional)
  }

  // ---------- links ----------

  function LinkKey(from: string, to: string): string {
    from + "->" + to
  }

  predicate HasArrow(id: string) {
    exists i | 0 <= i < |id| - 1 :: id[i] == '-' && id[i + 1] == '>'
  }

  /** Two links share a breaker key only when they are the same link, provided the callers' ids have no arrow. */
  lemma LinkKeyInjective(a: string, b: string, c: string, d: string)
    requires !HasArrow(a) && !HasArrow(c)
    ensures LinkKey(a, b) == LinkKey(c, d) <==> a == c && b == d
  {
    var k, l := LinkKey(a, b), LinkKey(c, d);
    if k == l {
      assert k[|a|] == '-' && k[|a| + 1] == '>' && l[|c|] == '-' && l[|c| + 1] == '>';
      assert forall i | 0 <= i < |a| :: k[i] == a[i];
      assert forall i | 0 <= i < |c| :: l[i] == c[i];
      assert a == k[..|a|] && c == l[..|c|];
      assert b == k[|a| + 2..] && d == l[|c| + 2..];
    }
  }

  lemma {:induction false} FirstArrow(id: string) returns (i: nat)
    requires HasArrow(id)
    ensures i + 2 <= |id| && id[i] == '-' && id[i + 1] == '>' && !HasArrow(id[..i])
  {
    if id[0] == '-' && id[1] == '>' {
      i := 0;
    } else {
      var rest := id[1..];
      var k :| 0 <= k < |id| - 1 && id[k] == '-' && id[k + 1] == '>';
      assert rest[k - 1] == '-' && rest[k - 1 + 1] == '>';
      var j := FirstArrow(rest);
      i := j + 1;
      forall k | 0 <= k < |id[..i]| - 1
        ensures !(id[..i][k] == '-' && id[..i][k + 1] == '>')
      {
        assert k > 0 ==> rest[..j][k - 1] == id[k] && rest[..j][k - 1 + 1] == id[k + 1];
      }
    }
  }

  /** The link that shares its key with one whose caller's id has an arrow: split at the first arrow. */
  lemma CollidingLink(a: string, b: string) returns (c: string, d: string)
    requires HasArrow(a)
    ensures !HasArrow(c) && c != a && LinkKey(a, b) == LinkKey(c, d)
  {
    var i := FirstArrow(a);
    c, d := a[..i], a[i + 2..] + "->" + b;
    assert a == c + "->" + a[i + 2..];
    assert LinkKey(a, b) == c + ("->" + (a[i + 2..] + "->" + b)) == LinkKey(c, d);
  }

  /** A link shares its key with some other link, of a caller without an arrow in its id, exactly if its own caller's id
      has one. */
  lemma LinkKeyCollidesIff(a: string, b: string)
    ensures HasArrow(a) <==> exists c, d :: !HasArrow(c) && (c != a || d != b) && LinkKey(a, b) == LinkKey(c, d)
  {
    if HasArrow(a) {
      var c, d := CollidingLink(a, b);
    } else {
      forall c, d | !HasArrow(c) && LinkKey(a, b) == LinkKey(c, d)
        ensures c == a && d == b
      {
        LinkKeyInjective(a, b, c, d);
      }
    }
  }

  // ---------- graph measures ----------

  function DependentsGraph(nodes: map<string, AgentNode>): Graph {
    map id | id in nodes :: set d | d in nodes[id].dependents
  }

  function DependenciesGraph(nodes: map<string, AgentNode>): Graph {
    map id | id in nodes :: set d | d in nodes[id].dependencies
  }

  /** How many other agents have a dependency path to `id`. */
  ghost function BlastRadius(nodes: map<string, AgentNode>, id: string): nat {
    |ReachSet(DependentsGraph(nodes), id) - {id}|
  }

  /** The depth measure: one visited set is shared by the whole traversal. */
  function DepthTo(nodes: map<string, AgentNode>, id: string, visited: set<string>): (r: (nat, set<string>))
    ensures visited <= r.1
    decreases nodes.Keys - visited, 1, 0
  {
    if id in visited then (0, visited)
    else if id !in nodes || nodes[id].dependencies == [] then (0, visited + {id})
    else DepthOver(nodes, id, |nodes[id].dependencies|, visited)
  }

  /** The loop of the depth measure over the first `n` dependencies of `id`. */
  function DepthOver(nodes: map<string, AgentNode>, id: string, n: nat, visited: set<string>): (r: (nat, set<string>))
    requires id in nodes && id !in visited && n <= |nodes[id].dependencies|
    ensures visited + {id} <= r.1
    decreases nodes.Keys - visited, 0, n
  {
    if n == 0 then (0, visited + {id})
    else
      var (soFar, seen) := DepthOver(nodes, id, n - 1, visited);
      var (depth, seen') := DepthTo(nodes, nodes[id].dependencies[n - 1], seen);
      (if soFar >= 1 + depth then soFar else 1 + depth, seen')
  }

  /** There is a chain of `n` dependencies that starts at `id`. */
  ghost predicate ChainFrom(nodes: map<string, AgentNode>, id: string, n: nat) {
    exists p: seq<string> :: |p| == n + 1 && p[0] == id && IsPath(DependenciesGraph(nodes), p)
  }

  lemma ChainCons(nodes: map<string, AgentNode>, id: string, dep: string, n: nat)
    requires id in nodes && dep in nodes[id].dependencies && ChainFrom(nodes, dep, n)
    ensures ChainFrom(nodes, id, n + 1)
  {
    var p: seq<string> :| |p| == n + 1 && p[0] == dep && IsPath(DependenciesGraph(nodes), p);
    var q := [id] + p;
    assert forall i | 0 < i < |q| :: q[i] == p[i - 1];
    assert |q| == n + 2 && q[0] == id && IsPath(DependenciesGraph(nodes), q);
  }

  /** The measured depth is never invented: a chain of that many dependencies exists. */
  lemma {:induction false} DepthIsRealChain(nodes: map<string, AgentNode>, id: string, visited: set<string>)
    ensures ChainFrom(nodes, id, DepthTo(nodes, id, visited).0)
    decreases nodes.Keys - visited, 1, 0
  {
    if id in visited || id !in nodes || nodes[id].dependencies == [] {
      assert IsPath(DependenciesGraph(nodes), [id]);
    } else {
      DepthOverIsRealChain(nodes, id, |nodes[id].dependencies|, visited);
    }
  }

  lemma {:induction false} DepthOverIsRealChain(nodes: map<string, AgentNode>, id: string, n: nat, visited: set<string>)
    requires id in nodes && id !in visited && n <= |nodes[id].dependencies|
    ensures ChainFrom(nodes, id, DepthOver(nodes, id, n, visited).0)
    decreases nodes.Keys - visited, 0, n
  {
    if n == 0 {
      assert IsPath(DependenciesGraph(nodes), [id]);
    } else {
      DepthOverIsRealChain(nodes, id, n - 1, visited);
      var dep, seen := nodes[id].dependencies[n - 1], DepthOver(nodes, id, n - 1, visited).1;
      DepthIsRealChain(nodes, dep, seen);
      ChainCons(nodes, id, dep, DepthTo(nodes, dep, seen).0);
    }
  }

  // ---------- operations ----------

  const EMPTY := State(map[], map[], [])

  function Register(s: State, id: string, tier: TrustTier): State {
    if id in s.nodes then s
    else s.(nodes := s.nodes[id := AgentNode(tier, Healthy, [], [])])
  }

  datatype AddOutcome = Added | FanoutExceeded(max: int) | DepthExceeded(depth: nat, max: int)

  /** Each of the two lists gets the other agent at its end. */
  function WithEdge(nodes: map<string, AgentNode>, from: string, to: string): map<string, AgentNode>
    requires from in nodes && to in nodes
  {
    var m := nodes[from := nodes[from].(dependencies := nodes[from].dependencies + [to])];
    m[to := m[to].(dependents := m[to].dependents + [from])]
  }

  function WithBreaker(breakers: map<string, Breaker>, key: string, policy: BlastRadiusPolicy): map<string, Breaker> {
    if key in breakers then breakers
    else breakers[key := NewBreaker(policy.circuitBreakerThreshold, policy.circuitBreakerResetMs)]
  }

  /** `from` now depends on `to`; the link gets a breaker unless its key already has one. */
  function Link(cfg: Config, s: State, from: string, to: string): State
    requires from in s.nodes && to in s.nodes
  {
    State(WithEdge(s.nodes, from, to),
          WithBreaker(s.breakers, LinkKey(from, to), PolicyForAgent(cfg, s.nodes, from)),
          s.events)
  }

  /** Both agents are registered even when the dependency is then refused. */
  function AddDependency(cfg: Config, s0: State, from: string, to: string): (State, AddOutcome) {
    var s := Register(Register(s0, from, Provisional), to, Provisional);
    if to in s.nodes[from].dependencies then (s, Added)
    else
      var policy := PolicyForAgent(cfg, s.nodes, from);
      var depth := DepthTo(s.nodes, to, {}).0 + 1;
      if |s.nodes[from].dependencies| >= policy.maxFanout then (s, FanoutExceeded(policy.maxFanout))
      else if depth > policy.maxDependencyDepth then (s, DepthExceeded(depth, policy.maxDependencyDepth))
      else (Link(cfg, s, from, to), Added)
  }

  function SetHealth(s: State, id: string, health: HealthStatus): State
    requires id in s.nodes
  {
    s.(nodes := s.nodes[id := s.nodes[id].(healthStatus := health)])
  }

  /** Reading the state of every breaker whose key is in `keys`. */
  function PollKeys(s: State, keys: set<string>, now: int): State {
    s.(breakers := map k | k in s.breakers :: if k in keys then s.breakers[k].Poll(now) else s.breakers[k])
  }

  function SucceedKey(breakers: map<string, Breaker>, key: string): map<string, Breaker> {
    if key in breakers then breakers[key := breakers[key].Succeed()] else breakers
  }

  function RecordSuccess(s: State, from: string, to: string): State {
    var s1 := s.(breakers := SucceedKey(s.breakers, LinkKey(from, to)));
    if to in s1.nodes && s1.nodes[to].healthStatus != Healthy then SetHealth(s1, to, Healthy) else s1
  }

  ghost function Emit(s: State, source: string, affected: seq<string>, action: CascadeAction, reason: string): State {
    s.(events := s.events + [CascadeEvent(source, affected, action, reason, BlastRadius(s.nodes, source), |s.events|)])
  }

  /** Open breakers on the links from the given dependents to `id`. */
  function CountOpen(s: State, dependents: seq<string>, id: string, now: int): nat {
    if dependents == [] then 0
    else
      var key := LinkKey(dependents[|dependents| - 1], id);
      CountOpen(s, dependents[..|dependents| - 1], id, now) +
      if key in s.breakers && s.breakers[key].Poll(now).currentState == Open then 1 else 0
  }

  function LinkKeysTo(dependents: seq<string>, id: string): set<string> {
    set d | d in dependents :: LinkKey(d, id)
  }

  /** First part of a failure: the link's own breaker. */
  ghost function FailLink(s: State, from: string, to: string, reason: string, now: int): State {
    var key := LinkKey(from, to);
    if key !in s.breakers then s
    else
      var b := s.breakers[key].Fail(now).Poll(now);
      var s1 := s.(breakers := s.breakers[key := b]);
      if b.currentState == Open then Emit(s1, to, [from], CircuitOpened, reason) else s1
  }

  /** Second part of a failure: the callee's health, judged by the open breakers on all links to it. */
  function JudgeHealth(cfg: Config, s: State, to: string, now: int): State {
    if to !in s.nodes then s
    else
      var dependents := s.nodes[to].dependents;
      var open := CountOpen(s, dependents, to, now);
      var s1 := PollKeys(s, LinkKeysTo(dependents, to), now);
      if open >= cfg.cascadeThreshold then SetHealth(s1, to, Failing)
      else if open > 0 then SetHealth(s1, to, Degraded)
      else s1
  }

  /** The healthy agents of a list, in the order of the list. */
  function HealthyOnes(nodes: map<string, AgentNode>, ids: seq<string>): seq<string> {
    if ids == [] then []
    else
      var id := ids[|ids| - 1];
      HealthyOnes(nodes, ids[..|ids| - 1]) +
      if id in nodes && nodes[id].healthStatus == Healthy then [id] else []
  }

  function Degrade(nodes: map<string, AgentNode>, ids: set<string>): map<string, AgentNode> {
    map id | id in nodes :: if id in ids then nodes[id].(healthStatus := Degraded) else nodes[id]
  }

  /** Health propagation, which reaches the healthy direct dependents and stops there. */
  ghost function PropagateHealth(s: State, id: string): State {
    if id !in s.nodes || (s.nodes[id].healthStatus != Failing && s.nodes[id].healthStatus != Unreachable) then s
    else
      var affected := HealthyOnes(s.nodes, s.nodes[id].dependents);
      if affected == [] then s
      else Emit(s.(nodes := Degrade(s.nodes, set a | a in affected)), id, affected, HealthPropagated,
                "Health degradation propagated from " + id)
  }

  ghost function Quarantine(cfg: Config, s: State, id: string, reason: string): State
    requires id in s.nodes
  {
    if s.nodes[id].healthStatus == Failing && PolicyForAgent(cfg, s.nodes, id).autoQuarantine
    then PropagateHealth(
        Emit(SetHealth(s, id, Unreachable), id, [id], AgentQuarantined, "Auto-quarantined: " + reason), id)
    else s
  }

  ghost function RollBack(cfg: Config, s: State, id: string, reason: string): State
    requires id in s.nodes
  {
    if s.nodes[id].healthStatus == Unreachable && PolicyForAgent(cfg, s.nodes, id).autoRollback
    then Emit(s, id, [id], RollbackTriggered, "Auto-rollback triggered: " + reason)
    else s
  }

  /** Third part of a failure: quarantine, then rollback, as the callee's policy demands. */
  ghost function ApplyContainment(cfg: Config, s: State, id: string, reason: string): State {
    if id !in s.nodes then s else RollBack(cfg, Quarantine(cfg, s, id, reason), id, reason)
  }

  ghost function RecordFailure(cfg: Config, s: State, from: string, to: string, reason: string, now: int): State {
    ApplyContainment(cfg, JudgeHealth(cfg, FailLink(s, from, to, reason, now), to, now), to, reason)
  }

  function ResetAgent(s: State, id: string): State {
    if id in s.nodes then SetHealth(s, id, Healthy) else s
  }

  // ---------- runs ----------

  datatype Op =
    | OpRegister(id: string, tier: TrustTier)
    | OpAddDependency(from: string, to: string)
    | OpReadBreaker(from: string, to: string, at: int)   // canCall and getBreakerState
    | OpRecordSuccess(from: string, to: string)
    | OpRecordFailure(from: string, to: string, reason: string, at: int)
    | OpPropagateHealth(id: string)
    | OpResetAgent(id: string)
    | OpAnalyze(at: int)

  ghost function Step(cfg: Config, s: State, op: Op): State {
    match op
    case OpRegister(id, tier) => Register(s, id, tier)
    case OpAddDependency(from, to) => AddDependency(cfg, s, from, to).0
    case OpReadBreaker(from, to, at) => PollKeys(s, {LinkKey(from, to)}, at)
    case OpRecordSuccess(from, to) => RecordSuccess(s, from, to)
    case OpRecordFailure(from, to, reason, at) => RecordFailure(cfg, s, from, to, reason, at)
    case OpPropagateHealth(id) => PropagateHealth(s, id)
    case OpResetAgent(id) => ResetAgent(s, id)
    case OpAnalyze(at) => PollKeys(s, s.breakers.Keys, at)
  }

  ghost function Run(cfg: Config, ops: seq<Op>): State {
    if ops == [] then EMPTY else Step(cfg, Run(cfg, ops[..|ops| - 1]), ops[|ops| - 1])
  }

  // ---------- what every run keeps ----------

  ghost predicate NoDuplicates(ids: seq<string>) {
    forall i, j | 0 <= i < j < |ids| :: ids[i] != ids[j]
  }

  predicate DependsOn(nodes: map<string, AgentNode>, a: string, b: string) {
    a in nodes && b in nodes[a].dependencies
  }

  predicate HasDependent(nodes: map<string, AgentNode>, b: string, a: string) {
    b in nodes && a in nodes[b].dependents
  }

  ghost predicate EachEdgeOnce(nodes: map<string, AgentNode>) {
    forall a | a in nodes :: NoDuplicates(nodes[a].dependencies) && NoDuplicates(nodes[a].dependents)
  }

  /** The two edge lists of every pair of agents say the same thing. */
  ghost predicate Converse(nodes: map<string, AgentNode>) {
    forall a, b :: DependsOn(nodes, a, b) <==> HasDependent(nodes, b, a)
  }

  ghost predicate FanoutBounded(cfg: Config, nodes: map<string, AgentNode>) {
    forall a | a in nodes ::
      |nodes[a].dependencies| <= PolicyForTier(cfg, nodes[a].trustTier).maxFanout || nodes[a].dependencies == []
  }

  ghost predicate EveryLinkHasBreaker(s: State) {
    forall a, b :: DependsOn(s.nodes, a, b) ==> LinkKey(a, b) in s.breakers
  }

  /** `Failing` only where agents are not quarantined automatically, `Unreachable` only where they are. */
  ghost predicate HealthFitsTier(cfg: Config, node: AgentNode) {
    && (node.healthStatus == Failing ==> !PolicyForTier(cfg, node.trustTier).autoQuarantine)
    && (node.healthStatus == Unreachable ==> PolicyForTier(cfg, node.trustTier).autoQuarantine)
  }

  ghost predicate HealthFits(cfg: Config, nodes: map<string, AgentNode>) {
    forall a | a in nodes :: HealthFitsTier(cfg, nodes[a])
  }

  /** Quarantine and rollback are logged only for agents whose policy asks for them. */
  ghost predicate EventFits(cfg: Config, nodes: map<string, AgentNode>, e: CascadeEvent) {
    e.action == AgentQuarantined || e.action == RollbackTriggered ==>
      && e.sourceAgentId in nodes
      && var policy := PolicyForTier(cfg, nodes[e.sourceAgentId].trustTier);
         policy.autoQuarantine && (e.action == RollbackTriggered ==> policy.autoRollback)
  }

  ghost predicate LogFits(cfg: Config, s: State) {
    forall i | 0 <= i < |s.events| :: s.events[i].containedAt == i && EventFits(cfg, s.nodes, s.events[i])
  }

  ghost predicate Structure(cfg: Config, s: State) {
    && Converse(s.nodes)
    && EachEdgeOnce(s.nodes)
    && FanoutBounded(cfg, s.nodes)
    && EveryLinkHasBreaker(s)
  }

  ghost predicate Invariant(cfg: Config, s: State) {
    Structure(cfg, s) && HealthFits(cfg, s.nodes) && LogFits(cfg, s)
  }

  /** The same agents with the same tiers and the same edges; only health may differ. */
  ghost predicate SameGraph(n: map<string, AgentNode>, m: map<string, AgentNode>) {
    && n.Keys == m.Keys
    && forall a | a in n :: n[a].(healthStatus := Healthy) == m[a].(healthStatus := Healthy)
  }

  /** What may follow a state: nothing registered, linked, given a breaker or logged is ever taken back. */
  ghost predicate Extends(s: State, t: State) {
    && s.nodes.Keys <= t.nodes.Keys
    && s.breakers.Keys <= t.breakers.Keys
    && s.events <= t.events
    && forall a | a in s.nodes ::
         && s.nodes[a].trustTier == t.nodes[a].trustTier
         && s.nodes[a].dependencies <= t.nodes[a].dependencies
         && s.nodes[a].dependents <= t.nodes[a].dependents
  }

  ghost predicate SameLinks(s: State, t: State) {
    SameGraph(s.nodes, t.nodes) && s.breakers.Keys == t.breakers.Keys && s.events <= t.events
  }

  lemma SameLinksFields(s: State, t: State)
    requires SameLinks(s, t)
    ensures Extends(s, t)
    ensures forall a | a in s.nodes ::
              && s.nodes[a].dependencies == t.nodes[a].dependencies
              && s.nodes[a].dependents == t.nodes[a].dependents
  {
    forall a | a in s.nodes
      ensures s.nodes[a].trustTier == t.nodes[a].trustTier
      ensures s.nodes[a].dependencies == t.nodes[a].dependencies
      ensures s.nodes[a].dependents == t.nodes[a].dependents
    {
      var n, m := s.nodes[a].(healthStatus := Healthy), t.nodes[a].(healthStatus := Healthy);
      assert n == m;
      assert n.trustTier == m.trustTier && n.dependencies == m.dependencies && n.dependents == m.dependents;
    }
  }

  // ---------- the operations that leave the graph alone ----------

  lemma FailLinkSameLinks(s: State, from: string, to: string, reason: string, now: int)
    ensures SameLinks(s, FailLink(s, from, to, reason, now))
    ensures FailLink(s, from, to, reason, now).nodes == s.nodes
  {
  }

  lemma JudgeHealthSameLinks(cfg: Config, s: State, to: string, now: int)
    ensures SameLinks(s, JudgeHealth(cfg, s, to, now))
    ensures JudgeHealth(cfg, s, to, now).events == s.events
  {
  }

  lemma SameLinksTransitive(s: State, t: State, u: State)
    requires SameLinks(s, t) && SameLinks(t, u)
    ensures SameLinks(s, u)
  {
  }

  lemma PropagateHealthSameLinks(s: State, id: string)
    ensures SameLinks(s, PropagateHealth(s, id))
  {
  }

  lemma MarkingSameLinks(s: State, id: string, health: HealthStatus, affected: seq<string>, action: CascadeAction,
                         reason: string)
    requires id in s.nodes
    ensures SameLinks(s, Emit(SetHealth(s, id, health), id, affected, action, reason))
  {
  }

  lemma QuarantineSameLinks(cfg: Config, s: State, id: string, reason: string)
    requires id in s.nodes
    ensures SameLinks(s, Quarantine(cfg, s, id, reason))
  {
    var s1 := Emit(SetHealth(s, id, Unreachable), id, [id], AgentQuarantined, "Auto-quarantined: " + reason);
    MarkingSameLinks(s, id, Unreachable, [id], AgentQuarantined, "Auto-quarantined: " + reason);
    PropagateHealthSameLinks(s1, id);
    SameLinksTransitive(s, s1, PropagateHealth(s1, id));
  }

  lemma ApplyContainmentSameLinks(cfg: Config, s: State, id: string, reason: string)
    ensures SameLinks(s, ApplyContainment(cfg, s, id, reason))
  {
    if id in s.nodes {
      var s1 := Quarantine(cfg, s, id, reason);
      QuarantineSameLinks(cfg, s, id, reason);
      SameLinksTransitive(s, s1, RollBack(cfg, s1, id, reason));
    }
  }

  lemma RecordFailureSameLinks(cfg: Config, s: State, from: string, to: string, reason: string, now: int)
    ensures SameLinks(s, RecordFailure(cfg, s, from, to, reason, now))
  {
    var s1 := FailLink(s, from, to, reason, now);
    FailLinkSameLinks(s, from, to, reason, now);
    JudgeHealthSameLinks(cfg, s1, to, now);
    ApplyContainmentSameLinks(cfg, JudgeHealth(cfg, s1, to, now), to, reason);
  }

  lemma RecordSuccessSameLinks(s: State, from: string, to: string)
    ensures SameLinks(s, RecordSuccess(s, from, to))
  {
  }

  lemma ExtendsTransitive(s: State, t: State, u: State)
    requires Extends(s, t) && Extends(t, u)
    ensures Extends(s, u)
  {
  }

  lemma RegisterExtends(s: State, id: string, tier: TrustTier)
    ensures Extends(s, Register(s, id, tier))
  {
  }

  lemma LinkExtends(cfg: Config, s: State, from: string, to: string)
    requires from in s.nodes && to in s.nodes
    ensures Extends(s, Link(cfg, s, from, to))
  {
  }

  lemma AddDependencyExtends(cfg: Config, s: State, from: string, to: string)
    ensures Extends(s, AddDependency(cfg, s, from, to).0)
  {
    var s1 := Register(s, from, Provisional);
    var s2 := Register(s1, to, Provisional);
    RegisterExtends(s, from, Provisional);
    RegisterExtends(s1, to, Provisional);
    ExtendsTransitive(s, s1, s2);
    LinkExtends(cfg, s2, from, to);
    ExtendsTransitive(s, s2, Link(cfg, s2, from, to));
  }

  lemma StepExtends(cfg: Config, s: State, op: Op)
    ensures Extends(s, Step(cfg, s, op))
  {
    match op
    case OpRegister(id, tier) =>
    case OpAddDependency(from, to) => AddDependencyExtends(cfg, s, from, to);
    case OpReadBreaker(from, to, at) =>
    case OpRecordSuccess(from, to) =>
      RecordSuccessSameLinks(s, from, to);
      SameLinksFields(s, Step(cfg, s, op));
    case OpRecordFailure(from, to, reason, at) =>
      RecordFailureSameLinks(cfg, s, from, to, reason, at);
      SameLinksFields(s, Step(cfg, s, op));
    case OpPropagateHealth(id) =>
      PropagateHealthSameLinks(s, id);
      SameLinksFields(s, Step(cfg, s, op));
    case OpResetAgent(id) =>
    case OpAnalyze(at) =>
  }

  /** Over every run, from any point to any later one, nothing registered, linked or logged is taken back. */
  lemma {:induction false} RunExtends(cfg: Config, ops: seq<Op>, k: nat)
    requires k <= |ops|
    ensures Extends(Run(cfg, ops[..k]), Run(cfg, ops))
  {
    if k == |ops| {
      assert ops[..k] == ops;
    } else {
      var init := ops[..|ops| - 1];
      RunExtends(cfg, init, k);
      assert init[..k] == ops[..k];
      StepExtends(cfg, Run(cfg, init), ops[|ops| - 1]);
    }
  }

  /** So no agent's blast radius ever shrinks during a run. */
  lemma BlastRadiusNeverShrinks(cfg: Config, ops: seq<Op>, k: nat, id: string)
    requires k <= |ops|
    ensures BlastRadius(Run(cfg, ops[..k]).nodes, id) <= BlastRadius(Run(cfg, ops).nodes, id)
  {
    var n, m := Run(cfg, ops[..k]).nodes, Run(cfg, ops).nodes;
    RunExtends(cfg, ops, k);
    var g, h := DependentsGraph(n), DependentsGraph(m);
    forall u
      ensures Succ(g, u) <= Succ(h, u)
    {
      if u in n {
        assert n[u].dependents <= m[u].dependents;
        assert forall d | d in n[u].dependents :: d in m[u].dependents;
      }
    }
    ReachSetMonotone(g, h, id);
    SubsetIsNoLarger(ReachSet(g, id) - {id}, ReachSet(h, id) - {id});
  }

  lemma {:induction false} SubsetIsNoLarger<T>(a: set<T>, b: set<T>)
    requires a <= b
    ensures |a| <= |b|
  {
    assert b == a + (b - a);
  }

  /** A registered agent's blast radius counts registered agents other than itself. */
  lemma BlastRadiusBound(nodes: map<string, AgentNode>, id: string)
    requires Converse(nodes) && id in nodes
    ensures BlastRadius(nodes, id) <= |nodes| - 1
  {
    var g := DependentsGraph(nodes);
    forall y | y in ReachSet(g, id)
      ensures y in nodes
    {
      if y != id {
        var k :| k in g && y in g[k];
        assert HasDependent(nodes, k, y) && DependsOn(nodes, y, k);
      }
    }
    SubsetIsNoLarger(ReachSet(g, id) - {id}, nodes.Keys - {id});
  }

  /** The blast radius is the number of other registered agents with a dependency path to the agent. */
  lemma BlastRadiusCountsTransitiveDependents(nodes: map<string, AgentNode>, id: string)
    requires Converse(nodes)
    ensures BlastRadius(nodes, id) == |set y | y in nodes && y != id && Reaches(DependenciesGraph(nodes), y, id)|
  {
    var g, h := DependentsGraph(nodes), DependenciesGraph(nodes);
    assert Reversed(g, h) by {
      forall a, b
        ensures b in Succ(g, a) <==> a in Succ(h, b)
      {
        assert HasDependent(nodes, a, b) == DependsOn(nodes, b, a);
      }
    }
    forall y
      ensures y in ReachSet(g, id) - {id} <==> y in nodes && y != id && Reaches(h, y, id)
    {
      InReachSet(g, id, y);
      if Reaches(g, id, y) {
        ReversedReach(g, h, id, y);
        if y != id {
          var k :| k in g && y in g[k];
          assert HasDependent(nodes, k, y) && DependsOn(nodes, y, k);
        }
      }
      if Reaches(h, y, id) {
        assert Reversed(h, g);
        ReversedReach(h, g, y, id);
      }
    }
    assert ReachSet(g, id) - {id} == set y | y in nodes && y != id && Reaches(h, y, id);
  }

  // ---------- the invariant ----------

  lemma JudgeHealthKeepsEdgesOnce(cfg: Config, s: State, to: string, now: int)
    requires EachEdgeOnce(s.nodes)
    ensures EachEdgeOnce(JudgeHealth(cfg, s, to, now).nodes)
  {
    JudgeHealthSameLinks(cfg, s, to, now);
    SameLinksFields(s, JudgeHealth(cfg, s, to, now));
  }

  lemma SameLinksKeepStructure(cfg: Config, s: State, t: State)
    requires SameLinks(s, t) && Structure(cfg, s)
    ensures Structure(cfg, t)
  {
    SameLinksFields(s, t);
    assert forall a, b :: DependsOn(t.nodes, a, b) == DependsOn(s.nodes, a, b);
    assert forall a, b :: HasDependent(t.nodes, b, a) == HasDependent(s.nodes, b, a);
  }

  lemma RegisterKeepsStructure(cfg: Config, s: State, id: string, tier: TrustTier)
    requires Structure(cfg, s)
    ensures Structure(cfg, Register(s, id, tier))
  {
    var t := Register(s, id, tier);
    assert forall a, b :: DependsOn(t.nodes, a, b) == DependsOn(s.nodes, a, b);
    assert forall a, b :: HasDependent(t.nodes, b, a) == HasDependent(s.nodes, b, a);
  }

  /** Any step that leaves tiers and log alone keeps the log fitting. */
  lemma ExtensionKeepsLog(cfg: Config, s: State, t: State)
    requires Extends(s, t) && s.events == t.events && LogFits(cfg, s)
    ensures LogFits(cfg, t)
  {
  }

  lemma RegisterKeepsInvariant(cfg: Config, s: State, id: string, tier: TrustTier)
    requires Invariant(cfg, s)
    ensures Invariant(cfg, Register(s, id, tier))
  {
    RegisterKeepsStructure(cfg, s, id, tier);
    RegisterExtends(s, id, tier);
    ExtensionKeepsLog(cfg, s, Register(s, id, tier));
  }

  lemma LinkAddsOneEdge(cfg: Config, s: State, from: string, to: string)
    requires from in s.nodes && to in s.nodes
    ensures var t := Link(cfg, s, from, to);
            && (forall a, b :: DependsOn(t.nodes, a, b) <==> DependsOn(s.nodes, a, b) || (a == from && b == to))
            && (forall a, b :: HasDependent(t.nodes, b, a) <==> HasDependent(s.nodes, b, a) || (a == from && b == to))
  {
  }

  lemma LinkKeepsEdgesOnce(cfg: Config, s: State, from: string, to: string)
    requires EachEdgeOnce(s.nodes) && from in s.nodes && to in s.nodes
    requires to !in s.nodes[from].dependencies && from !in s.nodes[to].dependents
    ensures EachEdgeOnce(Link(cfg, s, from, to).nodes)
  {
  }

  lemma LinkKeepsFanout(cfg: Config, s: State, from: string, to: string)
    requires FanoutBounded(cfg, s.nodes) && from in s.nodes && to in s.nodes
    requires |s.nodes[from].dependencies| < PolicyForAgent(cfg, s.nodes, from).maxFanout
    ensures FanoutBounded(cfg, Link(cfg, s, from, to).nodes)
  {
  }

  lemma LinkKeepsStructure(cfg: Config, s: State, from: string, to: string)
    requires Structure(cfg, s) && from in s.nodes && to in s.nodes && to !in s.nodes[from].dependencies
    requires |s.nodes[from].dependencies| < PolicyForAgent(cfg, s.nodes, from).maxFanout
    ensures Structure(cfg, Link(cfg, s, from, to))
  {
    assert !DependsOn(s.nodes, from, to) && !HasDependent(s.nodes, to, from);
    LinkAddsOneEdge(cfg, s, from, to);
    LinkKeepsEdgesOnce(cfg, s, from, to);
    LinkKeepsFanout(cfg, s, from, to);
  }

  lemma LinkKeepsHealth(cfg: Config, s: State, from: string, to: string)
    requires HealthFits(cfg, s.nodes) && from in s.nodes && to in s.nodes
    ensures HealthFits(cfg, Link(cfg, s, from, to).nodes)
  {
  }

  lemma LinkKeepsInvariant(cfg: Config, s: State, from: string, to: string)
    requires Invariant(cfg, s) && from in s.nodes && to in s.nodes && to !in s.nodes[from].dependencies
    requires |s.nodes[from].dependencies| < PolicyForAgent(cfg, s.nodes, from).maxFanout
    ensures Invariant(cfg, Link(cfg, s, from, to))
  {
    LinkKeepsStructure(cfg, s, from, to);
    LinkKeepsHealth(cfg, s, from, to);
    LinkExtends(cfg, s, from, to);
    ExtensionKeepsLog(cfg, s, Link(cfg, s, from, to));
  }

  lemma AddDependencyKeepsInvariant(cfg: Config, s: State, from: string, to: string)
    requires Invariant(cfg, s)
    ensures Invariant(cfg, AddDependency(cfg, s, from, to).0)
  {
    var s1 := Register(s, from, Provisional);
    var s2 := Register(s1, to, Provisional);
    RegisterKeepsInvariant(cfg, s, from, Provisional);
    RegisterKeepsInvariant(cfg, s1, to, Provisional);
    if to !in s2.nodes[from].dependencies
       && |s2.nodes[from].dependencies| < PolicyForAgent(cfg, s2.nodes, from).maxFanout {
      LinkKeepsInvariant(cfg, s2, from, to);
    }
  }

  lemma EmitKeepsLog(cfg: Config, s: State, source: string, affected: seq<string>, action: CascadeAction, reason: string)
    requires LogFits(cfg, s)
    requires source in s.nodes || (action != AgentQuarantined && action != RollbackTriggered)
    requires action == AgentQuarantined ==> PolicyForAgent(cfg, s.nodes, source).autoQuarantine
    requires action == RollbackTriggered ==>
               PolicyForAgent(cfg, s.nodes, source).autoQuarantine && PolicyForAgent(cfg, s.nodes, source).autoRollback
    ensures LogFits(cfg, Emit(s, source, affected, action, reason))
  {
  }

  /** Health may differ, tiers may not: the log goes on fitting. */
  lemma SameGraphKeepsLog(cfg: Config, s: State, t: State)
    requires SameGraph(s.nodes, t.nodes) && s.events == t.events && LogFits(cfg, s)
    ensures LogFits(cfg, t)
  {
    forall a | a in s.nodes
      ensures s.nodes[a].trustTier == t.nodes[a].trustTier
    {
      assert s.nodes[a].(healthStatus := Healthy).trustTier == t.nodes[a].(healthStatus := Healthy).trustTier;
    }
  }

  lemma DegradeKeepsHealthFits(cfg: Config, nodes: map<string, AgentNode>, ids: set<string>)
    requires HealthFits(cfg, nodes)
    ensures HealthFits(cfg, Degrade(nodes, ids)) && SameGraph(nodes, Degrade(nodes, ids))
  {
  }

  lemma PropagateKeepsInvariant(cfg: Config, s: State, id: string)
    requires HealthFits(cfg, s.nodes) && LogFits(cfg, s)
    ensures HealthFits(cfg, PropagateHealth(s, id).nodes) && LogFits(cfg, PropagateHealth(s, id))
  {
    if PropagateHealth(s, id) != s {
      var affected := HealthyOnes(s.nodes, s.nodes[id].dependents);
      var s1 := s.(nodes := Degrade(s.nodes, set a | a in affected));
      DegradeKeepsHealthFits(cfg, s.nodes, set a | a in affected);
      SameGraphKeepsLog(cfg, s, s1);
      EmitKeepsLog(cfg, s1, id, affected, HealthPropagated, "Health degradation propagated from " + id);
    }
  }

  /** All agents but one fit their tiers, and that one is at worst failing. */
  ghost predicate HealthAlmostFits(cfg: Config, nodes: map<string, AgentNode>, id: string) {
    forall a | a in nodes ::
      HealthFitsTier(cfg, nodes[a]) || (a == id && nodes[a].healthStatus == Failing)
  }

  lemma ContainmentRestoresHealth(cfg: Config, s: State, id: string, reason: string)
    requires HealthAlmostFits(cfg, s.nodes, id) && LogFits(cfg, s)
    ensures HealthFits(cfg, ApplyContainment(cfg, s, id, reason).nodes)
    ensures LogFits(cfg, ApplyContainment(cfg, s, id, reason))
  {
    if id in s.nodes {
      if s.nodes[id].healthStatus == Failing && PolicyForAgent(cfg, s.nodes, id).autoQuarantine {
        var s1 := SetHealth(s, id, Unreachable);
        SameGraphKeepsLog(cfg, s, s1);
        EmitKeepsLog(cfg, s1, id, [id], AgentQuarantined, "Auto-quarantined: " + reason);
        PropagateKeepsInvariant(cfg, Emit(s1, id, [id], AgentQuarantined, "Auto-quarantined: " + reason), id);
      }
      var s2 := Quarantine(cfg, s, id, reason);
      if s2.nodes[id].healthStatus == Unreachable && PolicyForAgent(cfg, s2.nodes, id).autoRollback {
        EmitKeepsLog(cfg, s2, id, [id], RollbackTriggered, "Auto-rollback triggered: " + reason);
      }
    }
  }

  lemma FailLinkKeepsLog(cfg: Config, s: State, from: string, to: string, reason: string, now: int)
    requires LogFits(cfg, s)
    ensures LogFits(cfg, FailLink(s, from, to, reason, now))
  {
    var s1 := FailLink(s, from, to, reason, now);
    EmitKeepsLog(cfg, s.(breakers := s1.breakers), to, [from], CircuitOpened, reason);
  }

  lemma JudgedHealthAlmostFits(cfg: Config, s: State, to: string, now: int)
    requires HealthFits(cfg, s.nodes) && LogFits(cfg, s)
    ensures HealthAlmostFits(cfg, JudgeHealth(cfg, s, to, now).nodes, to)
    ensures LogFits(cfg, JudgeHealth(cfg, s, to, now))
  {
    JudgeHealthSameLinks(cfg, s, to, now);
    SameGraphKeepsLog(cfg, s, JudgeHealth(cfg, s, to, now));
  }

  lemma RecordFailureKeepsInvariant(cfg: Config, s: State, from: string, to: string, reason: string, now: int)
    requires Invariant(cfg, s)
    ensures Invariant(cfg, RecordFailure(cfg, s, from, to, reason, now))
  {
    FailLinkKeepsLog(cfg, s, from, to, reason, now);
    FailLinkSameLinks(s, from, to, reason, now);
    var s1 := FailLink(s, from, to, reason, now);
    JudgedHealthAlmostFits(cfg, s1, to, now);
    ContainmentRestoresHealth(cfg, JudgeHealth(cfg, s1, to, now), to, reason);
    RecordFailureSameLinks(cfg, s, from, to, reason, now);
    SameLinksKeepStructure(cfg, s, RecordFailure(cfg, s, from, to, reason, now));
  }

  lemma SetHealthyKeepsInvariant(cfg: Config, s: State, id: string)
    requires Invariant(cfg, s) && id in s.nodes
    ensures Invariant(cfg, SetHealth(s, id, Healthy))
  {
    SameLinksKeepStructure(cfg, s, SetHealth(s, id, Healthy));
    SameGraphKeepsLog(cfg, s, SetHealth(s, id, Healthy));
  }

  lemma NewBreakersKeepInvariant(cfg: Config, s: State, breakers: map<string, Breaker>)
    requires Invariant(cfg, s) && breakers.Keys == s.breakers.Keys
    ensures Invariant(cfg, s.(breakers := breakers))
  {
    SameLinksKeepStructure(cfg, s, s.(breakers := breakers));
  }

  lemma RecordSuccessKeepsInvariant(cfg: Config, s: State, from: string, to: string)
    requires Invariant(cfg, s)
    ensures Invariant(cfg, RecordSuccess(s, from, to))
  {
    var s1 := s.(breakers := SucceedKey(s.breakers, LinkKey(from, to)));
    NewBreakersKeepInvariant(cfg, s, s1.breakers);
    if to in s1.nodes {
      SetHealthyKeepsInvariant(cfg, s1, to);
    }
  }

  lemma StepKeepsInvariant(cfg: Config, s: State, op: Op)
    requires Invariant(cfg, s)
    ensures Invariant(cfg, Step(cfg, s, op))
  {
    match op
    case OpRegister(id, tier) => RegisterKeepsInvariant(cfg, s, id, tier);
    case OpAddDependency(from, to) => AddDependencyKeepsInvariant(cfg, s, from, to);
    case OpReadBreaker(from, to, at) => NewBreakersKeepInvariant(cfg, s, Step(cfg, s, op).breakers);
    case OpRecordSuccess(from, to) => RecordSuccessKeepsInvariant(cfg, s, from, to);
    case OpRecordFailure(from, to, reason, at) => RecordFailureKeepsInvariant(cfg, s, from, to, reason, at);
    case OpPropagateHealth(id) =>
      PropagateKeepsInvariant(cfg, s, id);
      PropagateHealthSameLinks(s, id);
      SameLinksKeepStructure(cfg, s, Step(cfg, s, op));
    case OpResetAgent(id) =>
      if id in s.nodes {
        SetHealthyKeepsInvariant(cfg, s, id);
      }
    case OpAnalyze(at) => NewBreakersKeepInvariant(cfg, s, Step(cfg, s, op).breakers);
  }

  /** Every run, under every configuration, keeps the invariant. */
  lemma {:induction false} RunKeepsInvariant(cfg: Config, ops: seq<Op>)
    ensures Invariant(cfg, Run(cfg, ops))
  {
    if ops == [] {
    } else {
      RunKeepsInvariant(cfg, ops[..|ops| - 1]);
      StepKeepsInvariant(cfg, Run(cfg, ops[..|ops| - 1]), ops[|ops| - 1]);
    }
  }

  // ---------- what a link's breaker answers ----------

  function TimeOf(op: Op): Option<int> {
    match op
    case OpReadBreaker(_, _, at) => Some(at)
    case OpRecordFailure(_, _, _, at) => Some(at)
    case OpAnalyze(at) => Some(at)
    case _ => None
  }

  /** The clock never goes back during the run, nor between it and `now`. */
  ghost predicate ClockUpTo(ops: seq<Op>, now: int) {
    && (forall i | 0 <= i < |ops| && TimeOf(ops[i]).Some? :: TimeOf(ops[i]).value <= now)
    && (forall i, j | 0 <= i < j < |ops| && TimeOf(ops[i]).Some? && TimeOf(ops[j]).Some? ::
          TimeOf(ops[i]).value <= TimeOf(ops[j]).value)
  }

  /** The outcome an operation reports for the link with this key. */
  function Outcome(op: Op, key: string): seq<Call> {
    match op
    case OpRecordSuccess(from, to) => if LinkKey(from, to) == key then [Success] else []
    case OpRecordFailure(from, to, _, at) => if LinkKey(from, to) == key then [Failure(at)] else []
    case _ => []
  }

  /** The outcomes reported for a link since it got its breaker. */
  ghost function LinkOutcomes(cfg: Config, ops: seq<Op>, key: string): seq<Call> {
    if ops == [] || key !in Run(cfg, ops[..|ops| - 1]).breakers then []
    else LinkOutcomes(cfg, ops[..|ops| - 1], key) + Outcome(ops[|ops| - 1], key)
  }

  lemma PropagateKeepsBreakers(s: State, id: string)
    ensures PropagateHealth(s, id).breakers == s.breakers
  {
  }

  lemma AddDependencyKeepsBreakers(cfg: Config, s: State, from: string, to: string)
    ensures forall k | k in s.breakers ::
              k in AddDependency(cfg, s, from, to).0.breakers && AddDependency(cfg, s, from, to).0.breakers[k] == s.breakers[k]
  {
  }

  /** The breaker `b` once the operation's outcome, if any, is recorded on it. */
  function Reported(op: Op, key: string, b: Breaker): Breaker {
    if Outcome(op, key) == [] then b else React(b, Outcome(op, key)[0])
  }

  /** What one operation does to one existing breaker: it records the operation's outcome, and may read. */
  lemma StepOnBreaker(cfg: Config, s: State, op: Op, key: string)
    requires key in s.breakers
    ensures key in Step(cfg, s, op).breakers
    ensures var b := Step(cfg, s, op).breakers[key];
            || b == Reported(op, key, s.breakers[key])
            || (TimeOf(op).Some? && b == Reported(op, key, s.breakers[key]).Poll(TimeOf(op).value))
  {
    match op
    case OpRecordFailure(from, to, reason, at) => FailureOnBreaker(cfg, s, from, to, reason, at, key);
    case OpAddDependency(from, to) => AddDependencyKeepsBreakers(cfg, s, from, to);
    case OpPropagateHealth(id) => PropagateKeepsBreakers(s, id);
    case _ =>
  }

  lemma ReportedIsAfter(op: Op, key: string, b: Breaker, at: int)
    ensures var o := Outcome(op, key);
            && After(b, o) == Reported(op, key, b)
            && After(b, o + [Read(at)]) == Reported(op, key, b).Poll(at)
            && WithoutReads(o) == o && WithoutReads(o + [Read(at)]) == o
  {
    var o := Outcome(op, key);
    assert (o + [Read(at)])[..|o|] == o;
    if o != [] {
      assert o[..0] == [];
    }
  }

  /** The calls that lead from `b` to `b'` when an operation did. */
  lemma CallsOfStep(op: Op, key: string, b: Breaker, b': Breaker) returns (calls: seq<Call>)
    requires b' == Reported(op, key, b) || (TimeOf(op).Some? && b' == Reported(op, key, b).Poll(TimeOf(op).value))
    ensures b' == After(b, calls) && WithoutReads(calls) == Outcome(op, key)
    ensures forall i | 0 <= i < |calls| && !calls[i].Success? :: TimeOf(op) == Some(calls[i].at)
  {
    var o := Outcome(op, key);
    var at := if TimeOf(op).Some? then TimeOf(op).value else 0;
    ReportedIsAfter(op, key, b, at);
    calls := if b' == Reported(op, key, b) then o else o + [Read(at)];
  }

  /** Whether a failure recorded for `to` reads the breaker with this key. */
  predicate ReadByFailure(s: State, from: string, to: string, key: string) {
    key == LinkKey(from, to) || (to in s.nodes && key in LinkKeysTo(s.nodes[to].dependents, to))
  }

  lemma ContainmentKeepsBreakers(cfg: Config, s: State, id: string, reason: string)
    ensures ApplyContainment(cfg, s, id, reason).breakers == s.breakers
  {
    if id in s.nodes {
      var s1 := Emit(SetHealth(s, id, Unreachable), id, [id], AgentQuarantined, "Auto-quarantined: " + reason);
      PropagateKeepsBreakers(s1, id);
      var s2 := Quarantine(cfg, s, id, reason);
      assert s2.breakers == s.breakers;
      assert RollBack(cfg, s2, id, reason).breakers == s2.breakers;
    }
  }

  lemma FailLinkOnBreaker(s: State, from: string, to: string, reason: string, at: int, key: string)
    requires key in s.breakers
    ensures key in FailLink(s, from, to, reason, at).breakers
    ensures FailLink(s, from, to, reason, at).breakers[key] ==
            if key == LinkKey(from, to) then s.breakers[key].Fail(at).Poll(at) else s.breakers[key]
  {
  }

  lemma JudgeHealthOnBreaker(cfg: Config, s: State, to: string, at: int, key: string)
    requires key in s.breakers
    ensures key in JudgeHealth(cfg, s, to, at).breakers
    ensures JudgeHealth(cfg, s, to, at).breakers[key] ==
            if to in s.nodes && key in LinkKeysTo(s.nodes[to].dependents, to) then s.breakers[key].Poll(at)
            else s.breakers[key]
  {
  }

  lemma FailureOnBreaker(cfg: Config, s: State, from: string, to: string, reason: string, at: int, key: string)
    requires key in s.breakers
    ensures key in RecordFailure(cfg, s, from, to, reason, at).breakers
    ensures RecordFailure(cfg, s, from, to, reason, at).breakers[key] ==
            var failed := if key == LinkKey(from, to) then s.breakers[key].Fail(at) else s.breakers[key];
            if ReadByFailure(s, from, to, key) then failed.Poll(at) else failed
  {
    var s1 := FailLink(s, from, to, reason, at);
    FailLinkSameLinks(s, from, to, reason, at);
    FailLinkOnBreaker(s, from, to, reason, at, key);
    JudgeHealthOnBreaker(cfg, s1, to, at, key);
    ContainmentKeepsBreakers(cfg, JudgeHealth(cfg, s1, to, at), to, reason);
  }

  /** A breaker that was not there before an operation is a new one after it. */
  lemma CreatedBreakerIsNew(cfg: Config, s: State, op: Op, key: string)
    requires key !in s.breakers && key in Step(cfg, s, op).breakers
    ensures var b := Step(cfg, s, op).breakers[key];
            b == NewBreaker(b.failureThreshold, b.resetTimeoutMs)
  {
    match op
    case OpRecordFailure(from, to, reason, at) => RecordFailureSameLinks(cfg, s, from, to, reason, at);
    case OpPropagateHealth(id) => PropagateKeepsBreakers(s, id);
    case _ =>
  }

  lemma ClockBefore(ops: seq<Op>, at: int, now: int)
    requires ops != [] && ClockUpTo(ops, now)
    requires at == if TimeOf(ops[|ops| - 1]).Some? then TimeOf(ops[|ops| - 1]).value else now
    ensures ClockUpTo(ops[..|ops| - 1], at) && at <= now
  {
  }

  /** The link's breaker is its outcomes replayed, with some reads in between. */
  lemma {:induction false} BreakerReplaysOutcomes(cfg: Config, ops: seq<Op>, key: string, now: int)
    returns (calls: seq<Call>)
    requires key in Run(cfg, ops).breakers && ClockUpTo(ops, now)
    ensures var b := Run(cfg, ops).breakers[key];
            b == Replay(calls, b.failureThreshold, b.resetTimeoutMs)
    ensures NonDecreasing(calls + [Read(now)])
    ensures WithoutReads(calls) == LinkOutcomes(cfg, ops, key)
  {
    var init, op := ops[..|ops| - 1], ops[|ops| - 1];
    var s := Run(cfg, init);
    if key !in s.breakers {
      calls := [];
      CreatedBreakerIsNew(cfg, s, op, key);
    } else {
      var at := if TimeOf(op).Some? then TimeOf(op).value else now;
      ClockBefore(ops, at, now);
      var before := BreakerReplaysOutcomes(cfg, init, key, at);
      StepOnBreaker(cfg, s, op, key);
      var next := CallsOfStep(op, key, s.breakers[key], Step(cfg, s, op).breakers[key]);
      calls := before + next;
      NonDecreasingAppend(before, next, at, now);
      WithoutReadsConcat(before, next);
      var b := s.breakers[key];
      AfterConcat(NewBreaker(b.failureThreshold, b.resetTimeoutMs), before, next);
      ReplayIsHistory(calls, b.failureThreshold, b.resetTimeoutMs);
    }
  }

  /** Over every run with a clock that never goes back: a call over a link is refused exactly when the failures
      reported for the link since its last success reach the breaker's threshold and the last of them is less
      than the breaker's timeout old (or was stamped 0). Whatever else the run did does not matter. */
  lemma CanCallIsFunctionOfOutcomes(cfg: Config, ops: seq<Op>, from: string, to: string, now: int)
    requires LinkKey(from, to) in Run(cfg, ops).breakers && ClockUpTo(ops, now)
    ensures var key := LinkKey(from, to);
            var b, outcomes := Run(cfg, ops).breakers[key], LinkOutcomes(cfg, ops, key);
            b.CanExecute(now) <==>
            !(Tripped(outcomes, b.failureThreshold) && !TimeIsUp(LastFailure(outcomes).value, now, b.resetTimeoutMs))
  {
    var key := LinkKey(from, to);
    var b := Run(cfg, ops).breakers[key];
    var calls := BreakerReplaysOutcomes(cfg, ops, key, now);
    StateIsFunctionOfFailures(calls, b.failureThreshold, b.resetTimeoutMs, now);
    WithoutReadsKeepsFailures(calls);
  }

  // ---------- whose policy a breaker has ----------

  /** The breaker has the threshold and the timeout of the tier. */
  predicate HasTierPolicy(cfg: Config, tier: TrustTier, b: Breaker) {
    var policy := PolicyForTier(cfg, tier);
    b.failureThreshold == policy.circuitBreakerThreshold && b.resetTimeoutMs == policy.circuitBreakerResetMs
  }

  /** The dependency of `from` on `to` has this key, and the breaker has the policy of its caller. */
  predicate MadeFor(cfg: Config, s: State, key: string, from: string, to: string) {
    && DependsOn(s.nodes, from, to) && LinkKey(from, to) == key
    && key in s.breakers && HasTierPolicy(cfg, s.nodes[from].trustTier, s.breakers[key])
  }

  lemma StaysMadeFor(cfg: Config, s: State, op: Op, key: string, from: string, to: string)
    requires MadeFor(cfg, s, key, from, to)
    ensures MadeFor(cfg, Step(cfg, s, op), key, from, to)
  {
    StepExtends(cfg, s, op);
    StepOnBreaker(cfg, s, op, key);
    assert s.nodes[from].dependencies <= Step(cfg, s, op).nodes[from].dependencies;
  }

  lemma LinkIsMadeFor(cfg: Config, s: State, from: string, to: string, key: string)
    requires key !in s.breakers && key in AddDependency(cfg, s, from, to).0.breakers
    ensures MadeFor(cfg, AddDependency(cfg, s, from, to).0, key, from, to)
  {
    LinkAddsOneEdge(cfg, Register(Register(s, from, Provisional), to, Provisional), from, to);
  }

  lemma NewBreakerIsMadeFor(cfg: Config, s: State, op: Op, key: string)
    requires key !in s.breakers && key in Step(cfg, s, op).breakers
    ensures op.OpAddDependency? && MadeFor(cfg, Step(cfg, s, op), key, op.from, op.to)
  {
    match op
    case OpRecordFailure(from, to, reason, at) => RecordFailureSameLinks(cfg, s, from, to, reason, at);
    case OpPropagateHealth(id) => PropagateKeepsBreakers(s, id);
    case OpAddDependency(from, to) => LinkIsMadeFor(cfg, s, from, to, key);
    case _ =>
  }

  /** Over every run, each breaker belongs to a declared dependency and has the policy of its caller's tier. */
  lemma {:induction false} BreakersComeFromLinks(cfg: Config, ops: seq<Op>, key: string) returns (from: string, to: string)
    requires key in Run(cfg, ops).breakers
    ensures MadeFor(cfg, Run(cfg, ops), key, from, to)
  {
    var init, op := ops[..|ops| - 1], ops[|ops| - 1];
    var s := Run(cfg, init);
    if key in s.breakers {
      from, to := BreakersComeFromLinks(cfg, init, key);
      StaysMadeFor(cfg, s, op, key, from, to);
    } else {
      NewBreakerIsMadeFor(cfg, s, op, key);
      from, to := op.from, op.to;
    }
  }

  ghost predicate ArrowFree(s: State) {
    forall id | id in s.nodes :: !HasArrow(id)
  }

  /** Without arrows in the agents' ids, a link has a breaker exactly if the dependency was declared, and the breaker has
      the policy of its caller. */
  lemma LinkHasTierPolicy(cfg: Config, ops: seq<Op>, from: string, to: string)
    requires ArrowFree(Run(cfg, ops)) && !HasArrow(from)
    ensures var s := Run(cfg, ops);
            && (LinkKey(from, to) in s.breakers <==> DependsOn(s.nodes, from, to))
            && (LinkKey(from, to) in s.breakers ==>
                  HasTierPolicy(cfg, s.nodes[from].trustTier, s.breakers[LinkKey(from, to)]))
  {
    var s := Run(cfg, ops);
    RunKeepsInvariant(cfg, ops);
    if LinkKey(from, to) in s.breakers {
      var f, t := BreakersComeFromLinks(cfg, ops, LinkKey(from, to));
      LinkKeyInjective(from, to, f, t);
    }
  }

  /** The failures reported for the link since its last success reach the threshold of the caller's tier, and the last is
      less old than the tier's timeout. */
  ghost predicate TrippedForTier(cfg: Config, ops: seq<Op>, from: string, to: string, now: int)
    requires from in Run(cfg, ops).nodes
  {
    var outcomes := LinkOutcomes(cfg, ops, LinkKey(from, to));
    var policy := PolicyForTier(cfg, Run(cfg, ops).nodes[from].trustTier);
    && Tripped(outcomes, policy.circuitBreakerThreshold)
    && !TimeIsUp(LastFailure(outcomes).value, now, policy.circuitBreakerResetMs)
  }

  /** So whether a call over a declared dependency is refused depends on the reported outcomes and the caller's tier. */
  lemma CallRefusedByTier(cfg: Config, ops: seq<Op>, from: string, to: string, now: int)
    requires ArrowFree(Run(cfg, ops)) && DependsOn(Run(cfg, ops).nodes, from, to) && ClockUpTo(ops, now)
    ensures var s := Run(cfg, ops);
            && LinkKey(from, to) in s.breakers
            && (!s.breakers[LinkKey(from, to)].CanExecute(now) <==> TrippedForTier(cfg, ops, from, to, now))
  {
    LinkHasTierPolicy(cfg, ops, from, to);
    CanCallIsFunctionOfOutcomes(cfg, ops, from, to, now);
  }

  // ---------- the depth guard ----------

  /** A dependency refused for its depth really would have made a chain of that length. */
  lemma DepthRefusalIsReal(cfg: Config, s: State, from: string, to: string)
    requires AddDependency(cfg, s, from, to).1.DepthExceeded?
    ensures var (t, outcome) := AddDependency(cfg, s, from, to);
            && outcome.depth > outcome.max
            && ChainFrom(Link(cfg, t, from, to).nodes, from, outcome.depth)
  {
    var (t, outcome) := AddDependency(cfg, s, from, to);
    DepthIsRealChain(t.nodes, to, {});
    var u := Link(cfg, t, from, to);
    var n := outcome.depth - 1;
    LinkExtends(cfg, t, from, to);
    ChainSurvives(t, u, to, n);
    assert to in u.nodes[from].dependencies;
    ChainCons(u.nodes, from, to, n);
  }

  lemma ChainSurvives(s: State, t: State, id: string, n: nat)
    requires Extends(s, t) && ChainFrom(s.nodes, id, n)
    ensures ChainFrom(t.nodes, id, n)
  {
    var g, h := DependenciesGraph(s.nodes), DependenciesGraph(t.nodes);
    var p: seq<string> :| |p| == n + 1 && p[0] == id && IsPath(g, p);
    forall i | 0 <= i < n
      ensures p[i + 1] in Succ(h, p[i])
    {
      assert p[i + 1] in Succ(g, p[i]);
      assert s.nodes[p[i]].dependencies <= t.nodes[p[i]].dependencies;
    }
    assert IsPath(h, p);
  }

  lemma RunSnoc(cfg: Config, ops: seq<Op>, op: Op)
    ensures Run(cfg, ops + [op]) == Step(cfg, Run(cfg, ops), op)
  {
    assert (ops + [op])[..|ops|] == ops;
  }

  lemma RunTwo(cfg: Config, ops: seq<Op>, o1: Op, o2: Op)
    ensures Run(cfg, ops + [o1, o2]) == Step(cfg, Step(cfg, Run(cfg, ops), o1), o2)
  {
    TwoMore(ops, o1, o2);
    RunSnoc(cfg, ops, o1);
    RunSnoc(cfg, ops + [o1], o2);
  }

  lemma TwoMore(ops: seq<Op>, o1: Op, o2: Op)
    ensures ops + [o1, o2] == ops + [o1] + [o2]
  {
  }

  lemma FourOps(o1: Op, o2: Op, o3: Op, o4: Op)
    ensures [] + [o1, o2] == [o1, o2] && [o1, o2] + [o3, o4] == [o1, o2, o3, o4]
  {
  }

  lemma RunPair(cfg: Config, o1: Op, o2: Op)
    ensures Run(cfg, [o1, o2]) == Step(cfg, Step(cfg, EMPTY, o1), o2)
  {
    FourOps(o1, o2, o1, o2);
    RunTwo(cfg, [], o1, o2);
  }

  lemma RunFour(cfg: Config, o1: Op, o2: Op, o3: Op, o4: Op)
    ensures Run(cfg, [o1, o2, o3, o4]) == Step(cfg, Step(cfg, Step(cfg, Step(cfg, EMPTY, o1), o2), o3), o4)
  {
    FourOps(o1, o2, o3, o4);
    RunPair(cfg, o1, o2);
    RunTwo(cfg, [o1, o2], o3, o4);
  }
}
