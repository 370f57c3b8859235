/**
  What a recorded failure does, seen from outside: the callee is judged by how many of its dependents are refused, and
  nobody beyond its dependents is touched.
 */
module CascadeFailure {
  import opened Wrappers
  import opened Metrics
  import opened CascadeModel

  predicate Refused(s: State, d: string, id: string, now: int) {
    LinkKey(d, id) in s.breakers && !s.breakers[LinkKey(d, id)].CanExecute(now)
  }

  /** The dependents of `id` whose calls to it are refused. */
  function RefusedCallers(s: State, id: string, now: int): set<string>
    requires id in s.nodes
  {
    RefusedAmong(s, s.nodes[id].dependents, id, now)
  }

  /** The callers among `callers` that are refused. */
  function RefusedAmong(s: State, callers: seq<string>, id: string, now: int): set<string> {
    set d | d in callers && Refused(s, d, id, now)
  }

  lemma RefusedAmongStep(s: State, callers: seq<string>, last: string, id: string, now: int)
    requires last !in callers
    ensures |RefusedAmong(s, callers + [last], id, now)| ==
            |RefusedAmong(s, callers, id, now)| + if Refused(s, last, id, now) then 1 else 0
  {
    var before, after := RefusedAmong(s, callers, id, now), RefusedAmong(s, callers + [last], id, now);
    if Refused(s, last, id, now) {
      assert after == before + {last};
    } else {
      assert after == before;
    }
  }

  lemma {:induction false} CountOpenCounts(s: State, dependents: seq<string>, id: string, now: int)
    requires NoDuplicates(dependents)
    ensures CountOpen(s, dependents, id, now) == |RefusedAmong(s, dependents, id, now)|
  {
    if dependents == [] {
      assert RefusedAmong(s, dependents, id, now) == {};
    } else {
      var rest, last := dependents[..|dependents| - 1], dependents[|dependents| - 1];
      assert dependents == rest + [last];
      CountOpenCounts(s, rest, id, now);
      RefusedAmongStep(s, rest, last, id, now);
    }
  }

  /** Reading breakers does not change who is refused at that moment. */
  lemma ReadingRefusesTheSame(s: State, keys: set<string>, d: string, id: string, now: int)
    ensures Refused(PollKeys(s, keys, now), d, id, now) <==> Refused(s, d, id, now)
  {
  }

  lemma JudgingRefusesTheSame(cfg: Config, s: State, to: string, now: int, d: string)
    ensures Refused(JudgeHealth(cfg, s, to, now), d, to, now) <==> Refused(s, d, to, now)
  {
    if to in s.nodes {
      ReadingRefusesTheSame(s, LinkKeysTo(s.nodes[to].dependents, to), d, to, now);
    }
  }

  lemma FailureSettlesBreakers(cfg: Config, s: State, from: string, to: string, reason: string, now: int)
    requires to in s.nodes
    ensures var t := RecordFailure(cfg, s, from, to, reason, now);
            var s1 := FailLink(s, from, to, reason, now);
            && to in t.nodes && t.nodes[to].dependents == s.nodes[to].dependents
            && forall d :: Refused(t, d, to, now) <==> Refused(s1, d, to, now)
  {
    var s1 := FailLink(s, from, to, reason, now);
    var s2 := JudgeHealth(cfg, s1, to, now);
    ContainmentKeepsBreakers(cfg, s2, to, reason);
    RecordFailureSameLinks(cfg, s, from, to, reason, now);
    SameLinksFields(s, RecordFailure(cfg, s, from, to, reason, now));
    forall d
      ensures Refused(s2, d, to, now) <==> Refused(s1, d, to, now)
    {
      JudgingRefusesTheSame(cfg, s1, to, now, d);
    }
  }

  /** How a callee is judged when `n` of its dependents are refused. */
  function Judged(cfg: Config, node: AgentNode, n: nat): HealthStatus {
    if n >= cfg.cascadeThreshold then
      if PolicyForTier(cfg, node.trustTier).autoQuarantine then Unreachable else Failing
    else if n > 0 then Degraded
    else node.healthStatus
  }

  lemma ContainmentJudges(cfg: Config, s: State, id: string, reason: string)
    requires id in s.nodes
    ensures var t := ApplyContainment(cfg, s, id, reason);
            && id in t.nodes
            && t.nodes[id].healthStatus ==
               if s.nodes[id].healthStatus == Failing && PolicyForAgent(cfg, s.nodes, id).autoQuarantine
               then Unreachable else s.nodes[id].healthStatus
  {
    if s.nodes[id].healthStatus == Failing && PolicyForAgent(cfg, s.nodes, id).autoQuarantine {
      var s1 := Emit(SetHealth(s, id, Unreachable), id, [id], AgentQuarantined, "Auto-quarantined: " + reason);
      PropagationKeepsSource(s1, id);
    }
  }

  lemma PropagationKeepsSource(s: State, id: string)
    requires id in s.nodes && s.nodes[id].healthStatus == Unreachable
    ensures id in PropagateHealth(s, id).nodes && PropagateHealth(s, id).nodes[id] == s.nodes[id]
  {
    InHealthyOnes(s.nodes, s.nodes[id].dependents, id);
  }

  lemma {:induction false} InHealthyOnes(nodes: map<string, AgentNode>, ids: seq<string>, a: string)
    ensures a in HealthyOnes(nodes, ids) <==> a in ids && a in nodes && nodes[a].healthStatus == Healthy
  {
    if ids == [] {
    } else {
      assert ids == ids[..|ids| - 1] + [ids[|ids| - 1]];
      InHealthyOnes(nodes, ids[..|ids| - 1], a);
    }
  }

  /** The callers refused after a failure are those counted while it was judged. */
  lemma RefusedAreCounted(cfg: Config, s: State, from: string, to: string, reason: string, now: int)
    requires Invariant(cfg, s) && to in s.nodes
    ensures var t := RecordFailure(cfg, s, from, to, reason, now);
            && to in t.nodes
            && |RefusedCallers(t, to, now)| ==
               CountOpen(FailLink(s, from, to, reason, now), s.nodes[to].dependents, to, now)
  {
    var t := RecordFailure(cfg, s, from, to, reason, now);
    var s1 := FailLink(s, from, to, reason, now);
    FailLinkSameLinks(s, from, to, reason, now);
    FailureSettlesBreakers(cfg, s, from, to, reason, now);
    var dependents := s.nodes[to].dependents;
    CountOpenCounts(s1, dependents, to, now);
    assert RefusedCallers(t, to, now) == RefusedAmong(s1, dependents, to, now);
  }

  /** Judging changes nobody else's health; the callee fails at the threshold. */
  lemma JudgedOthers(cfg: Config, s: State, to: string, now: int, x: string)
    requires to in s.nodes && x in s.nodes && x != to
    ensures var t := JudgeHealth(cfg, s, to, now);
            && x in t.nodes && t.nodes[x] == s.nodes[x]
            && to in t.nodes && t.nodes[to].dependents == s.nodes[to].dependents
            && t.nodes[to].trustTier == s.nodes[to].trustTier
            && (s.nodes[to].healthStatus != Failing ==>
                  (t.nodes[to].healthStatus == Failing <==>
                   CountOpen(s, s.nodes[to].dependents, to, now) >= cfg.cascadeThreshold))
  {
  }

  /** A failure leaves the callee quarantined, or failing where it may not be quarantined, exactly when the callers then
      refused number at least the threshold; degraded when there are fewer but some; and as it was when there are none. */
  lemma FailureJudgesCallee(cfg: Config, s: State, from: string, to: string, reason: string, now: int)
    requires Invariant(cfg, s) && to in s.nodes
    ensures var t := RecordFailure(cfg, s, from, to, reason, now);
            && to in t.nodes
            && t.nodes[to].healthStatus == Judged(cfg, s.nodes[to], |RefusedCallers(t, to, now)|)
  {
    var s1 := FailLink(s, from, to, reason, now);
    FailLinkSameLinks(s, from, to, reason, now);
    RefusedAreCounted(cfg, s, from, to, reason, now);
    ContainmentJudges(cfg, JudgeHealth(cfg, s1, to, now), to, reason);
  }

  /** The failure ends in a quarantine of the callee, its first or another one. */
  predicate Quarantines(cfg: Config, s: State, t: State, to: string, now: int)
    requires to in s.nodes && to in t.nodes
  {
    |RefusedCallers(t, to, now)| >= cfg.cascadeThreshold && PolicyForTier(cfg, s.nodes[to].trustTier).autoQuarantine
  }

  lemma ContainmentSpares(cfg: Config, s: State, id: string, reason: string, x: string)
    requires id in s.nodes && x in s.nodes && x != id
    ensures var t := ApplyContainment(cfg, s, id, reason);
            && x in t.nodes
            && t.nodes[x].healthStatus ==
               if s.nodes[id].healthStatus == Failing && PolicyForAgent(cfg, s.nodes, id).autoQuarantine
                  && x in s.nodes[id].dependents && s.nodes[x].healthStatus == Healthy
               then Degraded else s.nodes[x].healthStatus
  {
    QuarantineSpares(cfg, s, id, reason, x);
  }

  lemma QuarantineSpares(cfg: Config, s: State, id: string, reason: string, x: string)
    requires id in s.nodes && x in s.nodes && x != id
    ensures var t := Quarantine(cfg, s, id, reason);
            && id in t.nodes && x in t.nodes
            && t.nodes[x].healthStatus ==
               if s.nodes[id].healthStatus == Failing && PolicyForAgent(cfg, s.nodes, id).autoQuarantine
                  && x in s.nodes[id].dependents && s.nodes[x].healthStatus == Healthy
               then Degraded else s.nodes[x].healthStatus
  {
    if s.nodes[id].healthStatus == Failing && PolicyForAgent(cfg, s.nodes, id).autoQuarantine {
      var s1 := Emit(SetHealth(s, id, Unreachable), id, [id], AgentQuarantined, "Auto-quarantined: " + reason);
      PropagationSpares(s1, id, x);
    }
  }

  lemma PropagationSpares(s: State, id: string, x: string)
    requires id in s.nodes && x in s.nodes && s.nodes[id].healthStatus == Unreachable
    ensures x in PropagateHealth(s, id).nodes
    ensures PropagateHealth(s, id).nodes[x].healthStatus ==
            if x in s.nodes[id].dependents && s.nodes[x].healthStatus == Healthy then Degraded
            else s.nodes[x].healthStatus
  {
    InHealthyOnes(s.nodes, s.nodes[id].dependents, x);
  }

  lemma HealthFitsCallee(cfg: Config, s: State, to: string)
    requires Invariant(cfg, s) && to in s.nodes
    ensures s.nodes[to].healthStatus == Failing ==> !PolicyForTier(cfg, s.nodes[to].trustTier).autoQuarantine
  {
    assert HealthFitsTier(cfg, s.nodes[to]);
  }

  /** Nobody else's health changes, except that of the callee's healthy dependents when it is quarantined. */
  lemma FailureSparesOthers(cfg: Config, s: State, from: string, to: string, reason: string, now: int, x: string)
    requires Invariant(cfg, s) && to in s.nodes && x in s.nodes && x != to
    ensures var t := RecordFailure(cfg, s, from, to, reason, now);
            && to in t.nodes && x in t.nodes
            && t.nodes[x].healthStatus ==
               if Quarantines(cfg, s, t, to, now) && x in s.nodes[to].dependents && s.nodes[x].healthStatus == Healthy
               then Degraded else s.nodes[x].healthStatus
  {
    var s1 := FailLink(s, from, to, reason, now);
    FailLinkSameLinks(s, from, to, reason, now);
    RefusedAreCounted(cfg, s, from, to, reason, now);
    JudgedOthers(cfg, s1, to, now, x);
    HealthFitsCallee(cfg, s, to);
    ContainmentSpares(cfg, JudgeHealth(cfg, s1, to, now), to, reason, x);
  }

  // ---------- what a failure logs ----------

  /** The log with one more event, numbered by its place. */
  function Logged(log: seq<CascadeEvent>, source: string, affected: seq<string>, action: CascadeAction, reason: string,
                  radius: nat): seq<CascadeEvent>
  {
    log + [CascadeEvent(source, affected, action, reason, radius, |log|)]
  }

  predicate IsDegraded(before: map<string, AgentNode>, after: map<string, AgentNode>, id: string) {
    && id in before && before[id].healthStatus == Healthy
    && id in after && after[id].healthStatus == Degraded
  }

  /** Those of a list that went from healthy to degraded. */
  function WentDegraded(before: map<string, AgentNode>, after: map<string, AgentNode>, ids: seq<string>): seq<string> {
    if ids == [] then []
    else
      var id := ids[|ids| - 1];
      WentDegraded(before, after, ids[..|ids| - 1]) +
      if IsDegraded(before, after, id) then [id] else []
  }

  lemma {:induction false} HealthyWentDegraded(nodes: map<string, AgentNode>, before: map<string, AgentNode>,
                                               after: map<string, AgentNode>, ids: seq<string>)
    requires forall id | id in ids ::
               (id in nodes && nodes[id].healthStatus == Healthy) <==> IsDegraded(before, after, id)
    ensures HealthyOnes(nodes, ids) == WentDegraded(before, after, ids)
  {
    if ids == [] {
    } else {
      HealthyWentDegraded(nodes, before, after, ids[..|ids| - 1]);
    }
  }

  /** Blast radii depend on the edges alone. */
  lemma SameRadius(n: map<string, AgentNode>, m: map<string, AgentNode>, id: string)
    requires SameGraph(n, m)
    ensures BlastRadius(n, id) == BlastRadius(m, id)
  {
    forall a | a in n
      ensures DependentsGraph(n)[a] == DependentsGraph(m)[a]
    {
      assert n[a].(healthStatus := Healthy).dependents == m[a].(healthStatus := Healthy).dependents;
    }
    assert DependentsGraph(n) == DependentsGraph(m);
  }

  lemma FailLinkLogs(s: State, from: string, to: string, reason: string, now: int)
    ensures var t := FailLink(s, from, to, reason, now);
            && t.nodes == s.nodes
            && t.events == if Refused(t, from, to, now)
                           then Logged(s.events, to, [from], CircuitOpened, reason, BlastRadius(s.nodes, to)) else s.events
  {
  }

  lemma PropagationLogs(s: State, id: string)
    requires id in s.nodes && s.nodes[id].healthStatus == Unreachable
    ensures var t := PropagateHealth(s, id);
            var affected := HealthyOnes(s.nodes, s.nodes[id].dependents);
            && SameGraph(s.nodes, t.nodes) && id in t.nodes && t.nodes[id] == s.nodes[id]
            && t.events == if affected != [] then
                             Logged(s.events, id, affected, HealthPropagated, "Health degradation propagated from " + id,
                                    BlastRadius(s.nodes, id))
                           else s.events
  {
    PropagationKeepsSource(s, id);
    var affected := HealthyOnes(s.nodes, s.nodes[id].dependents);
    SameRadius(s.nodes, Degrade(s.nodes, set a | a in affected), id);
  }

  lemma QuarantineLogs(cfg: Config, s: State, id: string, reason: string)
    requires id in s.nodes
    ensures var t := Quarantine(cfg, s, id, reason);
            var quarantined := s.nodes[id].healthStatus == Failing && PolicyForTier(cfg, s.nodes[id].trustTier).autoQuarantine;
            var marked := s.nodes[id := s.nodes[id].(healthStatus := Unreachable)];
            var affected := HealthyOnes(marked, s.nodes[id].dependents);
            var r := BlastRadius(s.nodes, id);
            var e := Logged(s.events, id, [id], AgentQuarantined, "Auto-quarantined: " + reason, r);
            && SameGraph(s.nodes, t.nodes) && id in t.nodes
            && t.nodes[id].healthStatus == (if quarantined then Unreachable else s.nodes[id].healthStatus)
            && t.events == if !quarantined then s.events
                           else if affected == [] then e
                           else Logged(e, id, affected, HealthPropagated, "Health degradation propagated from " + id, r)
  {
    if s.nodes[id].healthStatus == Failing && PolicyForTier(cfg, s.nodes[id].trustTier).autoQuarantine {
      var s1 := SetHealth(s, id, Unreachable);
      SameRadius(s.nodes, s1.nodes, id);
      PropagationLogs(Emit(s1, id, [id], AgentQuarantined, "Auto-quarantined: " + reason), id);
      QuarantineSameLinks(cfg, s, id, reason);
    }
  }

  lemma ContainmentLogs(cfg: Config, s: State, id: string, reason: string)
    requires id in s.nodes
    ensures var q, t := Quarantine(cfg, s, id, reason), ApplyContainment(cfg, s, id, reason);
            && id in t.nodes
            && t.events == if t.nodes[id].healthStatus == Unreachable && PolicyForTier(cfg, s.nodes[id].trustTier).autoRollback
                           then Logged(q.events, id, [id], RollbackTriggered, "Auto-rollback triggered: " + reason,
                                       BlastRadius(s.nodes, id))
                           else q.events
  {
    var q := Quarantine(cfg, s, id, reason);
    QuarantineLogs(cfg, s, id, reason);
    SameRadius(s.nodes, q.nodes, id);
    assert s.nodes[id].(healthStatus := Healthy).trustTier == q.nodes[id].(healthStatus := Healthy).trustTier;
  }

  /** Containment of a failing callee degrades exactly its healthy dependents. */
  lemma ContainmentDegrades(cfg: Config, s: State, id: string, reason: string, d: string)
    requires id in s.nodes && d in s.nodes[id].dependents
    requires s.nodes[id].healthStatus == Failing && PolicyForTier(cfg, s.nodes[id].trustTier).autoQuarantine
    ensures var marked := s.nodes[id := s.nodes[id].(healthStatus := Unreachable)];
            (d in marked && marked[d].healthStatus == Healthy) <==>
            IsDegraded(s.nodes, ApplyContainment(cfg, s, id, reason).nodes, d)
  {
    ContainmentJudges(cfg, s, id, reason);
    if d in s.nodes && d != id {
      ContainmentSpares(cfg, s, id, reason, d);
    }
  }

  lemma JudgedDegrades(cfg: Config, s: State, to: string, now: int, after: map<string, AgentNode>, d: string)
    requires to in s.nodes && to in after && after[to].healthStatus != Degraded
    ensures IsDegraded(JudgeHealth(cfg, s, to, now).nodes, after, d) <==> IsDegraded(s.nodes, after, d)
  {
    if d in s.nodes && d != to {
      JudgedOthers(cfg, s, to, now, d);
    }
  }

  /** The healthy dependents of a quarantined callee are those that have become degraded. */
  lemma QuarantineDegrades(cfg: Config, s: State, to: string, reason: string, now: int)
    requires to in s.nodes
    requires var t := JudgeHealth(cfg, s, to, now);
             to in t.nodes && t.nodes[to].healthStatus == Failing && PolicyForTier(cfg, t.nodes[to].trustTier).autoQuarantine
    ensures var t := JudgeHealth(cfg, s, to, now);
            var marked := t.nodes[to := t.nodes[to].(healthStatus := Unreachable)];
            HealthyOnes(marked, t.nodes[to].dependents) ==
            WentDegraded(s.nodes, ApplyContainment(cfg, t, to, reason).nodes, s.nodes[to].dependents)
  {
    var t := JudgeHealth(cfg, s, to, now);
    var after := ApplyContainment(cfg, t, to, reason).nodes;
    var marked := t.nodes[to := t.nodes[to].(healthStatus := Unreachable)];
    JudgedCallee(cfg, s, to, now);
    ContainmentJudges(cfg, t, to, reason);
    forall d | d in t.nodes[to].dependents
      ensures (d in marked && marked[d].healthStatus == Healthy) <==> IsDegraded(s.nodes, after, d)
    {
      ContainmentDegrades(cfg, t, to, reason, d);
      JudgedDegrades(cfg, s, to, now, after, d);
    }
    HealthyWentDegraded(marked, s.nodes, after, t.nodes[to].dependents);
  }

  lemma JudgedCallee(cfg: Config, s: State, to: string, now: int)
    requires to in s.nodes
    ensures var t := JudgeHealth(cfg, s, to, now);
            && t.nodes.Keys == s.nodes.Keys && t.events == s.events && SameGraph(s.nodes, t.nodes)
            && t.nodes[to].dependents == s.nodes[to].dependents && t.nodes[to].trustTier == s.nodes[to].trustTier
  {
  }

  /** The events a failure appends, in order: the link's breaker is open now; the callee is quarantined; its dependents are
      degraded, each of them named; the callee is rolled back. Each exactly in the case named, with the callee's blast
      radius, and no others. */
  lemma FailureLogs(cfg: Config, s: State, from: string, to: string, reason: string, now: int)
    requires Invariant(cfg, s) && to in s.nodes
    ensures var t := RecordFailure(cfg, s, from, to, reason, now);
            && to in t.nodes
            && var policy, r := PolicyForTier(cfg, s.nodes[to].trustTier), BlastRadius(s.nodes, to);
               var quarantined := Quarantines(cfg, s, t, to, now);
               var degraded := WentDegraded(s.nodes, t.nodes, s.nodes[to].dependents);
               var e1 := if Refused(t, from, to, now) then Logged(s.events, to, [from], CircuitOpened, reason, r) else s.events;
               var e2 := if quarantined then Logged(e1, to, [to], AgentQuarantined, "Auto-quarantined: " + reason, r) else e1;
               var e3 := if quarantined && degraded != [] then
                           Logged(e2, to, degraded, HealthPropagated, "Health degradation propagated from " + to, r)
                         else e2;
               t.events == if t.nodes[to].healthStatus == Unreachable && policy.autoRollback then
                             Logged(e3, to, [to], RollbackTriggered, "Auto-rollback triggered: " + reason, r)
                           else e3
  {
    var s1 := FailLink(s, from, to, reason, now);
    var s2 := JudgeHealth(cfg, s1, to, now);
    FailLinkLogs(s, from, to, reason, now);
    FailureSettlesBreakers(cfg, s, from, to, reason, now);
    JudgedCallee(cfg, s1, to, now);
    SameRadius(s.nodes, s2.nodes, to);
    QuarantineLogs(cfg, s2, to, reason);
    ContainmentLogs(cfg, s2, to, reason);
    QuarantinedIff(cfg, s, from, to, reason, now);
    if s2.nodes[to].healthStatus == Failing && PolicyForTier(cfg, s2.nodes[to].trustTier).autoQuarantine {
      QuarantineDegrades(cfg, s1, to, reason, now);
    }
  }

  lemma QuarantinedIff(cfg: Config, s: State, from: string, to: string, reason: string, now: int)
    requires Invariant(cfg, s) && to in s.nodes
    ensures var t := RecordFailure(cfg, s, from, to, reason, now);
            var s2 := JudgeHealth(cfg, FailLink(s, from, to, reason, now), to, now);
            && to in t.nodes && to in s2.nodes
            && (s2.nodes[to].healthStatus == Failing && PolicyForTier(cfg, s.nodes[to].trustTier).autoQuarantine <==>
                Quarantines(cfg, s, t, to, now))
  {
    FailLinkSameLinks(s, from, to, reason, now);
    RefusedAreCounted(cfg, s, from, to, reason, now);
    HealthFitsCallee(cfg, s, to);
  }

  /** Where the callee is not registered, a failure logs that the breaker is open, if it is, and no more. */
  lemma FailureLogsUnknown(cfg: Config, s: State, from: string, to: string, reason: string, now: int)
    requires to !in s.nodes
    ensures var t := RecordFailure(cfg, s, from, to, reason, now);
            && t.nodes == s.nodes
            && t.events == if Refused(t, from, to, now)
                           then Logged(s.events, to, [from], CircuitOpened, reason, BlastRadius(s.nodes, to)) else s.events
  {
    FailLinkLogs(s, from, to, reason, now);
  }

  // ---------- over whole runs ----------

  /** By the outcomes reported for the link alone: the failures since the last success reach the breaker's threshold,
      and the last of them is too recent. */
  ghost predicate TrippedByOutcomes(cfg: Config, ops: seq<Op>, d: string, id: string, now: int) {
    var key := LinkKey(d, id);
    key in Run(cfg, ops).breakers &&
    var b, outcomes := Run(cfg, ops).breakers[key], LinkOutcomes(cfg, ops, key);
    Tripped(outcomes, b.failureThreshold) && !TimeIsUp(LastFailure(outcomes).value, now, b.resetTimeoutMs)
  }

  /** Over every run with a clock that never goes back: what the last failure makes of the callee depends on the
      outcomes reported for the links to it, and on nothing else that happened to them. */
  lemma CalleeJudgedByOutcomes(cfg: Config, ops: seq<Op>, from: string, to: string, reason: string, now: int)
    requires to in Run(cfg, ops).nodes && ClockUpTo(ops, now)
    ensures var ops' := ops + [OpRecordFailure(from, to, reason, now)];
            var t := Run(cfg, ops');
            && to in t.nodes
            && t.nodes[to].healthStatus ==
               Judged(cfg, Run(cfg, ops).nodes[to],
                      |set d | d in t.nodes[to].dependents && TrippedByOutcomes(cfg, ops', d, to, now)|)
  {
    var op := OpRecordFailure(from, to, reason, now);
    var s := Run(cfg, ops);
    RunSnoc(cfg, ops, op);
    RunKeepsInvariant(cfg, ops);
    FailureJudgesCallee(cfg, s, from, to, reason, now);
    var ops' := ops + [op];
    var t := Run(cfg, ops');
    ClockReaches(ops, op, now);
    forall d
      ensures Refused(t, d, to, now) <==> TrippedByOutcomes(cfg, ops', d, to, now)
    {
      if LinkKey(d, to) in t.breakers {
        CanCallIsFunctionOfOutcomes(cfg, ops', d, to, now);
      }
    }
    assert RefusedCallers(t, to, now)
        == set d | d in t.nodes[to].dependents && TrippedByOutcomes(cfg, ops', d, to, now);
  }

  /** Without arrows in the agents' ids, by the outcomes and the tiers of the callers alone. */
  lemma CalleeJudgedByTiers(cfg: Config, ops: seq<Op>, from: string, to: string, reason: string, now: int)
    requires to in Run(cfg, ops).nodes && ClockUpTo(ops, now)
    requires ArrowFree(Run(cfg, ops + [OpRecordFailure(from, to, reason, now)]))
    ensures var ops' := ops + [OpRecordFailure(from, to, reason, now)];
            var t := Run(cfg, ops');
            && to in t.nodes
            && t.nodes[to].healthStatus ==
               Judged(cfg, Run(cfg, ops).nodes[to],
                      |set d | d in t.nodes[to].dependents && d in t.nodes && TrippedForTier(cfg, ops', d, to, now)|)
  {
    var op := OpRecordFailure(from, to, reason, now);
    var ops' := ops + [op];
    var t := Run(cfg, ops');
    CalleeJudgedByOutcomes(cfg, ops, from, to, reason, now);
    RunKeepsInvariant(cfg, ops');
    forall d
      ensures d in t.nodes[to].dependents && TrippedByOutcomes(cfg, ops', d, to, now)
         <==> d in t.nodes[to].dependents && d in t.nodes && TrippedForTier(cfg, ops', d, to, now)
    {
      if d in t.nodes[to].dependents {
        assert HasDependent(t.nodes, to, d) && DependsOn(t.nodes, d, to);
        LinkHasTierPolicy(cfg, ops', d, to);
      }
    }
    assert (set d | d in t.nodes[to].dependents && TrippedByOutcomes(cfg, ops', d, to, now))
        == set d | d in t.nodes[to].dependents && d in t.nodes && TrippedForTier(cfg, ops', d, to, now);
  }

  /** Among the events from the `n`-th on there is one that a breaker opened. */
  predicate OpenedSince(log: seq<CascadeEvent>, n: nat) {
    exists i | n <= i < |log| :: log[i].action == CircuitOpened
  }

  lemma LoggedOpened(log: seq<CascadeEvent>, source: string, affected: seq<string>, action: CascadeAction, reason: string,
                     radius: nat, n: nat)
    requires n <= |log|
    ensures var log' := Logged(log, source, affected, action, reason, radius);
            OpenedSince(log', n) <==> OpenedSince(log, n) || action == CircuitOpened
  {
    var log' := Logged(log, source, affected, action, reason, radius);
    assert log'[|log|].action == action && forall i | 0 <= i < |log| :: log'[i] == log[i];
  }

  lemma OpenedIffRefused(cfg: Config, s: State, from: string, to: string, reason: string, now: int)
    requires Invariant(cfg, s) && to in s.nodes
    ensures var t := RecordFailure(cfg, s, from, to, reason, now);
            OpenedSince(t.events, |s.events|) <==> Refused(t, from, to, now)
  {
    var t := RecordFailure(cfg, s, from, to, reason, now);
    var n, r := |s.events|, BlastRadius(s.nodes, to);
    FailureLogs(cfg, s, from, to, reason, now);
    var degraded := WentDegraded(s.nodes, t.nodes, s.nodes[to].dependents);
    LoggedOpened(s.events, to, [from], CircuitOpened, reason, r, n);
    var e1 := if Refused(t, from, to, now) then Logged(s.events, to, [from], CircuitOpened, reason, r) else s.events;
    LoggedOpened(e1, to, [to], AgentQuarantined, "Auto-quarantined: " + reason, r, n);
    var e2 := if Quarantines(cfg, s, t, to, now)
              then Logged(e1, to, [to], AgentQuarantined, "Auto-quarantined: " + reason, r) else e1;
    LoggedOpened(e2, to, degraded, HealthPropagated, "Health degradation propagated from " + to, r, n);
    var e3 := if Quarantines(cfg, s, t, to, now) && degraded != []
              then Logged(e2, to, degraded, HealthPropagated, "Health degradation propagated from " + to, r) else e2;
    LoggedOpened(e3, to, [to], RollbackTriggered, "Auto-rollback triggered: " + reason, r, n);
  }

  /** Over every run without arrows in the agents' ids: a failure over a declared dependency logs that the breaker is open
      exactly if the failures since the last success, this one included, reach the threshold of the caller's tier (and
      that tier's timeout is not up at once). */
  lemma FailureOpensByTier(cfg: Config, ops: seq<Op>, from: string, to: string, reason: string, now: int)
    requires ClockUpTo(ops, now) && DependsOn(Run(cfg, ops).nodes, from, to)
    requires ArrowFree(Run(cfg, ops + [OpRecordFailure(from, to, reason, now)]))
    ensures var ops' := ops + [OpRecordFailure(from, to, reason, now)];
            && from in Run(cfg, ops').nodes
            && (OpenedSince(Run(cfg, ops').events, |Run(cfg, ops).events|) <==> TrippedForTier(cfg, ops', from, to, now))
  {
    var op := OpRecordFailure(from, to, reason, now);
    var ops' := ops + [op];
    RunSnoc(cfg, ops, op);
    RunKeepsInvariant(cfg, ops);
    ClockReaches(ops, op, now);
    StillDepends(cfg, Run(cfg, ops), op, from, to);
    CallRefusedByTier(cfg, ops', from, to, now);
    OpenedIffRefused(cfg, Run(cfg, ops), from, to, reason, now);
  }

  lemma StillDepends(cfg: Config, s: State, op: Op, from: string, to: string)
    requires Invariant(cfg, s) && DependsOn(s.nodes, from, to)
    ensures DependsOn(Step(cfg, s, op).nodes, from, to) && to in s.nodes
  {
    StepExtends(cfg, s, op);
    assert HasDependent(s.nodes, to, from);
    assert s.nodes[from].dependencies <= Step(cfg, s, op).nodes[from].dependencies;
  }

  lemma ClockReaches(ops: seq<Op>, op: Op, now: int)
    requires ClockUpTo(ops, now) && TimeOf(op) == Some(now)
    ensures ClockUpTo(ops + [op], now)
  {
  }
}
