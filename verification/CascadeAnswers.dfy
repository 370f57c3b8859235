/**
  What the operations of the cascade containment manager answer and change, in the words of the graph: which calls are
  refused and why, who is healed and who degraded, and what the limits of each tier are.
 */
module CascadeAnswers {
  import opened Wrappers
  import opened Metrics
  import opened CascadeModel
  import opened CascadeFailure
  import opened CascadeContainment

  /** The tier's limits without any configuration: depth, fanout, failures before the breaker opens, and its timeout. */
  lemma TierLimits(cfg: Config, tier: TrustTier)
    requires cfg.tierPolicies == map[] && cfg.defaultPolicy == DEFAULT_BLAST_RADIUS_POLICY
    ensures var p := PolicyForTier(cfg, tier);
            && (tier.Untrusted? ==> p == BlastRadiusPolicy(2, 3, 3, 30_000, true, true))
            && (tier.Provisional? ==> p == BlastRadiusPolicy(3, 5, 4, 30_000, true, false))
            && (tier.Trusted? ==> p == BlastRadiusPolicy(5, 10, 5, 30_000, false, false))
            && (tier.Verified? ==> p == BlastRadiusPolicy(8, 20, 8, 30_000, false, false))
  {
  }

  /** An agent that is not registered is judged as provisional, and a tier configured with nothing has the default policy. */
  lemma FallbackPolicies(cfg: Config, tier: TrustTier, nodes: map<string, AgentNode>, id: string)
    ensures id !in nodes ==> PolicyForAgent(cfg, nodes, id) == PolicyForTier(cfg, Provisional)
    ensures tier in cfg.tierPolicies && cfg.tierPolicies[tier] == PolicyOverride(None, None, None, None, None, None) &&
            cfg.defaultPolicy == DEFAULT_BLAST_RADIUS_POLICY ==>
            PolicyForTier(cfg, tier) == BlastRadiusPolicy(5, 10, 5, 30_000, true, false)
  {
  }

  /** A configured tier falls back on the default policy field by field, and on nothing of the built-in tier. */
  lemma ConfiguredTier(cfg: Config, tier: TrustTier)
    requires tier in cfg.tierPolicies
    ensures var p, o, d := PolicyForTier(cfg, tier), cfg.tierPolicies[tier], cfg.defaultPolicy;
            && (if o.maxDependencyDepth.Some? then Some(p.maxDependencyDepth) == o.maxDependencyDepth
                else p.maxDependencyDepth == d.maxDependencyDepth)
            && (if o.maxFanout.Some? then Some(p.maxFanout) == o.maxFanout else p.maxFanout == d.maxFanout)
            && (if o.circuitBreakerThreshold.Some? then Some(p.circuitBreakerThreshold) == o.circuitBreakerThreshold
                else p.circuitBreakerThreshold == d.circuitBreakerThreshold)
            && (if o.circuitBreakerResetMs.Some? then Some(p.circuitBreakerResetMs) == o.circuitBreakerResetMs
                else p.circuitBreakerResetMs == d.circuitBreakerResetMs)
            && (if o.autoQuarantine.Some? then Some(p.autoQuarantine) == o.autoQuarantine
                else p.autoQuarantine == d.autoQuarantine)
            && (if o.autoRollback.Some? then Some(p.autoRollback) == o.autoRollback else p.autoRollback == d.autoRollback)
  {
  }

  // ---------- adding a dependency ----------

  function WithBoth(s: State, from: string, to: string): State {
    Register(Register(s, from, Provisional), to, Provisional)
  }

  /** Registering both ends adds those that are new, provisional, healthy and without edges, and changes no other. */
  lemma BothRegistered(s: State, from: string, to: string)
    ensures var t := WithBoth(s, from, to);
            && t.nodes.Keys == s.nodes.Keys + {from, to} && t.breakers == s.breakers && t.events == s.events
            && forall a | a in t.nodes ::
                 t.nodes[a] == if a in s.nodes then s.nodes[a] else AgentNode(Provisional, Healthy, [], [])
  {
  }

  /** A dependency that is not there yet is refused for fanout exactly if its caller has as many as its tier allows, else
      for depth exactly if the chain measured below the callee and the new edge are together longer than its tier allows;
      otherwise it is added. */
  lemma AddDependencyAnswers(cfg: Config, s: State, from: string, to: string)
    ensures var outcome, t := AddDependency(cfg, s, from, to).1, WithBoth(s, from, to);
            && from in t.nodes
            && var policy, count := PolicyForTier(cfg, t.nodes[from].trustTier), |t.nodes[from].dependencies|;
               var isNew, depth := !DependsOn(s.nodes, from, to), DepthTo(t.nodes, to, {}).0 + 1;
               outcome == if isNew && count >= policy.maxFanout then FanoutExceeded(policy.maxFanout)
                          else if isNew && depth > policy.maxDependencyDepth then
                            DepthExceeded(depth, policy.maxDependencyDepth)
                          else Added
  {
    BothRegistered(s, from, to);
  }

  /** The edge is at the end of both lists; nothing else about any agent has changed. */
  ghost predicate OneEdgeMore(n: map<string, AgentNode>, m: map<string, AgentNode>, from: string, to: string) {
    && m.Keys == n.Keys
    && forall a | a in n ::
         m[a] == AgentNode(n[a].trustTier, n[a].healthStatus,
                           n[a].dependencies + (if a == from then [to] else []),
                           n[a].dependents + (if a == to then [from] else []))
  }

  lemma WithEdgeAdds(nodes: map<string, AgentNode>, from: string, to: string)
    requires from in nodes && to in nodes
    ensures OneEdgeMore(nodes, WithEdge(nodes, from, to), from, to)
  {
  }

  /** An added dependency is one new edge, and a breaker of the caller's policy unless its key has one; a refused one, or one
      that was there, changes nothing but the two registrations. */
  lemma AddDependencyAdds(cfg: Config, s: State, from: string, to: string)
    ensures var (u, outcome) := AddDependency(cfg, s, from, to);
            var t, key := WithBoth(s, from, to), LinkKey(from, to);
            if outcome != Added || DependsOn(s.nodes, from, to) then u == t
            else
              && from in t.nodes && OneEdgeMore(t.nodes, u.nodes, from, to) && u.events == t.events
              && var policy := PolicyForTier(cfg, t.nodes[from].trustTier);
                 u.breakers == if key in t.breakers then t.breakers
                               else t.breakers[key := Breaker(policy.circuitBreakerThreshold, policy.circuitBreakerResetMs,
                                                              0, None, Closed)]
  {
    BothRegistered(s, from, to);
    WithEdgeAdds(WithBoth(s, from, to).nodes, from, to);
  }

  // ---------- healing and degrading ----------

  /** A success closes and empties the breaker of its link and heals the callee, and changes nothing else. */
  lemma SuccessHeals(s: State, from: string, to: string)
    ensures var t, key := RecordSuccess(s, from, to), LinkKey(from, to);
            && t.events == s.events && t.nodes.Keys == s.nodes.Keys && t.breakers.Keys == s.breakers.Keys
            && (forall a | a in s.nodes ::
                  t.nodes[a] == if a == to then s.nodes[a].(healthStatus := Healthy) else s.nodes[a])
            && forall k | k in s.breakers ::
                 t.breakers[k] == if k == key then s.breakers[k].(failures := 0, openedAt := None, currentState := Closed)
                                  else s.breakers[k]
  {
  }

  /** A reset heals one agent and changes nothing else. */
  lemma ResetHeals(s: State, id: string)
    ensures var t := ResetAgent(s, id);
            && t.events == s.events && t.nodes.Keys == s.nodes.Keys && t.breakers == s.breakers
            && forall a | a in s.nodes ::
                 t.nodes[a] == if a == id then s.nodes[a].(healthStatus := Healthy) else s.nodes[a]
  {
  }

  /** Propagation from a failing or unreachable agent degrades its healthy dependents, logs them if there are any, and
      changes nothing else; from any other agent it does nothing. */
  lemma PropagationDegrades(s: State, id: string)
    ensures var t := PropagateHealth(s, id);
            if id !in s.nodes || s.nodes[id].healthStatus == Healthy || s.nodes[id].healthStatus == Degraded then t == s
            else
              && t.breakers == s.breakers && t.nodes.Keys == s.nodes.Keys
              && (forall a | a in s.nodes ::
                    t.nodes[a] == if a in s.nodes[id].dependents && s.nodes[a].healthStatus == Healthy
                                  then s.nodes[a].(healthStatus := Degraded) else s.nodes[a])
              && var degraded := WentDegraded(s.nodes, t.nodes, s.nodes[id].dependents);
                 t.events == if degraded == [] then s.events
                             else Logged(s.events, id, degraded, HealthPropagated,
                                         "Health degradation propagated from " + id, BlastRadius(s.nodes, id))
  {
    if id in s.nodes && s.nodes[id].healthStatus != Healthy && s.nodes[id].healthStatus != Degraded {
      var dependents := s.nodes[id].dependents;
      var affected := HealthyOnes(s.nodes, dependents);
      forall a
        ensures a in affected <==> a in dependents && a in s.nodes && s.nodes[a].healthStatus == Healthy
      {
        InHealthyOnes(s.nodes, dependents, a);
      }
      DegradeKeepsGraph(s.nodes, set a | a in affected);
      SameRadius(s.nodes, Degrade(s.nodes, set a | a in affected), id);
      HealthyWentDegraded(s.nodes, s.nodes, PropagateHealth(s, id).nodes, dependents);
    }
  }

  lemma DegradeKeepsGraph(nodes: map<string, AgentNode>, ids: set<string>)
    ensures SameGraph(nodes, Degrade(nodes, ids))
  {
  }

  // ---------- the risk ----------

  lemma SameFactor(u: real, v: real, w: real)
    requires w > 0.0
    ensures u >= v <==> u * w >= v * w
  {
  }

  lemma QuotientTimes(x: real, y: real, b: real)
    requires y > 0.0
    ensures x / y * (y * b) == x * b
  {
    var r := x / y;
    assert r * y == x;
    assert r * (y * b) == r * y * b;
  }

  lemma RatioAtLeast(n: nat, total: nat, p: nat, q: nat)
    requires total > 0 && q > 0
    ensures n as real / total as real >= p as real / q as real <==> q * n >= p * total
  {
    var x, y, a, b := n as real, total as real, p as real, q as real;
    Positive(y, b);
    SameFactor(x / y, a / b, y * b);
    QuotientTimes(x, y, b);
    QuotientTimes(a, b, y);
    assert y * b == b * y;
    assert x * b == (q * n) as real && a * y == (p * total) as real;
  }

  lemma Positive(y: real, b: real)
    requires y > 0.0 && b > 0.0
    ensures y * b > 0.0
  {
  }

  /** The risk, by the shares of failing and of degraded agents and the number of open breakers. */
  lemma RiskIff(failing: nat, degraded: nat, total: nat, open: nat)
    requires total > 0
    ensures var f, d, risk := failing as real / total as real, degraded as real / total as real,
                              AssessCascadeRisk(failing, degraded, total, open);
            && (risk.RiskCritical? <==> f >= 0.3 || open >= 5)
            && (risk.RiskHigh? <==> !(f >= 0.3 || open >= 5) && (f >= 0.15 || d >= 0.3))
            && (risk.RiskLow? <==> f == 0.0 && d < 0.15 && open < 5)
  {
    RatioAtLeast(failing, total, 3, 10);
    RatioAtLeast(failing, total, 15, 100);
    RatioAtLeast(degraded, total, 3, 10);
    RatioAtLeast(degraded, total, 15, 100);
    if failing > 0 {
      RatioAtLeast(failing, total, 1, total);
    }
  }
}
