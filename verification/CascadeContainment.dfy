/**
  The cascade containment manager as the object it is: three fields updated in place, breakers that are
  objects of their own, and each public method proved to be the corresponding operation of `CascadeModel`.
 */
module CascadeContainment {
  import opened Wrappers
  import opened Metrics
  import opened Reachability
  import M = CascadeModel

  type State = M.State

  datatype CascadeRisk = RiskLow | RiskMedium | RiskHigh | RiskCritical

  datatype CascadeAnalysis = CascadeAnalysis(
    totalAgents: nat,
    healthyAgents: nat,
    degradedAgents: nat,
    failingAgents: nat,
    openCircuitBreakers: nat,
    cascadeRisk: CascadeRisk,
    blastRadiusMap: map<string, nat>,
    events: seq<M.CascadeEvent>)

  /** The ratios are compared as fractions of whole numbers. */
  function AssessCascadeRisk(failing: nat, degraded: nat, total: nat, openBreakers: nat): CascadeRisk {
    if total == 0 then RiskLow
    else if 10 * failing >= 3 * total || openBreakers >= 5 then RiskCritical
    else if 100 * failing >= 15 * total || 10 * degraded >= 3 * total then RiskHigh
    else if failing > 0 || 100 * degraded >= 15 * total then RiskMedium
    else RiskLow
  }

  function WithHealth(nodes: map<string, M.AgentNode>, healths: set<M.HealthStatus>): set<string> {
    set id | id in nodes && nodes[id].healthStatus in healths
  }

  function OpenKeys(breakers: map<string, Breaker>): set<string> {
    set k | k in breakers && breakers[k].currentState == Open
  }

  lemma CountedSets(nodes: map<string, M.AgentNode>, links: map<string, Breaker>)
    ensures WithHealth(nodes, {M.Healthy}) == set id | id in nodes && nodes[id].healthStatus == M.Healthy
    ensures WithHealth(nodes, {M.Degraded}) == set id | id in nodes && nodes[id].healthStatus == M.Degraded
    ensures WithHealth(nodes, {M.Failing, M.Unreachable}) ==
            set id | id in nodes && (nodes[id].healthStatus == M.Failing || nodes[id].healthStatus == M.Unreachable)
    ensures OpenKeys(links) == set k | k in links && links[k].currentState == Open
  {
  }

  function HealthAmong(nodes: map<string, M.AgentNode>, counted: set<string>, healths: set<M.HealthStatus>): set<string> {
    set id | id in counted && id in nodes && nodes[id].healthStatus in healths
  }

  lemma HealthAmongStep(nodes: map<string, M.AgentNode>, counted: set<string>, id: string, healths: set<M.HealthStatus>)
    requires id in nodes && id !in counted
    ensures |HealthAmong(nodes, counted + {id}, healths)| ==
            |HealthAmong(nodes, counted, healths)| + if nodes[id].healthStatus in healths then 1 else 0
  {
    var h, h' := HealthAmong(nodes, counted, healths), HealthAmong(nodes, counted + {id}, healths);
    if nodes[id].healthStatus in healths {
      assert h' == h + {id};
    } else {
      assert h' == h;
    }
  }

  /** The keys of `counted` whose breakers a read at `now` finds open. */
  function OpenAmong(s: State, counted: set<string>, now: int): set<string> {
    set k | k in counted && k in s.breakers && s.breakers[k].Poll(now).currentState == Open
  }

  lemma OpenAmongStep(s: State, counted: set<string>, key: string, now: int)
    requires key in s.breakers && key !in counted
    ensures |OpenAmong(s, counted + {key}, now)| ==
            |OpenAmong(s, counted, now)| + if s.breakers[key].Poll(now).currentState == Open then 1 else 0
  {
    var o, o' := OpenAmong(s, counted, now), OpenAmong(s, counted + {key}, now);
    if s.breakers[key].Poll(now).currentState == Open {
      assert o' == o + {key};
    } else {
      assert o' == o;
    }
  }

  /** Reading one more breaker, and counting it if it is open. */
  lemma CountOneMore(s: State, counted: set<string>, key: string, now: int)
    requires key in s.breakers && key !in counted
    ensures var t := M.PollKeys(s, counted, now);
            && t.breakers.Keys == s.breakers.Keys
            && M.PollKeys(t, {key}, now) == M.PollKeys(s, counted + {key}, now)
            && |OpenAmong(s, counted + {key}, now)| ==
               |OpenAmong(s, counted, now)| + if t.breakers[key].Poll(now).currentState == Open then 1 else 0
  {
    PollKeysTwice(s, counted, {key}, now);
    OpenAmongStep(s, counted, key, now);
  }

  lemma OpenAmongAll(s: State, now: int)
    ensures M.PollKeys(s, {}, now).breakers == s.breakers
    ensures OpenAmong(s, {}, now) == {}
    ensures OpenAmong(s, s.breakers.Keys, now) == OpenKeys(M.PollKeys(s, s.breakers.Keys, now).breakers)
  {
  }

  /** `rest` is what remains of `all` once `done` has been taken out. */
  ghost predicate Splits(all: set<string>, rest: set<string>, done: set<string>) {
    rest !! done && rest + done == all
  }

  lemma SplitsStep(all: set<string>, rest: set<string>, done: set<string>, x: string)
    requires Splits(all, rest, done) && x in rest
    ensures Splits(all, rest - {x}, done + {x}) && x in all && x !in done
  {
  }

  lemma SplitsEnds(all: set<string>, done: set<string>)
    ensures Splits(all, all, {})
    ensures Splits(all, {}, done) ==> done == all
  {
  }

  /** Of the breakers of `s` those in `counted` have been read, and `count` of them were open. */
  ghost predicate Counting(s: State, rest: set<string>, counted: set<string>, now: int, count: nat,
                           links: map<string, Breaker>)
  {
    && Splits(s.breakers.Keys, rest, counted)
    && links == M.PollKeys(s, counted, now).breakers
    && count == |OpenAmong(s, counted, now)|
  }

  lemma CountingStarts(s: State, now: int)
    ensures Counting(s, s.breakers.Keys, {}, now, 0, s.breakers)
  {
    OpenAmongAll(s, now);
    SplitsEnds(s.breakers.Keys, {});
  }

  lemma CountingStep(s: State, rest: set<string>, counted: set<string>, now: int, count: nat, key: string)
    requires Counting(s, rest, counted, now, count, M.PollKeys(s, counted, now).breakers) && key in rest
    ensures var t := M.PollKeys(s, counted, now);
            && key in t.breakers
            && Counting(s, rest - {key}, counted + {key}, now,
                        count + if t.breakers[key].Poll(now).currentState == Open then 1 else 0,
                        M.PollKeys(t, {key}, now).breakers)
  {
    SplitsStep(s.breakers.Keys, rest, counted, key);
    CountOneMore(s, counted, key, now);
  }

  lemma CountingEnds(s: State, counted: set<string>, now: int, count: nat, links: map<string, Breaker>)
    requires Counting(s, {}, counted, now, count, links)
    ensures counted == s.breakers.Keys && links == M.PollKeys(s, s.breakers.Keys, now).breakers
    ensures count == |OpenKeys(links)|
  {
    SplitsEnds(s.breakers.Keys, counted);
    OpenAmongAll(s, now);
  }

  // ---------- polling twice at one moment is polling once ----------

  lemma PollKeysTwice(s: State, keys: set<string>, more: set<string>, now: int)
    ensures M.PollKeys(M.PollKeys(s, keys, now), more, now) == M.PollKeys(s, keys + more, now)
  {
    var t, u := M.PollKeys(M.PollKeys(s, keys, now), more, now), M.PollKeys(s, keys + more, now);
    assert t.breakers.Keys == s.breakers.Keys == u.breakers.Keys;
    forall k | k in s.breakers
      ensures t.breakers[k] == u.breakers[k]
    {
      assert s.breakers[k].Poll(now).Poll(now) == s.breakers[k].Poll(now);
    }
    assert t.breakers == u.breakers;
  }

  lemma PollAgain(s: State, keys: set<string>, key: string, now: int)
    requires key in s.breakers
    ensures M.PollKeys(s, keys, now).breakers[key].Poll(now) == s.breakers[key].Poll(now)
  {
  }

  lemma CountOpenStep(s: State, dependents: seq<string>, id: string, i: nat, now: int)
    requires i < |dependents|
    ensures var key := M.LinkKey(dependents[i], id);
            M.CountOpen(s, dependents[..i + 1], id, now) ==
            M.CountOpen(s, dependents[..i], id, now) +
            if key in s.breakers && s.breakers[key].Poll(now).currentState == Open then 1 else 0
  {
    assert dependents[..i + 1][..i] == dependents[..i];
  }

  lemma LinkKeysStep(dependents: seq<string>, id: string, i: nat)
    requires i < |dependents|
    ensures M.LinkKeysTo(dependents[..i + 1], id) == M.LinkKeysTo(dependents[..i], id) + {M.LinkKey(dependents[i], id)}
  {
    assert dependents[..i + 1] == dependents[..i] + [dependents[i]];
  }

  /** Reading the breaker on the link from one more dependent, and counting it if it is open. */
  lemma CountOpenOneMore(s: State, dependents: seq<string>, id: string, i: nat, now: int)
    requires i < |dependents|
    ensures var key := M.LinkKey(dependents[i], id);
            var t := M.PollKeys(s, M.LinkKeysTo(dependents[..i], id), now);
            && t.breakers.Keys == s.breakers.Keys
            && M.PollKeys(t, {key}, now) == M.PollKeys(s, M.LinkKeysTo(dependents[..i + 1], id), now)
            && M.CountOpen(s, dependents[..i + 1], id, now) ==
               M.CountOpen(s, dependents[..i], id, now) +
               if key in t.breakers && t.breakers[key].Poll(now).currentState == Open then 1 else 0
  {
    var key := M.LinkKey(dependents[i], id);
    LinkKeysStep(dependents, id, i);
    PollKeysTwice(s, M.LinkKeysTo(dependents[..i], id), {key}, now);
    CountOpenStep(s, dependents, id, i, now);
    if key in s.breakers {
      PollAgain(s, M.LinkKeysTo(dependents[..i], id), key, now);
    }
  }

  /** Of the links from the dependents those of the first `i` have been read, and `count` were open. */
  ghost predicate CountedTo(s: State, dependents: seq<string>, id: string, i: nat, now: int, count: nat,
                            links: map<string, Breaker>)
    requires i <= |dependents|
  {
    && links == M.PollKeys(s, M.LinkKeysTo(dependents[..i], id), now).breakers
    && count == M.CountOpen(s, dependents[..i], id, now)
  }

  lemma CountedStarts(s: State, dependents: seq<string>, id: string, now: int)
    ensures CountedTo(s, dependents, id, 0, now, 0, s.breakers)
  {
    OpenAmongAll(s, now);
    assert M.LinkKeysTo(dependents[..0], id) == {};
  }

  lemma CountedStep(s: State, dependents: seq<string>, id: string, i: nat, now: int, count: nat)
    requires i < |dependents|
    requires CountedTo(s, dependents, id, i, now, count, M.PollKeys(s, M.LinkKeysTo(dependents[..i], id), now).breakers)
    ensures var key := M.LinkKey(dependents[i], id);
            var t := M.PollKeys(s, M.LinkKeysTo(dependents[..i], id), now);
            CountedTo(s, dependents, id, i + 1, now,
                      count + if key in t.breakers && t.breakers[key].Poll(now).currentState == Open then 1 else 0,
                      M.PollKeys(t, {key}, now).breakers)
  {
    CountOpenOneMore(s, dependents, id, i, now);
  }

  lemma CountedEnds(s: State, dependents: seq<string>, id: string, now: int, count: nat, links: map<string, Breaker>)
    requires CountedTo(s, dependents, id, |dependents|, now, count, links)
    ensures links == M.PollKeys(s, M.LinkKeysTo(dependents, id), now).breakers
    ensures count == M.CountOpen(s, dependents, id, now)
  {
    assert dependents[..|dependents|] == dependents;
  }

  lemma AppendTwice<T>(log: seq<T>, x: seq<T>, y: seq<T>)
    ensures log + x + y == log + (x + y)
  {
  }

  lemma NothingAppended<T>(log: seq<T>, x: seq<T>)
    requires log == log + x
    ensures x == []
    ensures forall t: seq<T> :: t + x == t
  {
    assert |log + x| == |log| + |x|;
  }

  lemma {:induction false} HealthyOnesAreHealthy(nodes: map<string, M.AgentNode>, ids: seq<string>)
    ensures forall a | a in M.HealthyOnes(nodes, ids) :: a in ids && a in nodes && nodes[a].healthStatus == M.Healthy
  {
    if ids == [] {
    } else {
      HealthyOnesAreHealthy(nodes, ids[..|ids| - 1]);
    }
  }

  /** Degrading one more agent, which was healthy and not yet degraded. */
  lemma DegradeOneMore(nodes: map<string, M.AgentNode>, ids: seq<string>, i: nat)
    requires M.NoDuplicates(ids) && i < |ids|
    ensures var affected := M.HealthyOnes(nodes, ids[..i]);
            var now := M.Degrade(nodes, set a | a in affected);
            if ids[i] in now && now[ids[i]].healthStatus == M.Healthy then
              && M.HealthyOnes(nodes, ids[..i + 1]) == affected + [ids[i]]
              && M.Degrade(nodes, set a | a in affected + [ids[i]])
                 == now[ids[i] := now[ids[i]].(healthStatus := M.Degraded)]
            else M.HealthyOnes(nodes, ids[..i + 1]) == affected
  {
    HealthyOnesAreHealthy(nodes, ids[..i]);
    assert ids[..i + 1][..i] == ids[..i];
    assert ids[i] !in M.HealthyOnes(nodes, ids[..i]);
  }

  // ---------- changing health keeps the edges ----------

  lemma DegradeKeepsEdgesOnce(nodes: map<string, M.AgentNode>, ids: set<string>)
    requires M.EachEdgeOnce(nodes)
    ensures M.EachEdgeOnce(M.Degrade(nodes, ids))
  {
  }

  lemma SetHealthKeepsEdgesOnce(nodes: map<string, M.AgentNode>, id: string, health: M.HealthStatus)
    requires M.EachEdgeOnce(nodes) && id in nodes
    ensures M.EachEdgeOnce(nodes[id := nodes[id].(healthStatus := health)])
  {
  }

  /** Degrading healthy agents leaves fewer of them. */
  lemma DegradingShrinksHealthy(nodes: map<string, M.AgentNode>, affected: seq<string>)
    requires forall a | a in affected :: a in nodes && nodes[a].healthStatus == M.Healthy
    ensures var after := M.Degrade(nodes, set a | a in affected);
            && (forall i | 0 <= i < |affected| ::
                  affected[i] in after && after[affected[i]].healthStatus == M.Degraded)
            && (affected != [] ==> WithHealth(after, {M.Healthy}) < WithHealth(nodes, {M.Healthy}))
  {
    var ids := set a | a in affected;
    var after := M.Degrade(nodes, ids);
    assert forall i | 0 <= i < |affected| :: affected[i] in ids;
    if affected != [] {
      assert affected[0] in WithHealth(nodes, {M.Healthy}) && affected[0] !in WithHealth(after, {M.Healthy});
    }
  }

  /** Why the calls that follow a propagation return at once, and why the recursion is well-founded. */
  lemma PropagationLeavesNoneToFollow(s: State, id: string)
    requires M.EachEdgeOnce(s.nodes) && id in s.nodes
    requires s.nodes[id].healthStatus == M.Failing || s.nodes[id].healthStatus == M.Unreachable
    ensures var affected, after := M.HealthyOnes(s.nodes, s.nodes[id].dependents), M.PropagateHealth(s, id).nodes;
            && M.EachEdgeOnce(after)
            && (forall i | 0 <= i < |affected| ::
                  affected[i] in after && after[affected[i]].healthStatus == M.Degraded)
            && (affected != [] ==> WithHealth(after, {M.Healthy}) < WithHealth(s.nodes, {M.Healthy}))
  {
    var affected := M.HealthyOnes(s.nodes, s.nodes[id].dependents);
    HealthyOnesAreHealthy(s.nodes, s.nodes[id].dependents);
    DegradeKeepsEdgesOnce(s.nodes, set a | a in affected);
    DegradingShrinksHealthy(s.nodes, affected);
  }

  /** Each entry is the blast radius of its agent. */
  ghost predicate AreRadii(nodes: map<string, M.AgentNode>, radii: map<string, nat>) {
    forall id {:trigger M.BlastRadius(nodes, id)} | id in radii :: radii[id] == M.BlastRadius(nodes, id)
  }

  ghost predicate Bounded(radii: map<string, nat>, bound: nat) {
    forall id | id in radii :: radii[id] < bound
  }

  lemma RadiiAreBounded(nodes: map<string, M.AgentNode>, radii: map<string, nat>)
    requires M.Converse(nodes) && radii.Keys == nodes.Keys && AreRadii(nodes, radii)
    ensures Bounded(radii, |nodes|)
  {
    forall id | id in radii
      ensures radii[id] < |nodes|
    {
      M.BlastRadiusBound(nodes, id);
    }
  }

  lemma HealthCountsAddUp(nodes: map<string, M.AgentNode>)
    ensures |WithHealth(nodes, {M.Healthy})| + |WithHealth(nodes, {M.Degraded})| +
            |WithHealth(nodes, {M.Failing, M.Unreachable})| == |nodes|
  {
    var h, d, f := WithHealth(nodes, {M.Healthy}), WithHealth(nodes, {M.Degraded}),
                   WithHealth(nodes, {M.Failing, M.Unreachable});
    assert h !! d && (h + d) !! f;
    forall id | id in nodes
      ensures id in h + d + f
    {
      match nodes[id].healthStatus
      case Healthy => assert id in h;
      case Degraded => assert id in d;
      case Failing => assert id in f;
      case Unreachable => assert id in f;
    }
    assert nodes.Keys == h + d + f;
  }

  class CascadeContainmentManager {
    const config: M.Config
    var nodes: map<string, M.AgentNode>
    var breakers: map<string, CircuitBreaker>
    var events: seq<M.CascadeEvent>

    /** The breakers as values; `Linked` ties each to its object. */
    ghost var links: map<string, Breaker>

    /** The abstract state the model speaks of. */
    ghost function View(): State
      reads this
    {
      M.State(nodes, links, events)
    }

    /** Every link has a breaker object of its own, which holds what `links` says. */
    ghost predicate Linked()
      reads this`breakers, this`links, breakers.Values
    {
      && breakers.Keys == links.Keys
      && (forall k | k in breakers :: breakers[k].View() == links[k])
      && (forall k, l | k in breakers && l in breakers && k != l :: breakers[k] != breakers[l])
    }

    ghost predicate Valid()
      reads this, breakers.Values
    {
      Linked() && M.Invariant(config, View())
    }

    constructor (config: M.Config)
      ensures Valid() && View() == M.EMPTY && this.config == config
    {
      this.config := config;
      nodes := map[];
      breakers := map[];
      links := map[];
      events := [];
    }

    // ---------- graph traversals ----------

    /** Depth-first, with one visited set for the whole traversal, which the caller goes on using. */
    method CollectDependents(id: string, visited: set<string>) returns (visited': set<string>)
      ensures Visits(M.DependentsGraph(nodes), id, visited, visited')
      decreases nodes.Keys - visited
    {
      if id in visited {
        return visited;
      }
      ghost var g := M.DependentsGraph(nodes);
      visited' := visited + {id};
      VisitStart(g, id, visited);
      if id !in nodes {
        return;
      }
      var dependents := nodes[id].dependents;
      ghost var done: set<string> := {};
      for i := 0 to |dependents|
        invariant VisitsSome(g, id, done, visited, visited')
        invariant done == set d | d in dependents[..i]
      {
        ghost var mid := visited';
        visited' := CollectDependents(dependents[i], visited');
        VisitNext(g, id, done, dependents[i], visited, mid, visited');
        done := done + {dependents[i]};
      }
    }

    method ComputeBlastRadius(id: string) returns (radius: nat)
      ensures radius == M.BlastRadius(nodes, id)
    {
      var visited := CollectDependents(id, {});
      VisitFromScratch(M.DependentsGraph(nodes), id, visited);
      radius := |visited - {id}|;
    }

    method GetDepthTo(id: string, visited: set<string>) returns (depth: nat, visited': set<string>)
      ensures (depth, visited') == M.DepthTo(nodes, id, visited)
      decreases nodes.Keys - visited
    {
      if id in visited {
        return 0, visited;
      }
      visited' := visited + {id};
      depth := 0;
      if id !in nodes || nodes[id].dependencies == [] {
        return;
      }
      var dependencies := nodes[id].dependencies;
      for i := 0 to |dependencies|
        invariant (depth, visited') == M.DepthOver(nodes, id, i, visited)
      {
        var below;
        below, visited' := GetDepthTo(dependencies[i], visited');
        depth := if depth >= 1 + below then depth else 1 + below;
      }
    }

    // ---------- registering and linking ----------

    method RegisterAgent(id: string, tier: M.TrustTier)
      requires Valid()
      modifies this`nodes
      ensures Valid() && View() == M.Register(old(View()), id, tier)
    {
      M.RegisterKeepsInvariant(config, View(), id, tier);
      if id in nodes {
        return;
      }
      nodes := nodes[id := M.AgentNode(tier, M.Healthy, [], [])];
    }

    /** The outcomes other than `Added` stand for the thrown errors. */
    method AddDependency(from: string, to: string) returns (outcome: M.AddOutcome)
      requires Valid()
      modifies this`nodes, this`breakers, this`links
      ensures Valid() && (View(), outcome) == M.AddDependency(config, old(View()), from, to)
      ensures fresh(breakers.Values - old(breakers.Values))
    {
      RegisterAgent(from, M.Provisional);
      RegisterAgent(to, M.Provisional);
      if to in nodes[from].dependencies {
        return M.Added;
      }
      var policy := M.PolicyForAgent(config, nodes, from);
      if |nodes[from].dependencies| >= policy.maxFanout {
        return M.FanoutExceeded(policy.maxFanout);
      }
      var below, _ := GetDepthTo(to, {});
      var depth := below + 1;
      if depth > policy.maxDependencyDepth {
        return M.DepthExceeded(depth, policy.maxDependencyDepth);
      }
      LinkAgents(from, to);
      return M.Added;
    }

    method EnsureBreaker(key: string, policy: M.BlastRadiusPolicy)
      requires Linked()
      modifies this`breakers, this`links
      ensures Linked() && links == M.WithBreaker(old(links), key, policy)
      ensures fresh(breakers.Values - old(breakers.Values))
    {
      if key !in breakers {
        var breaker := new CircuitBreaker(policy.circuitBreakerThreshold, policy.circuitBreakerResetMs);
        breakers := breakers[key := breaker];
        links := links[key := breaker.View()];
      }
    }

    method LinkAgents(from: string, to: string)
      requires Valid() && from in nodes && to in nodes && to !in nodes[from].dependencies
      requires |nodes[from].dependencies| < M.PolicyForAgent(config, nodes, from).maxFanout
      modifies this`nodes, this`breakers, this`links
      ensures Valid() && View() == M.Link(config, old(View()), from, to)
      ensures fresh(breakers.Values - old(breakers.Values))
    {
      M.LinkKeepsInvariant(config, View(), from, to);
      var policy := M.PolicyForAgent(config, nodes, from);
      nodes := nodes[from := nodes[from].(dependencies := nodes[from].dependencies + [to])];
      nodes := nodes[to := nodes[to].(dependents := nodes[to].dependents + [from])];
      EnsureBreaker(M.LinkKey(from, to), policy);
    }

    // ---------- reading breakers ----------

    /** Reads the breaker with this key, if there is one, and lets it move to half open. */
    method ReadBreaker(key: string, now: int) returns (state: Option<CircuitBreakerState>)
      requires Linked()
      modifies this`links, if key in breakers then {breakers[key]} else {}
      ensures Linked() && View() == M.PollKeys(old(View()), {key}, now)
      ensures state == if key in breakers then Some(old(links)[key].Poll(now).currentState) else None
    {
      ghost var before := View();
      state := None;
      if key in breakers {
        var current := breakers[key].State(now);
        links := links[key := links[key].Poll(now)];
        state := Some(current);
      }
      assert links == M.PollKeys(before, {key}, now).breakers;
    }

    /** Reads the breaker with this key and says whether it is open. */
    method IsOpen(key: string, now: int) returns (open: bool)
      requires Linked()
      modifies this`links, breakers.Values
      ensures Linked() && links == M.PollKeys(old(View()), {key}, now).breakers
      ensures open <==> key in breakers && old(links)[key].Poll(now).currentState == Open
    {
      var state := ReadBreaker(key, now);
      open := state == Some(Open);
    }

    method CanCall(from: string, to: string, now: int) returns (ok: bool)
      requires Valid()
      modifies this`links, breakers.Values
      ensures Valid() && View() == M.Step(config, old(View()), M.OpReadBreaker(from, to, now))
      ensures ok <==> (M.LinkKey(from, to) in breakers ==> old(links)[M.LinkKey(from, to)].CanExecute(now))
    {
      ghost var before := View();
      M.StepKeepsInvariant(config, before, M.OpReadBreaker(from, to, now));
      var open := IsOpen(M.LinkKey(from, to), now);
      ok := !open;
    }

    method GetBreakerState(from: string, to: string, now: int) returns (state: Option<CircuitBreakerState>)
      requires Valid()
      modifies this`links, breakers.Values
      ensures Valid() && View() == M.Step(config, old(View()), M.OpReadBreaker(from, to, now))
      ensures state == if M.LinkKey(from, to) in breakers then Some(links[M.LinkKey(from, to)].currentState) else None
    {
      M.StepKeepsInvariant(config, View(), M.OpReadBreaker(from, to, now));
      state := ReadBreaker(M.LinkKey(from, to), now);
    }

    method CountOpenBreakersTo(id: string, now: int) returns (count: nat)
      requires Linked()
      modifies this`links, breakers.Values
      ensures Linked()
      ensures id in nodes ==>
                && View() == M.PollKeys(old(View()), M.LinkKeysTo(nodes[id].dependents, id), now)
                && count == M.CountOpen(old(View()), nodes[id].dependents, id, now)
      ensures id !in nodes ==> View() == old(View()) && count == 0
    {
      count := 0;
      if id !in nodes {
        return;
      }
      ghost var before := View();
      var dependents := nodes[id].dependents;
      CountedStarts(before, dependents, id, now);
      for i := 0 to |dependents|
        invariant Linked() && CountedTo(before, dependents, id, i, now, count, links)
      {
        CountedStep(before, dependents, id, i, now, count);
        var open := IsOpen(M.LinkKey(dependents[i], id), now);
        count := count + if open then 1 else 0;
      }
      CountedEnds(before, dependents, id, now, count, links);
    }

    // ---------- outcomes of calls ----------

    method SucceedLink(key: string)
      requires Linked()
      modifies this`links, breakers.Values
      ensures Linked() && links == M.SucceedKey(old(links), key)
    {
      if key in breakers {
        breakers[key].OnSuccess();
        links := links[key := links[key].Succeed()];
      }
    }

    method SucceedAndHeal(from: string, to: string)
      requires Linked()
      modifies this`nodes, this`links, breakers.Values
      ensures Linked() && View() == M.RecordSuccess(old(View()), from, to)
    {
      SucceedLink(M.LinkKey(from, to));
      if to in nodes && nodes[to].healthStatus != M.Healthy {
        nodes := nodes[to := nodes[to].(healthStatus := M.Healthy)];
      }
    }

    method RecordSuccess(from: string, to: string)
      requires Valid()
      modifies this`nodes, this`links, breakers.Values
      ensures Valid() && View() == M.RecordSuccess(old(View()), from, to)
    {
      M.RecordSuccessKeepsInvariant(config, View(), from, to);
      SucceedAndHeal(from, to);
    }

    method EmitEvent(source: string, affected: seq<string>, action: M.CascadeAction, reason: string)
      returns (event: M.CascadeEvent)
      modifies this`events
      ensures View() == M.Emit(old(View()), source, affected, action, reason)
      ensures events == old(events) + [event]
    {
      var blastRadius := ComputeBlastRadius(source);
      event := M.CascadeEvent(source, affected, action, reason, blastRadius, |events|);
      events := events + [event];
    }

    /** The first part of recording a failure. */
    method FailLink(from: string, to: string, reason: string, now: int) returns (triggered: seq<M.CascadeEvent>)
      requires Linked()
      modifies this`events, this`links, breakers.Values
      ensures Linked() && View() == M.FailLink(old(View()), from, to, reason, now)
      ensures events == old(events) + triggered
    {
      triggered := [];
      var key := M.LinkKey(from, to);
      if key in breakers {
        breakers[key].OnFailure(now);
        var state := breakers[key].State(now);
        links := links[key := links[key].Fail(now).Poll(now)];
        if state == Open {
          var event := EmitEvent(to, [from], M.CircuitOpened, reason);
          triggered := [event];
        }
      }
    }

    /** The second part: the callee's health. */
    method JudgeHealth(to: string, now: int)
      requires Linked()
      modifies this`nodes, this`links, breakers.Values
      ensures Linked() && View() == M.JudgeHealth(config, old(View()), to, now)
    {
      if to in nodes {
        var open := CountOpenBreakersTo(to, now);
        if open >= config.cascadeThreshold {
          nodes := nodes[to := nodes[to].(healthStatus := M.Failing)];
        } else if open > 0 {
          nodes := nodes[to := nodes[to].(healthStatus := M.Degraded)];
        }
      }
    }

    method FailAndContain(from: string, to: string, reason: string, now: int) returns (triggered: seq<M.CascadeEvent>)
      requires Linked() && M.EachEdgeOnce(nodes)
      modifies this`nodes, this`events, this`links, breakers.Values
      ensures Linked() && View() == M.RecordFailure(config, old(View()), from, to, reason, now)
      ensures events == old(events) + triggered
    {
      triggered := FailLink(from, to, reason, now);
      M.JudgeHealthKeepsEdgesOnce(config, View(), to, now);
      JudgeHealth(to, now);
      var contained := ApplyContainment(to, reason);
      AppendTwice(old(events), triggered, contained);
      triggered := triggered + contained;
    }

    /** Returns exactly the events it has appended to the log. */
    method RecordFailure(from: string, to: string, reason: string, now: int) returns (triggered: seq<M.CascadeEvent>)
      requires Valid()
      modifies this`nodes, this`events, this`links, breakers.Values
      ensures Valid() && View() == M.RecordFailure(config, old(View()), from, to, reason, now)
      ensures events == old(events) + triggered
    {
      M.RecordFailureKeepsInvariant(config, View(), from, to, reason, now);
      triggered := FailAndContain(from, to, reason, now);
    }

    /** Degrades the healthy agents of a duplicate-free list and returns them. */
    method DegradeHealthy(dependents: seq<string>) returns (affected: seq<string>)
      requires M.NoDuplicates(dependents)
      modifies this`nodes
      ensures affected == M.HealthyOnes(old(nodes), dependents)
      ensures nodes == M.Degrade(old(nodes), set a | a in affected)
    {
      affected := [];
      for i := 0 to |dependents|
        invariant affected == M.HealthyOnes(old(nodes), dependents[..i])
        invariant nodes == M.Degrade(old(nodes), set a | a in affected)
      {
        var dependentId := dependents[i];
        DegradeOneMore(old(nodes), dependents, i);
        if dependentId in nodes && nodes[dependentId].healthStatus == M.Healthy {
          nodes := nodes[dependentId := nodes[dependentId].(healthStatus := M.Degraded)];
          affected := affected + [dependentId];
        }
      }
      assert dependents[..|dependents|] == dependents;
    }

    /** Degrades the healthy direct dependents of a failed agent and logs that, if there are any. */
    method DegradeDependents(id: string) returns (affected: seq<string>, triggered: seq<M.CascadeEvent>)
      requires M.EachEdgeOnce(nodes) && id in nodes
      requires nodes[id].healthStatus == M.Failing || nodes[id].healthStatus == M.Unreachable
      modifies this`nodes, this`events
      ensures affected == M.HealthyOnes(old(nodes), old(nodes)[id].dependents)
      ensures View() == M.PropagateHealth(old(View()), id) && events == old(events) + triggered
    {
      triggered := [];
      affected := DegradeHealthy(nodes[id].dependents);
      if |affected| > 0 {
        var event := EmitEvent(id, affected, M.HealthPropagated, "Health degradation propagated from " + id);
        triggered := [event];
      }
    }

    /**
      Calls itself on the agents it has just degraded, with the number of healthy agents as measure; each of
      those calls returns at once, so the whole effect is one hop.
     */
    method PropagateHealth(id: string) returns (triggered: seq<M.CascadeEvent>)
      requires M.EachEdgeOnce(nodes)
      modifies this`nodes, this`events
      ensures View() == M.PropagateHealth(old(View()), id) && events == old(events) + triggered
      decreases WithHealth(nodes, {M.Healthy})
    {
      triggered := [];
      if id !in nodes || (nodes[id].healthStatus != M.Failing && nodes[id].healthStatus != M.Unreachable) {
        return;
      }
      PropagationLeavesNoneToFollow(View(), id);
      var affected;
      affected, triggered := DegradeDependents(id);
      ghost var after := View();
      for i := 0 to |affected|
        invariant View() == after && events == old(events) + triggered
      {
        var deeper := PropagateHealth(affected[i]);
        assert M.PropagateHealth(after, affected[i]) == after;
        NothingAppended(after.events, deeper);
        triggered := triggered + deeper;
      }
    }

    method QuarantineAgent(id: string, reason: string) returns (triggered: seq<M.CascadeEvent>)
      requires M.EachEdgeOnce(nodes) && id in nodes
      modifies this`nodes, this`events
      ensures View() == M.Quarantine(config, old(View()), id, reason)
      ensures events == old(events) + triggered
    {
      triggered := [];
      if nodes[id].healthStatus == M.Failing && M.PolicyForAgent(config, nodes, id).autoQuarantine {
        SetHealthKeepsEdgesOnce(nodes, id, M.Unreachable);
        nodes := nodes[id := nodes[id].(healthStatus := M.Unreachable)];
        var event := EmitEvent(id, [id], M.AgentQuarantined, "Auto-quarantined: " + reason);
        var propagated := PropagateHealth(id);
        AppendTwice(old(events), [event], propagated);
        triggered := [event] + propagated;
      }
    }

    method ApplyContainment(id: string, reason: string) returns (triggered: seq<M.CascadeEvent>)
      requires M.EachEdgeOnce(nodes)
      modifies this`nodes, this`events
      ensures View() == M.ApplyContainment(config, old(View()), id, reason)
      ensures events == old(events) + triggered
    {
      triggered := [];
      if id !in nodes {
        return;
      }
      M.QuarantineSameLinks(config, View(), id, reason);
      triggered := QuarantineAgent(id, reason);
      if nodes[id].healthStatus == M.Unreachable && M.PolicyForAgent(config, nodes, id).autoRollback {
        var event := EmitEvent(id, [id], M.RollbackTriggered, "Auto-rollback triggered: " + reason);
        AppendTwice(old(events), triggered, [event]);
        triggered := triggered + [event];
      }
    }

    method ResetAgent(id: string)
      requires Valid()
      modifies this`nodes
      ensures Valid() && View() == M.ResetAgent(old(View()), id)
    {
      if id in nodes {
        M.SetHealthyKeepsInvariant(config, View(), id);
        nodes := nodes[id := nodes[id].(healthStatus := M.Healthy)];
      }
    }

    // ---------- analysis ----------

    /** Counts the agents whose health is one of `healths`. */
    method CountHealth(healths: set<M.HealthStatus>) returns (count: nat)
      ensures count == |WithHealth(nodes, healths)|
    {
      count := 0;
      var rest := nodes.Keys;
      ghost var counted: set<string> := {};
      SplitsEnds(nodes.Keys, {});
      while rest != {}
        invariant Splits(nodes.Keys, rest, counted)
        invariant count == |HealthAmong(nodes, counted, healths)|
        decreases rest
      {
        var id :| id in rest;
        SplitsStep(nodes.Keys, rest, counted, id);
        HealthAmongStep(nodes, counted, id, healths);
        count := count + if nodes[id].healthStatus in healths then 1 else 0;
        rest, counted := rest - {id}, counted + {id};
      }
      SplitsEnds(nodes.Keys, counted);
      assert WithHealth(nodes, healths) == HealthAmong(nodes, counted, healths);
    }

    /** Reads every breaker and counts the open ones. */
    method CountOpenBreakers(now: int) returns (count: nat)
      requires Linked()
      modifies this`links, breakers.Values
      ensures Linked() && View() == M.PollKeys(old(View()), breakers.Keys, now)
      ensures count == |OpenKeys(links)|
    {
      count := 0;
      ghost var before := View();
      var rest := breakers.Keys;
      ghost var counted: set<string> := {};
      CountingStarts(before, now);
      while rest != {}
        invariant Linked() && Counting(before, rest, counted, now, count, links)
        decreases rest
      {
        var key :| key in rest;
        var open := IsOpen(key, now);
        CountingStep(before, rest, counted, now, count, key);
        count := count + if open then 1 else 0;
        rest, counted := rest - {key}, counted + {key};
      }
      CountingEnds(before, counted, now, count, links);
    }

    /** Counts healthy, degraded and failing or unreachable agents; that is all of them. */
    method CountAgents() returns (healthy: nat, degraded: nat, failing: nat)
      ensures healthy == |WithHealth(nodes, {M.Healthy})|
      ensures degraded == |WithHealth(nodes, {M.Degraded})|
      ensures failing == |WithHealth(nodes, {M.Failing, M.Unreachable})|
      ensures healthy + degraded + failing == |nodes|
    {
      healthy := CountHealth({M.Healthy});
      degraded := CountHealth({M.Degraded});
      failing := CountHealth({M.Failing, M.Unreachable});
      HealthCountsAddUp(nodes);
    }

    method BlastRadiusMap() returns (radii: map<string, nat>)
      ensures radii.Keys == nodes.Keys && AreRadii(nodes, radii)
    {
      radii := map[];
      var rest := nodes.Keys;
      while rest != {}
        invariant rest == nodes.Keys - radii.Keys && radii.Keys <= nodes.Keys
        invariant AreRadii(nodes, radii)
        decreases rest
      {
        var id :| id in rest;
        var radius := ComputeBlastRadius(id);
        radii := radii[id := radius];
        rest := rest - {id};
      }
      forall id | id in nodes
        ensures id in radii.Keys
      {
        assert id !in rest;
      }
      assert radii.Keys == nodes.Keys;
    }

    /** Every field of an analysis says what it is meant to say about the agents, breakers and events there are. */
    ghost predicate Describes(analysis: CascadeAnalysis)
      reads this
    {
      && analysis.totalAgents == |nodes|
      && analysis.healthyAgents == |set id | id in nodes && nodes[id].healthStatus == M.Healthy|
      && analysis.degradedAgents == |set id | id in nodes && nodes[id].healthStatus == M.Degraded|
      && analysis.failingAgents ==
         |set id | id in nodes && (nodes[id].healthStatus == M.Failing || nodes[id].healthStatus == M.Unreachable)|
      && analysis.healthyAgents + analysis.degradedAgents + analysis.failingAgents == analysis.totalAgents
      && analysis.openCircuitBreakers == |set k | k in links && links[k].currentState == Open|
      && analysis.blastRadiusMap.Keys == nodes.Keys && AreRadii(nodes, analysis.blastRadiusMap)
      && analysis.cascadeRisk == AssessCascadeRisk(analysis.failingAgents, analysis.degradedAgents,
                                                   analysis.totalAgents, analysis.openCircuitBreakers)
      && analysis.events == events
    }

    /** Reads and counts everything; the invariant of the graph is not needed. */
    method Survey(now: int) returns (analysis: CascadeAnalysis)
      requires Linked()
      modifies this`links, breakers.Values
      ensures Linked() && View() == M.PollKeys(old(View()), breakers.Keys, now) && Describes(analysis)
    {
      var healthy, degraded, failing := CountAgents();
      var radii := BlastRadiusMap();
      var open := CountOpenBreakers(now);
      var risk := AssessCascadeRisk(failing, degraded, |nodes|, open);
      analysis := CascadeAnalysis(|nodes|, healthy, degraded, failing, open, risk, radii, events);
      CountedSets(nodes, links);
    }

    /** The three health counts add up to the number of agents, blast radii are below it, and only breakers whose time is
        up change. */
    method Analyze(now: int) returns (analysis: CascadeAnalysis)
      requires Valid()
      modifies this`links, breakers.Values
      ensures Valid() && View() == M.Step(config, old(View()), M.OpAnalyze(now))
      ensures Describes(analysis) && Bounded(analysis.blastRadiusMap, |nodes|)
    {
      M.StepKeepsInvariant(config, View(), M.OpAnalyze(now));
      analysis := Survey(now);
      RadiiAreBounded(nodes, analysis.blastRadiusMap);
    }
  }
}
