/**
  The identity registry. Revoking an identity revokes everything delegated from it, directly or not, even when
  the parent links form a cycle.
 */
module IdentityRegistry {
  import opened Wrappers
  import opened Identity
  import opened Reachability

  /** What the registry knows of one identity, as a value. */
  datatype Entry = Entry(parentDid: Option<string>, status: IdentityStatus)

  type Registry = map<string, Entry>

  /** Each identity with the parent it names, if that is registered. */
  function ParentGraph(reg: Registry): Graph {
    map d | d in reg :: if reg[d].parentDid.Some? && reg[d].parentDid.value in reg then {reg[d].parentDid.value} else {}
  }

  function ChildGraph(reg: Registry): Graph {
    map d | d in reg :: set c | c in reg && reg[c].parentDid == Some(d)
  }

  /** The chain of registered parents of `d` passes through `did`. */
  ghost predicate DelegatedFrom(reg: Registry, d: string, did: string) {
    Reaches(ParentGraph(reg), d, did)
  }

  lemma ChildGraphIsReversed(reg: Registry)
    ensures Reversed(ChildGraph(reg), ParentGraph(reg)) && Reversed(ParentGraph(reg), ChildGraph(reg))
  {
    var g, h := ChildGraph(reg), ParentGraph(reg);
    forall a, b
      ensures b in Succ(g, a) <==> a in Succ(h, b)
    {
    }
  }

  /** The identities found by walking down from `did` are those delegated from it. */
  lemma DescendantsAreDelegated(reg: Registry, did: string, d: string)
    ensures d in ReachSet(ChildGraph(reg), did) <==> DelegatedFrom(reg, d, did)
  {
    InReachSet(ChildGraph(reg), did, d);
    ChildGraphIsReversed(reg);
    if Reaches(ChildGraph(reg), did, d) {
      ReversedReach(ChildGraph(reg), ParentGraph(reg), did, d);
    }
    if DelegatedFrom(reg, d, did) {
      ReversedReach(ParentGraph(reg), ChildGraph(reg), d, did);
    }
  }

  // ---------- operations on values, and runs ----------

  function SetStatus(reg: Registry, dids: set<string>, status: IdentityStatus): Registry {
    map d | d in reg :: if d in dids then reg[d].(status := status) else reg[d]
  }

  lemma SetStatusKeepsGraph(reg: Registry, dids: set<string>, status: IdentityStatus)
    ensures ChildGraph(SetStatus(reg, dids, status)) == ChildGraph(reg)
  {
    var t := SetStatus(reg, dids, status);
    assert t.Keys == reg.Keys;
    forall d | d in reg
      ensures ChildGraph(t)[d] == ChildGraph(reg)[d]
    {
      assert forall c | c in reg :: t[c].parentDid == reg[c].parentDid;
    }
  }

  /** Changes made in two rounds, to the identities newly visited in each, are one change. */
  lemma SetStatusInRounds(reg: Registry, before: set<string>, mid: set<string>, after: set<string>, status: IdentityStatus)
    requires before <= mid <= after
    ensures SetStatus(SetStatus(reg, mid - before, status), after - mid, status) == SetStatus(reg, after - before, status)
  {
  }

  ghost function RevokeDelegated(reg: Registry, did: string): Registry {
    if did !in reg then reg
    else map d | d in reg :: if DelegatedFrom(reg, d, did) then reg[d].(status := Revoked) else reg[d]
  }

  /** What is done to the registry, or to a registered identity by itself: the last three. */
  datatype Op =
    | OpRegister(did: string, entry: Entry)
    | OpRevoke(did: string)
    | OpRevokeAlone(did: string)
    | OpSuspend(did: string)
    | OpReactivate(did: string)

  ghost function Step(reg: Registry, op: Op): Registry {
    match op
    case OpRegister(did, entry) => if did in reg then reg else reg[did := entry]
    case OpRevoke(did) => RevokeDelegated(reg, did)
    case OpRevokeAlone(did) => if did in reg then reg[did := reg[did].(status := Revoked)] else reg
    case OpSuspend(did) =>
      if did in reg && reg[did].status != Revoked then reg[did := reg[did].(status := Suspended)] else reg
    case OpReactivate(did) =>
      if did in reg && reg[did].status != Revoked then reg[did := reg[did].(status := Active)] else reg
  }

  ghost function Run(reg: Registry, ops: seq<Op>): Registry
    decreases |ops|
  {
    if ops == [] then reg else Run(Step(reg, ops[0]), ops[1..])
  }

  /** Revoked is for ever. */
  lemma {:induction false} RevokedStaysRevoked(reg: Registry, ops: seq<Op>, d: string)
    requires d in reg && reg[d].status == Revoked
    ensures d in Run(reg, ops) && Run(reg, ops)[d].status == Revoked
    decreases |ops|
  {
    if ops == [] {
    } else {
      RevokedStaysRevoked(Step(reg, ops[0]), ops[1..], d);
    }
  }

  /** After a revocation, whatever follows, all identities then delegated from the revoked one stay revoked. */
  lemma RevocationIsFinal(reg: Registry, did: string, ops: seq<Op>, d: string)
    requires did in reg && d in reg && DelegatedFrom(reg, d, did)
    ensures d in Run(reg, [OpRevoke(did)] + ops) && Run(reg, [OpRevoke(did)] + ops)[d].status == Revoked
  {
    assert ([OpRevoke(did)] + ops)[1..] == ops;
    RevokedStaysRevoked(Step(reg, OpRevoke(did)), ops, d);
  }

  /** Each did in the list names the next as its parent, and all are registered. */
  ghost predicate ParentChain(reg: Registry, p: seq<string>) {
    forall i | 0 <= i < |p| :: p[i] in reg && (i + 1 < |p| ==> reg[p[i]].parentDid == Some(p[i + 1]))
  }

  /** The registry's revocation revokes whoever a chain of parents leads from to the revoked one, and nobody else. */
  lemma RevokesExactly(reg: Registry, did: string, d: string)
    requires did in reg && d in reg
    ensures d in Step(reg, OpRevoke(did)) && Step(reg, OpRevoke(did)).Keys == reg.Keys
    ensures Step(reg, OpRevoke(did))[d] ==
            if exists p: seq<string> :: p != [] && p[0] == d && p[|p| - 1] == did && ParentChain(reg, p)
            then reg[d].(status := Revoked) else reg[d]
  {
    var g := ParentGraph(reg);
    if DelegatedFrom(reg, d, did) {
      var p: seq<string> :| PathFromTo(g, p, d, did);
      assert IsPath(g, p);
      forall i | 0 <= i < |p|
        ensures p[i] in reg && (i + 1 < |p| ==> reg[p[i]].parentDid == Some(p[i + 1]))
      {
        assert i + 1 < |p| ==> p[i + 1] in Succ(g, p[i]);
      }
      assert ParentChain(reg, p);
    }
    if p: seq<string> :| p != [] && p[0] == d && p[|p| - 1] == did && ParentChain(reg, p) {
      assert PathFromTo(g, p, d, did);
    }
  }

  // ---------- delegates of revoked identities ----------

  /** The identity is revoked if its registered parent is. */
  predicate FollowsParent(reg: Registry, d: string)
    requires d in reg
  {
    var parent := reg[d].parentDid;
    parent.Some? && parent.value in reg && reg[parent.value].status == Revoked ==> reg[d].status == Revoked
  }

  /** No identity is live whose registered parent is revoked. */
  predicate NoLiveHeir(reg: Registry) {
    forall d | d in reg :: FollowsParent(reg, d)
  }

  /** So none is live that is delegated from a revoked one over any number of links. */
  lemma NoLiveDescendant(reg: Registry, d: string, a: string)
    requires NoLiveHeir(reg) && d in reg && a in reg && DelegatedFrom(reg, d, a) && reg[a].status == Revoked
    ensures reg[d].status == Revoked
  {
    var g := ParentGraph(reg);
    var live := set x | x in reg && reg[x].status != Revoked;
    var p: seq<string> :| PathFromTo(g, p, d, a);
    forall x, y | x in live && y in Succ(g, x)
      ensures y in live
    {
      assert FollowsParent(reg, x);
    }
    if d in live {
      PathStaysInside(g, live, p);
    }
  }

  /** The new identity is not live under a revoked parent, nor revoked above a live one. */
  predicate RegisterFits(reg: Registry, did: string, entry: Entry) {
    did in reg ||
    (&& (entry.parentDid.Some? && entry.parentDid.value in reg && reg[entry.parentDid.value].status == Revoked
         ==> entry.status == Revoked)
     && (entry.status == Revoked ==> forall c | c in reg && reg[c].parentDid == Some(did) :: reg[c].status == Revoked))
  }

  lemma RegisterKeepsIff(reg: Registry, did: string, entry: Entry)
    requires NoLiveHeir(reg)
    ensures NoLiveHeir(Step(reg, OpRegister(did, entry))) <==> RegisterFits(reg, did, entry)
  {
    if did !in reg {
      var t := reg[did := entry];
      assert t == Step(reg, OpRegister(did, entry));
      forall d | d in reg
        ensures FollowsParent(t, d)
           <==> (reg[d].parentDid == Some(did) && entry.status == Revoked ==> reg[d].status == Revoked)
      {
        assert FollowsParent(reg, d) && t[d] == reg[d];
      }
      assert NoLiveHeir(t) <==> FollowsParent(t, did) && forall d | d in reg :: FollowsParent(t, d);
    }
  }

  /** No live identity names this one as its parent. */
  predicate RevokeAloneFits(reg: Registry, did: string) {
    did in reg ==> forall c | c in reg && c != did && reg[c].parentDid == Some(did) :: reg[c].status == Revoked
  }

  lemma RevokeAloneKeepsIff(reg: Registry, did: string)
    requires NoLiveHeir(reg)
    ensures NoLiveHeir(Step(reg, OpRevokeAlone(did))) <==> RevokeAloneFits(reg, did)
  {
    if did in reg {
      var t := reg[did := reg[did].(status := Revoked)];
      assert t == Step(reg, OpRevokeAlone(did));
      forall d | d in reg && d != did
        ensures FollowsParent(t, d) <==> (reg[d].parentDid == Some(did) ==> reg[d].status == Revoked)
      {
        assert FollowsParent(reg, d) && t[d] == reg[d];
      }
      assert NoLiveHeir(t) <==> forall d | d in reg && d != did :: FollowsParent(t, d);
    }
  }

  lemma RevokeKeeps(reg: Registry, did: string)
    requires NoLiveHeir(reg)
    ensures NoLiveHeir(RevokeDelegated(reg, did))
  {
    var t := RevokeDelegated(reg, did);
    forall d | d in t
      ensures FollowsParent(t, d)
    {
      assert FollowsParent(reg, d);
      var parent := t[d].parentDid;
      if did in reg && parent.Some? && parent.value in reg && DelegatedFrom(reg, parent.value, did) {
        assert parent.value in Succ(ParentGraph(reg), d);
        ReachesCons(ParentGraph(reg), d, parent.value, did);
      }
    }
  }

  /** What an operation must meet not to leave a live identity under a revoked one. */
  predicate StepFits(reg: Registry, op: Op) {
    match op
    case OpRegister(did, entry) => RegisterFits(reg, did, entry)
    case OpRevokeAlone(did) => RevokeAloneFits(reg, did)
    case _ => true
  }

  /** Only a registration and an identity's own revocation can leave a live identity under a revoked one, and exactly
      when they do not fit. */
  lemma StepKeepsNoLiveHeirIff(reg: Registry, op: Op)
    requires NoLiveHeir(reg)
    ensures NoLiveHeir(Step(reg, op)) <==> StepFits(reg, op)
  {
    match op
    case OpRegister(did, entry) => RegisterKeepsIff(reg, did, entry);
    case OpRevoke(did) => RevokeKeeps(reg, did);
    case OpRevokeAlone(did) => RevokeAloneKeepsIff(reg, did);
    case OpSuspend(did) => LiveChangeKeeps(reg, did, Suspended);
    case OpReactivate(did) => LiveChangeKeeps(reg, did, Active);
  }

  lemma LiveChangeKeeps(reg: Registry, did: string, status: IdentityStatus)
    requires NoLiveHeir(reg) && status != Revoked
    ensures did in reg && reg[did].status != Revoked ==> NoLiveHeir(reg[did := reg[did].(status := status)])
  {
    if did in reg && reg[did].status != Revoked {
      var t := reg[did := reg[did].(status := status)];
      forall d | d in t
        ensures FollowsParent(t, d)
      {
        assert FollowsParent(reg, d);
      }
    }
  }

  ghost predicate RunFits(reg: Registry, ops: seq<Op>)
    decreases |ops|
  {
    ops == [] || (StepFits(reg, ops[0]) && RunFits(Step(reg, ops[0]), ops[1..]))
  }

  /** Over every run whose operations fit, no identity delegated from a revoked one is live. */
  lemma {:induction false} RunKeepsNoLiveHeir(reg: Registry, ops: seq<Op>)
    requires NoLiveHeir(reg) && RunFits(reg, ops)
    ensures NoLiveHeir(Run(reg, ops))
    decreases |ops|
  {
    if ops == [] {
    } else {
      StepKeepsNoLiveHeirIff(reg, ops[0]);
      RunKeepsNoLiveHeir(Step(reg, ops[0]), ops[1..]);
    }
  }

  function LateOps(p: string, c: string): seq<Op> {
    [OpRegister(p, Entry(None, Active)), OpRevoke(p), OpRegister(c, Entry(Some(p), Active))]
  }

  lemma RunThree(reg: Registry, a: Op, b: Op, c: Op)
    ensures Run(reg, [a, b, c]) == Step(Step(Step(reg, a), b), c)
  {
    var ops := [a, b, c];
    assert ops[1..] == [b, c] && [b, c][1..] == [c] && [c][1..] == [];
    var reg' := Step(reg, a);
    assert Run(reg', [b, c]) == Run(Step(reg', b), [c]);
    assert Run(Step(reg', b), [c]) == Run(Step(Step(reg', b), c), []);
  }

  lemma DirectDelegate(reg: Registry, p: string, c: string)
    requires p in reg && c in reg && reg[c].parentDid == Some(p)
    ensures DelegatedFrom(reg, c, p)
  {
    assert p in Succ(ParentGraph(reg), c);
    ReachesSelf(ParentGraph(reg), p);
    ReachesCons(ParentGraph(reg), c, p, p);
  }

  /** Registration does not look at the parent: a delegate registered after its parent was revoked is live. */
  lemma LateDelegateIsLive(p: string, c: string)
    requires p != c
    ensures var reg := Run(map[], LateOps(p, c));
            && reg.Keys == {p, c} && DelegatedFrom(reg, c, p)
            && reg[p].status == Revoked && reg[c].status == Active
  {
    var r1: Registry := map[p := Entry(None, Active)];
    var r2: Registry := map[p := Entry(None, Revoked)];
    var r3 := r2[c := Entry(Some(p), Active)];
    var ops := LateOps(p, c);
    ReachesSelf(ParentGraph(r1), p);
    assert Step(map[], ops[0]) == r1;
    assert Step(r1, ops[1]) == r2;
    assert Step(r2, ops[2]) == r3;
    RunThree(map[], ops[0], ops[1], ops[2]);
    DirectDelegate(r3, p, c);
  }

  function OwnOps(p: string, c: string): seq<Op> {
    [OpRegister(p, Entry(None, Active)), OpRegister(c, Entry(Some(p), Active)), OpRevokeAlone(p)]
  }

  /** An identity's own revocation does not reach its delegates: one registered before it stays live. */
  lemma OwnRevocationLeavesDelegate(p: string, c: string)
    requires p != c
    ensures var before := Run(map[], OwnOps(p, c)[..2]);
            var reg := Run(map[], OwnOps(p, c));
            && NoLiveHeir(before) && !RevokeAloneFits(before, p)
            && reg.Keys == {p, c} && DelegatedFrom(reg, c, p)
            && reg[p].status == Revoked && reg[c].status == Active
  {
    var r1: Registry := map[p := Entry(None, Active)];
    var r2 := r1[c := Entry(Some(p), Active)];
    var r3 := r2[p := Entry(None, Revoked)];
    var ops := OwnOps(p, c);
    assert Step(map[], ops[0]) == r1;
    assert Step(r1, ops[1]) == r2;
    assert Step(r2, ops[2]) == r3;
    RunThree(map[], ops[0], ops[1], ops[2]);
    var two := ops[..2];
    assert two == [ops[0], ops[1]] && two[1..] == [ops[1]] && [ops[1]][1..] == [];
    assert Run(map[], two) == Run(r1, [ops[1]]);
    assert Run(r1, [ops[1]]) == Run(r2, []);
    assert r2[c].parentDid == Some(p) && r2[c].status == Active;
    DirectDelegate(r3, p, c);
  }

  // ---------- the registry object ----------

  /** The dids registered for a sponsor, in registration order; an empty sponsor is not indexed. */
  function DidsOf(log: seq<AgentIdentity>, sponsor: string): seq<string> {
    if log == [] || sponsor == "" then []
    else
      var last := log[|log| - 1];
      DidsOf(log[..|log| - 1], sponsor) + if last.sponsor == sponsor then [last.did] else []
  }

  /** These are the places of the log at which the sponsor's identities were registered, all of them, in order. */
  ghost predicate PlacesOf(log: seq<AgentIdentity>, sponsor: string, places: seq<nat>) {
    && (forall i | 0 <= i < |places| :: places[i] < |log| && log[places[i]].sponsor == sponsor)
    && (forall i, j | 0 <= i < j < |places| :: places[i] < places[j])
    && forall k | 0 <= k < |log| && log[k].sponsor == sponsor :: k in places
  }

  lemma PlacesNext(log: seq<AgentIdentity>, sponsor: string, places: seq<nat>)
    requires log != [] && PlacesOf(log[..|log| - 1], sponsor, places)
    ensures PlacesOf(log, sponsor, if log[|log| - 1].sponsor == sponsor then places + [|log| - 1] else places)
  {
    var n := |log| - 1;
    var next := if log[n].sponsor == sponsor then places + [n] else places;
    forall k | 0 <= k < |log| && log[k].sponsor == sponsor
      ensures k in next
    {
      assert k < n ==> log[..n][k].sponsor == sponsor;
    }
  }

  function DidsAt(log: seq<AgentIdentity>, places: seq<nat>): seq<string>
    requires forall i | 0 <= i < |places| :: places[i] < |log|
  {
    seq(|places|, i requires 0 <= i < |places| => log[places[i]].did)
  }

  lemma DidsAtNext(log: seq<AgentIdentity>, places: seq<nat>)
    requires log != [] && forall i | 0 <= i < |places| :: places[i] < |log| - 1
    ensures DidsAt(log, places) == DidsAt(log[..|log| - 1], places)
    ensures DidsAt(log, places + [|log| - 1]) == DidsAt(log[..|log| - 1], places) + [log[|log| - 1].did]
  {
  }

  /** The index lists exactly the sponsor's registrations, in the order in which they were made. */
  lemma {:induction false} DidsInOrder(log: seq<AgentIdentity>, sponsor: string) returns (places: seq<nat>)
    requires sponsor != ""
    ensures PlacesOf(log, sponsor, places)
    ensures DidsOf(log, sponsor) == DidsAt(log, places)
  {
    if log == [] {
      places := [];
    } else {
      var before := DidsInOrder(log[..|log| - 1], sponsor);
      PlacesNext(log, sponsor, before);
      DidsAtNext(log, before);
      places := if log[|log| - 1].sponsor == sponsor then before + [|log| - 1] else before;
    }
  }

  function Lookup(index: map<string, seq<string>>, sponsor: string): seq<string> {
    if sponsor in index then index[sponsor] else []
  }

  /** The index holds, for every sponsor, what the registration log says. */
  ghost predicate Indexes(index: map<string, seq<string>>, log: seq<AgentIdentity>) {
    forall s :: Lookup(index, s) == DidsOf(log, s)
  }

  lemma IndexesNext(index: map<string, seq<string>>, log: seq<AgentIdentity>, identity: AgentIdentity)
    requires Indexes(index, log)
    ensures var s := identity.sponsor;
            Indexes(if s != "" then index[s := Lookup(index, s) + [identity.did]] else index, log + [identity])
  {
    var s := identity.sponsor;
    var index' := if s != "" then index[s := Lookup(index, s) + [identity.did]] else index;
    assert (log + [identity])[..|log|] == log;
    forall t
      ensures Lookup(index', t) == DidsOf(log + [identity], t)
    {
      assert Lookup(index, t) == DidsOf(log, t);
      assert t != "" ==> DidsOf(log + [identity], t) == DidsOf(log, t) + if s == t then [identity.did] else [];
    }
  }

  class IdentityRegistry {
    var identities: map<string, AgentIdentity>
    var bySponsor: map<string, seq<string>>

    /** The identities in the order they were registered. */
    ghost var log: seq<AgentIdentity>

    ghost function View(): Registry
      reads this, identities.Values
    {
      map d | d in identities :: Entry(identities[d].parentDid, identities[d].status)
    }

    ghost predicate Valid()
      reads this
    {
      && (forall d | d in identities :: identities[d].did == d)
      && (forall i | 0 <= i < |log| :: log[i].did in identities && identities[log[i].did] == log[i])
      && Indexes(bySponsor, log)
    }

    constructor ()
      ensures Valid() && View() == map[] && log == []
    {
      identities := map[];
      bySponsor := map[];
      log := [];
    }

    /** `false` stands for the thrown error. */
    method Register(identity: AgentIdentity) returns (ok: bool)
      requires Valid()
      modifies this
      ensures Valid() && ok == (identity.did !in old(identities))
      ensures identities == if ok then old(identities)[identity.did := identity] else old(identities)
      ensures View() == Step(old(View()), OpRegister(identity.did, Entry(identity.parentDid, identity.status)))
      ensures log == if ok then old(log) + [identity] else old(log)
    {
      if identity.did in identities {
        return false;
      }
      IndexesNext(bySponsor, log, identity);
      identities := identities[identity.did := identity];
      if identity.sponsor != "" {
        var existing := Lookup(bySponsor, identity.sponsor);
        bySponsor := bySponsor[identity.sponsor := existing + [identity.did]];
      }
      log := log + [identity];
      ok := true;
    }

    /** The identities of a sponsor, in registration order. */
    method GetBySponsor(sponsor: string) returns (found: seq<AgentIdentity>)
      requires Valid()
      ensures |found| == |DidsOf(log, sponsor)|
      ensures forall i | 0 <= i < |found| ::
                found[i].did == DidsOf(log, sponsor)[i] && found[i] in log && found[i].sponsor == sponsor
    {
      var dids := Lookup(bySponsor, sponsor);
      assert dids == DidsOf(log, sponsor);
      found := [];
      for i := 0 to |dids|
        invariant |found| == i
        invariant forall j | 0 <= j < i ::
                    found[j].did == dids[j] && found[j] in log && found[j].sponsor == sponsor
      {
        DidsOfRegistered(log, sponsor, i);
        if dids[i] in identities {
          found := found + [identities[dids[i]]];
        }
      }
    }

    /** Revokes exactly the registered identities delegated from `did`, itself included; false if it is unknown. */
    method Revoke(did: string, reason: string) returns (ok: bool)
      requires Valid()
      modifies identities.Values
      ensures Valid() && ok == (did in identities)
      ensures View() == Step(old(View()), OpRevoke(did))
    {
      ghost var before := View();
      var visited;
      ok, visited := RevokeRecursive(did, reason, {});
      if ok {
        VisitFromScratch(ChildGraph(before), did, visited);
        forall d | d in before
          ensures d in visited <==> DelegatedFrom(before, d, did)
        {
          DescendantsAreDelegated(before, did, d);
        }
      }
      assert View() == RevokeDelegated(before, did);
    }

    method RevokeRecursive(did: string, reason: string, visited: set<string>) returns (ok: bool, visited': set<string>)
      requires Valid()
      modifies identities.Values
      ensures ok == (did !in visited && did in identities)
      ensures !ok ==> visited' == visited + {did} && View() == old(View())
      ensures Visits(ChildGraph(old(View())), did, visited, visited')
      ensures View() == SetStatus(old(View()), visited' - visited, Revoked)
      decreases identities.Keys - visited
    {
      ghost var before := View();
      ghost var g := ChildGraph(before);
      VisitStart(g, did, visited);
      if did in visited {
        assert View() == SetStatus(before, {}, Revoked);
        return false, visited;
      }
      visited' := visited + {did};
      if did !in identities {
        return false, visited';
      }
      identities[did].Revoke();
      assert View() == SetStatus(before, {did}, Revoked);
      var rest := identities.Keys;
      ghost var done: set<string> := {};
      while rest != {}
        invariant rest <= identities.Keys
        invariant VisitsSome(g, did, done, visited, visited')
        invariant forall c | c in Succ(g, did) :: c in done || c in rest
        invariant View() == SetStatus(before, visited' - visited, Revoked)
        decreases rest
      {
        var childDid :| childDid in rest;
        rest := rest - {childDid};
        if identities[childDid].parentDid == Some(did) {
          ghost var mid := visited';
          SetStatusKeepsGraph(before, mid - visited, Revoked);
          var revoked;
          revoked, visited' := RevokeRecursive(childDid, "Parent revoked: " + reason, visited');
          VisitNext(g, did, done, childDid, visited, mid, visited');
          SetStatusInRounds(before, visited, mid, visited', Revoked);
          done := done + {childDid};
        }
      }
      ok := true;
    }
  }

  lemma {:induction false} DidsOfRegistered(log: seq<AgentIdentity>, sponsor: string, i: nat)
    requires i < |DidsOf(log, sponsor)|
    ensures exists k | 0 <= k < |log| :: log[k].did == DidsOf(log, sponsor)[i] && log[k].sponsor == sponsor
  {
    var rest := log[..|log| - 1];
    if i < |DidsOf(rest, sponsor)| {
      DidsOfRegistered(rest, sponsor, i);
      var k :| 0 <= k < |rest| && rest[k].did == DidsOf(rest, sponsor)[i] && rest[k].sponsor == sponsor;
      assert log[k] == rest[k];
    } else {
      assert log[|log| - 1].sponsor == sponsor;
    }
  }
}
