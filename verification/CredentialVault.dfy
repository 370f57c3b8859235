/**
  The credential vault and the injector that renders payloads from it.
 */
module CredentialVault {
  import opened Wrappers
  import opened CredentialModel
  import Placeholders

  datatype VaultError = BadName | UnknownCredential(name: string) | NoAgent

  datatype Profile = Profile(agentDid: string, bindings: map<string, string>)

  function NewProfile(agentDid: string, bindings: map<string, string>): (r: Result<Profile, VaultError>)
    ensures r.Ok? <==> agentDid != ""
    ensures r.Ok? ==> r.value.agentDid == agentDid && r.value.bindings == bindings
  {
    if agentDid == "" then Err(NoAgent) else Ok(Profile(agentDid, bindings))
  }

  class CredentialVault {
    var records: Records
    var profiles: Bindings
    var audit: seq<Event>

    /** Each record is filed under its own name, which a placeholder can spell; it is at version 1 exactly until it is
        overwritten. */
    ghost predicate Valid()
      reads this
    {
      forall n | n in records ::
        && records[n].name == n
        && Placeholders.IsName(n)
        && records[n].version >= 1
        && (records[n].rotatedAt == None <==> records[n].version == 1)
    }

    constructor ()
      ensures Valid() && records == map[] && profiles == map[] && audit == []
    {
      records, profiles, audit := map[], map[], [];
    }

    method Put(name: string, value: string, credType: string, now: int) returns (r: Result<string, VaultError>)
      requires Valid()
      modifies this`records
      ensures Valid()
      ensures r == if Placeholders.IsName(name) then Ok(name) else Err(BadName)
      ensures r.Err? ==> records == old(records)
      ensures r.Ok? ==> name in records && records - {name} == old(records) - {name}
      ensures r.Ok? && name !in old(records) ==> records[name] == Record(name, value, credType, 1, now, None)
      ensures r.Ok? && name in old(records) ==>
                records[name] == Record(name, value, credType, old(records)[name].version + 1,
                                        old(records)[name].createdAt, Some(now))
    {
      if !Placeholders.IsName(name) {
        return Err(BadName);
      }
      var record := Record(
        name, value, credType,
        if name in records then records[name].version + 1 else 1,
        if name in records then records[name].createdAt else now,
        if name in records then Some(now) else None);
      records := records[name := record];
      r := Ok(name);
    }

    method Rotate(name: string, newValue: string, now: int) returns (r: Result<string, VaultError>)
      requires Valid()
      modifies this`records
      ensures Valid()
      ensures r == if name in old(records) then Ok(name) else Err(UnknownCredential(name))
      ensures r.Err? ==> records == old(records)
      ensures r.Ok? ==>
                var was := old(records)[name];
                records == old(records)[name := was.(value := newValue, version := was.version + 1,
                                                     rotatedAt := Some(now))]
    {
      if name !in records {
        return Err(UnknownCredential(name));
      }
      var was := records[name];
      records := records[name := was.(value := newValue, version := was.version + 1, rotatedAt := Some(now))];
      r := Ok(name);
    }

    method Delete(name: string) returns (present: bool)
      requires Valid()
      modifies this`records
      ensures Valid()
      ensures present == (name in old(records)) && records == old(records) - {name}
    {
      present := name in records;
      records := records - {name};
    }

    /** Builds a profile and registers it in place of the agent's former one; an agent without a did has none. */
    method RegisterProfile(agentDid: string, bindings: map<string, string>) returns (r: Result<Profile, VaultError>)
      requires Valid()
      modifies this`profiles
      ensures Valid() && (r.Err? <==> agentDid == "")
      ensures profiles == if agentDid == "" then old(profiles) else old(profiles)[agentDid := bindings]
    {
      r := NewProfile(agentDid, bindings);
      if r.Ok? {
        profiles := profiles[r.value.agentDid := r.value.bindings];
      }
    }

    method RevokeProfile(agentDid: string) returns (present: bool)
      requires Valid()
      modifies this`profiles
      ensures Valid() && present == (agentDid in old(profiles)) && profiles == old(profiles) - {agentDid}
      ensures forall actionClass :: Binding(profiles, agentDid, actionClass) == None
    {
      present := agentDid in profiles;
      profiles := profiles - {agentDid};
    }

    predicate HasAccess(agentDid: string, handle: string, actionClass: string)
      reads this
      ensures HasAccess(agentDid, handle, actionClass) ==> handle in records
    {
      if agentDid !in profiles then false
      else
        var bindings := profiles[agentDid];
        actionClass in bindings && bindings[actionClass] == handle && handle in records
    }

    /** Reads one value, if the request may, and records the attempt either way. */
    method ResolveInternal(request: Request, handle: string, now: int) returns (value: Option<string>, event: Event)
      requires Valid()
      modifies this`audit
      ensures Valid()
      ensures value == if request.Access(records, profiles, handle) then Some(records[handle].value) else None
      ensures event == request.Report(handle, if value.Some? then Allow else Deny, now)
      ensures audit == old(audit) + [event]
    {
      if HasAccess(request.agentDid, handle, request.options.actionClass) {
        value, event := Some(records[handle].value), request.Report(handle, Allow, now);
      } else {
        value, event := None, request.Report(handle, Deny, now);
      }
      audit := audit + [event];
    }

    method RecordReject(event: Event)
      requires Valid()
      modifies this`audit
      ensures Valid() && audit == old(audit) + [event]
    {
      audit := audit + [event];
    }
  }

  // ---------- the resolving loop ----------

  /** Of `names`, the first `i` are resolved: what is left to resolve completes the events. */
  ghost predicate ResolvedTo(
    names: seq<string>, i: nat, request: Request, records: Records, profiles: Bindings, now: int,
    events: seq<Event>, resolved: map<string, string>)
  {
    && i <= |names|
    && events + Resolution(names[i..], request, records, profiles, now)
       == Resolution(names, request, records, profiles, now)
    && (forall n | n in names[..i] :: request.Access(records, profiles, n))
    && resolved == Values(names[..i], records)
  }

  lemma ResolveStep(
    names: seq<string>, i: nat, request: Request, records: Records, profiles: Bindings, now: int,
    events: seq<Event>, resolved: map<string, string>)
    requires ResolvedTo(names, i, request, records, profiles, now, events, resolved) && i < |names|
    ensures request.Access(records, profiles, names[i]) ==>
              ResolvedTo(names, i + 1, request, records, profiles, now, events + [request.Report(names[i], Allow, now)],
                         resolved[names[i] := records[names[i]].value])
    ensures !request.Access(records, profiles, names[i]) ==>
              events + [request.Report(names[i], Deny, now)] == Resolution(names, request, records, profiles, now)
  {
    assert names[i..][1..] == names[i + 1..];
    assert names[..i + 1] == names[..i] + [names[i]];
    if request.Access(records, profiles, names[i]) {
      var event := request.Report(names[i], Allow, now);
      Placeholders.AppendAssoc(events, [event], Resolution(names[i + 1..], request, records, profiles, now));
    }
  }

  class CredentialInjector {
    const vault: CredentialVault

    constructor (vault: CredentialVault)
      ensures this.vault == vault
    {
      this.vault := vault;
    }

    /** The part of a call before it waits for the policy: only a name that is not on the list ends it here. */
    method Begin(request: Request, now: int) returns (refused: Option<InjectionResult>)
      requires vault.Valid()
      modifies vault`audit
      ensures vault.Valid()
      ensures refused.None? <==> forall n | n in request.Requested() :: request.Listed(n)
      ensures refused.Some? ==> refused.value == Outcome(request, vault.records, vault.profiles, now)
      ensures refused.Some? ==> vault.audit == old(vault.audit) + refused.value.auditEvents
      ensures refused.None? ==> vault.audit == old(vault.audit)
    {
      var requested := Placeholders.CollectPlaceholders(request.payload);
      var outside := Outside(requested, request);
      OutsideIsEmpty(requested, request);
      if outside == [] {
        return None;
      }
      var event := request.Report(outside[0], Deny, now);
      vault.RecordReject(event);
      refused := Some(Denied(request, [event]));
    }

    /** The part after the wait. It answers by the vault as it is then, whatever happened to it meanwhile. */
    method Complete(request: Request, now: int) returns (result: InjectionResult)
      requires vault.Valid() && forall n | n in request.Requested() :: request.Listed(n)
      modifies vault`audit
      ensures vault.Valid()
      ensures result == Outcome(request, vault.records, vault.profiles, now)
      ensures vault.audit == old(vault.audit) + result.auditEvents
    {
      var requested := Placeholders.CollectPlaceholders(request.payload);
      OutsideIsEmpty(requested, request);
      if !request.PolicyAllows() {
        var event := request.Report(if requested == [] then "" else requested[0], Deny, now);
        vault.RecordReject(event);
        return Denied(request, [event]);
      }
      var resolved, events := ResolveAll(request, requested, now);
      if resolved == None {
        return Denied(request, events);
      }
      result := InjectionResult(true, Rendered(Placeholders.Substitute(request.payload, resolved.value)), None, events);
    }

    /** A call that nothing interrupts. It answers as `Outcome` says and leaves credentials and profiles alone; the
        audit log gains exactly the events the answer reports. */
    method Inject(request: Request, now: int) returns (result: InjectionResult)
      requires vault.Valid()
      modifies vault`audit
      ensures vault.Valid()
      ensures result == Outcome(request, vault.records, vault.profiles, now)
      ensures vault.audit == old(vault.audit) + result.auditEvents
    {
      var refused := Begin(request, now);
      if refused.Some? {
        return refused.value;
      }
      result := Complete(request, now);
    }

    /** Resolves handle after handle; a single refusal ends it. */
    method ResolveAll(request: Request, requested: seq<string>, now: int)
      returns (resolved: Option<map<string, string>>, events: seq<Event>)
      requires vault.Valid()
      modifies vault`audit
      ensures vault.Valid()
      ensures events == Resolution(requested, request, vault.records, vault.profiles, now)
      ensures resolved.Some? <==> forall n | n in requested :: request.Access(vault.records, vault.profiles, n)
      ensures resolved.Some? ==> resolved.value == Values(requested, vault.records)
      ensures vault.audit == old(vault.audit) + events
    {
      var values: map<string, string> := map[];
      events := [];
      assert requested[0..] == requested;
      for i := 0 to |requested|
        invariant ResolvedTo(requested, i, request, vault.records, vault.profiles, now, events, values)
        invariant vault.Valid() && vault.audit == old(vault.audit) + events
      {
        ResolveStep(requested, i, request, vault.records, vault.profiles, now, events, values);
        var value, event := vault.ResolveInternal(request, requested[i], now);
        events := events + [event];
        if value == None {
          return None, events;
        }
        values := values[requested[i] := value.value];
      }
      assert requested[..|requested|] == requested;
      resolved := Some(values);
    }
  }
}
