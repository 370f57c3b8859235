/**
  What an injection answers: a request names credentials by placeholders, and gets back either its payload with the
  values put in, or a receipt that says no more than that it was denied.
 */
module CredentialModel {
  import opened Wrappers
  import opened Placeholders
  import Ordering

  // ---------- the vault's contents ----------

  datatype Record =
    Record(name: string, value: string, credType: string, version: nat, createdAt: int, rotatedAt: Option<int>)

  /** For each agent, the handle bound to each of its action classes. */
  type Bindings = map<string, map<string, string>>

  type Records = map<string, Record>

  datatype Decision = Allow | Deny

  datatype Event = Event(
    timestamp: int, agentDid: string, handleName: string, targetService: string, actionClass: string,
    decision: Decision, policyVersion: string, reason: string)

  const DENY_REASON := "credential_denied"

  function Binding(profiles: Bindings, agentDid: string, actionClass: string): Option<string> {
    if agentDid in profiles && actionClass in profiles[agentDid] then Some(profiles[agentDid][actionClass]) else None
  }

  predicate CheckAccess(records: Records, profiles: Bindings, agentDid: string, handle: string, actionClass: string) {
    Binding(profiles, agentDid, actionClass) == Some(handle) && handle in records
  }

  // ---------- requests and answers ----------

  datatype Context = Context(
    agentDid: string, actionClass: string, targetService: string, requestedHandles: seq<string>, policyVersion: string)

  datatype Options = Options(
    actionClass: string,
    targetService: string,
    allowedHandles: seq<string>,
    policyVersion: Option<string>,
    policyCheck: Option<Context -> bool>)

  datatype Request = Request(agentDid: string, payload: Payload, options: Options)
  {
    function PolicyVersion(): string {
      GetOr(options.policyVersion, "v0")
    }

    function Requested(): seq<string> {
      Placeholders.Requested(payload)
    }

    /** The record of a decision about one handle. */
    function Report(handle: string, decision: Decision, now: int): Event {
      Event(now, agentDid, handle, options.targetService, options.actionClass, decision, PolicyVersion(),
            if decision == Deny then DENY_REASON else "")
    }

    function PolicyContext(): Context {
      Context(agentDid, options.actionClass, options.targetService, Ordering.Sort(Requested(), Ordering.Before),
              PolicyVersion())
    }

    predicate PolicyAllows() {
      options.policyCheck.Some? ==> options.policyCheck.value(PolicyContext())
    }

    predicate Listed(handle: string) {
      handle in options.allowedHandles
    }

    predicate Access(records: Records, profiles: Bindings, handle: string) {
      CheckAccess(records, profiles, agentDid, handle, options.actionClass)
    }
  }

  datatype DenyReceipt = DenyReceipt(reason: string, actionClass: string, targetService: string)

  datatype Delivery = Rendered(payload: Payload) | Refused(receipt: DenyReceipt)

  datatype InjectionResult =
    InjectionResult(allowed: bool, payload: Delivery, denyReceipt: Option<DenyReceipt>, auditEvents: seq<Event>)

  function Denied(request: Request, events: seq<Event>): InjectionResult {
    var receipt := DenyReceipt(DENY_REASON, request.options.actionClass, request.options.targetService);
    InjectionResult(false, Refused(receipt), Some(receipt), events)
  }

  // ---------- the answer ----------

  function Outside(names: seq<string>, request: Request): seq<string> {
    if names == [] then []
    else (if request.Listed(names[0]) then [] else [names[0]]) + Outside(names[1..], request)
  }

  /** Resolving handles one after another, up to the first that is refused. */
  function Resolution(names: seq<string>, request: Request, records: Records, profiles: Bindings, now: int): seq<Event>
    decreases |names|
  {
    if names == [] then []
    else if request.Access(records, profiles, names[0]) then
      [request.Report(names[0], Allow, now)] + Resolution(names[1..], request, records, profiles, now)
    else [request.Report(names[0], Deny, now)]
  }

  function Values(names: seq<string>, records: Records): map<string, string> {
    map n | n in names && n in records :: records[n].value
  }

  predicate AllAccessible(names: seq<string>, request: Request, records: Records, profiles: Bindings) {
    forall n | n in names :: request.Access(records, profiles, n)
  }

  function Outcome(request: Request, records: Records, profiles: Bindings, now: int): InjectionResult {
    var requested := request.Requested();
    var outside := Outside(requested, request);
    if outside != [] then Denied(request, [request.Report(outside[0], Deny, now)])
    else if !request.PolicyAllows() then
      Denied(request, [request.Report(if requested == [] then "" else requested[0], Deny, now)])
    else
      var events := Resolution(requested, request, records, profiles, now);
      if AllAccessible(requested, request, records, profiles) then
        InjectionResult(true, Rendered(Substitute(request.payload, Values(requested, records))), None, events)
      else Denied(request, events)
  }

  // ---------- what the answer means ----------

  lemma {:induction false} OutsideIsEmpty(names: seq<string>, request: Request)
    ensures Outside(names, request) == [] <==> forall n | n in names :: request.Listed(n)
  {
    if names == [] {
    } else {
      OutsideIsEmpty(names[1..], request);
    }
  }

  /** The names a policy check is shown: each requested one once, ascending. */
  ghost predicate Shown(shown: seq<string>, requested: seq<string>) {
    (forall n :: n in shown <==> n in requested) &&
    forall i, j | 0 <= i < j < |shown| :: Ordering.Before(shown[i], shown[j])
  }

  lemma OneOrderShown(shown: seq<string>, request: Request)
    requires Shown(shown, request.Requested())
    ensures Ordering.Sort(request.Requested(), Ordering.Before) == shown
  {
    var sorted := Ordering.Sort(request.Requested(), Ordering.Before);
    RequestedIsDistinct(request.payload);
    Ordering.BeforeIsOrder();
    Ordering.SortAscends(request.Requested(), Ordering.Before);
    Ordering.SortSameElements(request.Requested(), Ordering.Before);
    Ordering.AscendingIsUnique(sorted, shown, Ordering.Before);
  }

  /** A request is granted exactly if the call allows every credential it names, each of them is a stored one that is
      bound to this agent and action, and the policy check, if there is one, agrees to what it is shown. */
  lemma AllowedIff(request: Request, records: Records, profiles: Bindings, now: int, shown: seq<string>)
    requires Shown(shown, request.Requested())
    ensures var (did, opts) := (request.agentDid, request.options);
            Outcome(request, records, profiles, now).allowed <==>
            && (forall n | n in request.Requested() ::
                  && n in opts.allowedHandles
                  && did in profiles && opts.actionClass in profiles[did] && profiles[did][opts.actionClass] == n
                  && n in records)
            && (opts.policyCheck.Some? ==>
                  opts.policyCheck.value(Context(did, opts.actionClass, opts.targetService, shown,
                                                 if opts.policyVersion.Some? then opts.policyVersion.value else "v0")))
  {
    OutsideIsEmpty(request.Requested(), request);
    OneOrderShown(shown, request);
  }

  /** What a granted request names is listed and accessible. */
  lemma GrantedAreAccessible(request: Request, records: Records, profiles: Bindings, now: int)
    requires Outcome(request, records, profiles, now).allowed
    ensures forall n | n in request.Requested() :: request.Listed(n) && request.Access(records, profiles, n)
  {
    OutsideIsEmpty(request.Requested(), request);
  }

  /** The policy is asked before any vault read: where it refuses, nothing is granted and no value is read. */
  lemma PolicyRefusalReadsNothing(request: Request, records: Records, profiles: Bindings, now: int, shown: seq<string>)
    requires Shown(shown, request.Requested())
    requires var opts := request.options;
             opts.policyCheck.Some? &&
             !opts.policyCheck.value(Context(request.agentDid, opts.actionClass, opts.targetService, shown,
                                             GetOr(opts.policyVersion, "v0")))
    ensures !Outcome(request, records, profiles, now).allowed
    ensures Reads(Outcome(request, records, profiles, now).auditEvents) == []
  {
    OneOrderShown(shown, request);
  }

  /** A granted request names one credential at most: the one bound to its agent and action. */
  lemma AtMostOneHandle(request: Request, records: Records, profiles: Bindings, now: int)
    requires Outcome(request, records, profiles, now).allowed
    ensures |request.Requested()| <= 1
    ensures forall n | n in request.Requested() ::
              request.Listed(n) && Binding(profiles, request.agentDid, request.options.actionClass) == Some(n)
  {
    GrantedAreAccessible(request, records, profiles, now);
    RequestedIsDistinct(request.payload);
    AtMostOne(request.Requested(), Binding(profiles, request.agentDid, request.options.actionClass));
  }

  lemma AtMostOne(names: seq<string>, bound: Option<string>)
    requires forall n | n in names :: bound == Some(n)
    ensures NoDuplicates(names) ==> |names| <= 1
  {
    if |names| > 1 {
      assert names[0] in names && names[1] in names;
    }
  }

  lemma RequestedIsDistinct(payload: Payload)
    ensures NoDuplicates(Requested(payload))
  {
    RequestedAreTheNames(payload, "");
  }

  function Reads(events: seq<Event>): seq<string> {
    if events == [] then []
    else (if events[0].decision == Allow then [events[0].handleName] else []) + Reads(events[1..])
  }

  /** Refused or not, an injection reads one value at most, and only the bound one. */
  lemma ReadsAtMostOneValue(request: Request, records: Records, profiles: Bindings, now: int)
    ensures var handles := Reads(Outcome(request, records, profiles, now).auditEvents);
            |handles| <= 1
            && forall n | n in handles :: request.Listed(n) && request.Access(records, profiles, n)
  {
    var requested := request.Requested();
    RequestedIsDistinct(request.payload);
    OutsideIsEmpty(requested, request);
    if Outside(requested, request) == [] && request.PolicyAllows() {
      ResolutionReads(requested, request, records, profiles, now);
      AtMostOne(Reads(Resolution(requested, request, records, profiles, now)),
                Binding(profiles, request.agentDid, request.options.actionClass));
    }
  }

  lemma {:induction false} ResolutionReads(
    names: seq<string>, request: Request, records: Records, profiles: Bindings, now: int)
    requires NoDuplicates(names)
    ensures var handles := Reads(Resolution(names, request, records, profiles, now));
            NoDuplicates(handles)
            && (forall n | n in handles :: n in names && request.Access(records, profiles, n))
    decreases |names|
  {
    if names == [] || !request.Access(records, profiles, names[0]) {
    } else {
      var event := request.Report(names[0], Allow, now);
      var more := Resolution(names[1..], request, records, profiles, now);
      assert ([event] + more)[1..] == more;
      assert Reads([event] + more) == [names[0]] + Reads(more);
      ResolutionReads(names[1..], request, records, profiles, now);
    }
  }

  // ---------- what the answer does not depend on ----------

  /** Two vaults bind the same handle to the agent's action and hold the same record of that handle. Whatever else
      they hold may differ. */
  predicate LookAlike(request: Request, r1: Records, p1: Bindings, r2: Records, p2: Bindings) {
    var b1 := Binding(p1, request.agentDid, request.options.actionClass);
    && b1 == Binding(p2, request.agentDid, request.options.actionClass)
    && (b1.Some? ==>
          && (b1.value in r1 <==> b1.value in r2)
          && (b1.value in r1 ==> r1[b1.value] == r2[b1.value]))
  }

  lemma {:induction false} ResolutionAgrees(
    names: seq<string>, request: Request, r1: Records, p1: Bindings, r2: Records, p2: Bindings, now: int)
    requires forall n :: request.Access(r1, p1, n) <==> request.Access(r2, p2, n)
    ensures Resolution(names, request, r1, p1, now) == Resolution(names, request, r2, p2, now)
    decreases |names|
  {
    if names == [] {
    } else {
      ResolutionAgrees(names[1..], request, r1, p1, r2, p2, now);
    }
  }

  /** The answer, its receipt and its audit events depend on one binding and one record. */
  lemma OnlyTheBoundRecordMatters(
    request: Request, r1: Records, p1: Bindings, r2: Records, p2: Bindings, now: int)
    requires LookAlike(request, r1, p1, r2, p2)
    ensures Outcome(request, r1, p1, now) == Outcome(request, r2, p2, now)
  {
    var requested := request.Requested();
    ResolutionAgrees(requested, request, r1, p1, r2, p2, now);
    if Outcome(request, r1, p1, now).allowed {
      GrantedAreAccessible(request, r1, p1, now);
      AtMostOneHandle(request, r1, p1, now);
      assert forall n | n in requested :: n in r1 && n in r2 && r1[n] == r2[n];
      assert Values(requested, r1) == Values(requested, r2);
    }
  }

  /** Whether a request is refused, and everything about a refusal, is independent of every stored value. */
  lemma RefusalRevealsNoValue(request: Request, r1: Records, r2: Records, profiles: Bindings, now: int)
    requires r1.Keys == r2.Keys
    ensures var a, b := Outcome(request, r1, profiles, now), Outcome(request, r2, profiles, now);
            a.allowed == b.allowed && a.auditEvents == b.auditEvents && (!a.allowed ==> a == b)
  {
    ResolutionAgrees(request.Requested(), request, r1, profiles, r2, profiles, now);
  }

  /** All refusals of an action on a target look the same, whoever asked for what and whatever stopped it. */
  lemma RefusalsLookAlike(a: Request, r1: Records, p1: Bindings, now1: int, b: Request, r2: Records, p2: Bindings, now2: int)
    requires a.options.actionClass == b.options.actionClass && a.options.targetService == b.options.targetService
    requires !Outcome(a, r1, p1, now1).allowed && !Outcome(b, r2, p2, now2).allowed
    ensures Outcome(a, r1, p1, now1).payload == Outcome(b, r2, p2, now2).payload
    ensures Outcome(a, r1, p1, now1).denyReceipt == Outcome(b, r2, p2, now2).denyReceipt
    ensures Outcome(a, r1, p1, now1).payload.Refused?
  {
  }

  lemma HandlesRequested(pieces: seq<Piece>, request: Request)
    requires Meant(pieces) && request.payload == Str(Written(pieces))
    ensures forall n :: n in request.Requested() <==> n in Handles(pieces)
  {
    ReplaceFillsMessage(pieces, map[]);
    NamesInOne(Written(pieces));
    AddAllIsUnion([], Handles(pieces));
  }

  /** What a granted request delivers: a message with the value of its handle in each handle's place, and nothing left
      to fill in. */
  lemma GrantedMessageIsFilled(
    pieces: seq<Piece>, request: Request, records: Records, profiles: Bindings, now: int)
    requires Meant(pieces) && request.payload == Str(Written(pieces))
    requires Outcome(request, records, profiles, now).allowed
    ensures forall n | n in Handles(pieces) :: n in Values(request.Requested(), records)
    ensures Outcome(request, records, profiles, now).payload
         == Rendered(Str(Filled(pieces, Values(request.Requested(), records))))
  {
    var values := Values(request.Requested(), records);
    ReplaceFillsMessage(pieces, values);
    HandlesRequested(pieces, request);
    forall n | n in Handles(pieces)
      ensures n in values
    {
      GrantedAreAccessible(request, records, profiles, now);
    }
  }

  /** On any payload, what is granted has every requested name resolved to the stored value. */
  lemma GrantedPayloadIsSubstituted(request: Request, records: Records, profiles: Bindings, now: int)
    requires Outcome(request, records, profiles, now).allowed
    ensures forall n | n in request.Requested() :: n in records
    ensures Outcome(request, records, profiles, now).payload
         == Rendered(Substitute(request.payload, map n | n in records :: records[n].value))
  {
    GrantedAreAccessible(request, records, profiles, now);
    var requested := request.Requested();
    var all := map n | n in records :: records[n].value;
    forall n | n in NamesIn(Strings(request.payload))
      ensures n in requested
    {
      AddAllIsUnion([], NamesIn(Strings(request.payload)));
    }
    SubstituteAgrees(request.payload, Values(requested, records), all);
  }

  /** So what is granted on a payload of messages is that payload with the stored value in each handle's place. */
  lemma GrantedPayloadIsFilled(request: Request, records: Records, profiles: Bindings, now: int, values: map<string, string>)
    requires values == map n | n in records :: records[n].value
    requires IsMessage(request.payload) && KeysStayApart(request.payload, values)
    requires Outcome(request, records, profiles, now).allowed
    ensures Outcome(request, records, profiles, now).payload.Rendered?
    ensures Fills(request.payload, Outcome(request, records, profiles, now).payload.payload, values)
  {
    GrantedPayloadIsSubstituted(request, records, profiles, now);
    SubstituteFills(request.payload, values);
  }

  /** Without a binding, the only requests granted are the ones that name nothing and that the policy agrees to. */
  lemma UnboundGetsNothing(request: Request, records: Records, profiles: Bindings, now: int)
    requires request.agentDid in profiles ==> request.options.actionClass !in profiles[request.agentDid]
    requires WellFormed(request.payload)
    ensures var (did, opts) := (request.agentDid, request.options);
            Outcome(request, records, profiles, now).allowed <==>
            request.Requested() == [] &&
            (opts.policyCheck.Some? ==>
               opts.policyCheck.value(Context(did, opts.actionClass, opts.targetService, [], GetOr(opts.policyVersion, "v0"))))
    ensures Outcome(request, records, profiles, now).allowed
       ==> Outcome(request, records, profiles, now).payload == Rendered(request.payload)
  {
    var requested := request.Requested();
    assert requested != [] ==> requested[0] in requested;
    if requested == [] {
      AllowedIff(request, records, profiles, now, []);
    }
    if Outcome(request, records, profiles, now).allowed {
      GrantedAreAccessible(request, records, profiles, now);
      assert Values(requested, records) == map[];
      SubstituteNothing(request.payload);
    }
  }

  // ---------- what is reported ----------

  /** The first name outside the list. */
  lemma {:induction false} FirstOutside(names: seq<string>, request: Request)
    requires Outside(names, request) != []
    ensures exists i | 0 <= i < |names| ::
              && names[i] == Outside(names, request)[0] && names[i] !in request.options.allowedHandles
              && forall j | 0 <= j < i :: names[j] in request.options.allowedHandles
  {
    if names[0] !in request.options.allowedHandles {
    } else {
      var rest := names[1..];
      FirstOutside(rest, request);
      var i :| 0 <= i < |rest| && rest[i] == Outside(rest, request)[0] && rest[i] !in request.options.allowedHandles
               && forall j | 0 <= j < i :: rest[j] in request.options.allowedHandles;
      assert names[i + 1] == rest[i] && forall j | 0 < j < i + 1 :: names[j] == rest[j - 1];
    }
  }

  /** One event for each name up to the first that is not accessible, which alone is a denial. */
  ghost predicate ReportsInOrder(events: seq<Event>, names: seq<string>, ok: bool) {
    && |events| <= |names| && (ok ==> |events| == |names|) && (!ok ==> events != [])
    && forall i | 0 <= i < |events| ::
         events[i].handleName == names[i] &&
         events[i].decision == if !ok && i == |events| - 1 then Deny else Allow
  }

  lemma AccessibleNext(names: seq<string>, request: Request, records: Records, profiles: Bindings)
    requires names != [] && request.Access(records, profiles, names[0])
    ensures AllAccessible(names, request, records, profiles) == AllAccessible(names[1..], request, records, profiles)
  {
    assert names == [names[0]] + names[1..];
  }

  lemma ReportsNext(event: Event, events: seq<Event>, name: string, names: seq<string>, ok: bool)
    requires ReportsInOrder(events, names, ok) && event.handleName == name && event.decision == Allow
    ensures ReportsInOrder([event] + events, [name] + names, ok)
  {
  }

  lemma {:induction false} ResolutionReports(
    names: seq<string>, request: Request, records: Records, profiles: Bindings, now: int)
    ensures ReportsInOrder(Resolution(names, request, records, profiles, now), names,
                           AllAccessible(names, request, records, profiles))
    decreases |names|
  {
    if names == [] || !request.Access(records, profiles, names[0]) {
    } else {
      var rest := names[1..];
      ResolutionReports(rest, request, records, profiles, now);
      AccessibleNext(names, request, records, profiles);
      ReportsNext(request.Report(names[0], Allow, now), Resolution(rest, request, records, profiles, now), names[0], rest,
                  AllAccessible(rest, request, records, profiles));
      assert names == [names[0]] + rest;
    }
  }

  /** What every event of the request tells, and what a refusal's receipt does. */
  ghost predicate Tells(request: Request, r: InjectionResult, now: int) {
    var opts := request.options;
    && (forall i | 0 <= i < |r.auditEvents| ::
          var e := r.auditEvents[i];
          && e.timestamp == now && e.agentDid == request.agentDid
          && e.targetService == opts.targetService && e.actionClass == opts.actionClass
          && e.policyVersion == (if opts.policyVersion.Some? then opts.policyVersion.value else "v0")
          && e.reason == if e.decision == Deny then "credential_denied" else "")
    && (!r.allowed ==>
          var receipt := DenyReceipt("credential_denied", opts.actionClass, opts.targetService);
          r.payload == Refused(receipt) && r.denyReceipt == Some(receipt))
    && (r.allowed ==> r.payload.Rendered? && r.denyReceipt == None)
  }

  lemma {:induction false} ResolutionTells(
    names: seq<string>, request: Request, records: Records, profiles: Bindings, now: int, e: Event)
    requires e in Resolution(names, request, records, profiles, now)
    ensures e == request.Report(e.handleName, e.decision, now)
    decreases |names|
  {
    if request.Access(records, profiles, names[0]) && e != request.Report(names[0], Allow, now) {
      ResolutionTells(names[1..], request, records, profiles, now, e);
    }
  }

  lemma OutcomeTells(request: Request, records: Records, profiles: Bindings, now: int)
    ensures Tells(request, Outcome(request, records, profiles, now), now)
  {
    var events := Outcome(request, records, profiles, now).auditEvents;
    forall i | 0 <= i < |events|
      ensures events[i] == request.Report(events[i].handleName, events[i].decision, now)
    {
      if events[i] in Resolution(request.Requested(), request, records, profiles, now) {
        ResolutionTells(request.Requested(), request, records, profiles, now, events[i]);
      }
    }
  }

  /** The events of an injection: one denial of the first name outside the list, or of the first name where the policy
      refuses, or one event for each name up to the first denied. */
  lemma EventsTellOutcome(request: Request, records: Records, profiles: Bindings, now: int, shown: seq<string>)
    requires Shown(shown, request.Requested())
    ensures var r, names, opts := Outcome(request, records, profiles, now), request.Requested(), request.options;
            var events := r.auditEvents;
            && Tells(request, r, now)
            && if exists n | n in names :: n !in opts.allowedHandles then
                 && |events| == 1 && events[0].decision == Deny
                 && exists i | 0 <= i < |names| ::
                      && names[i] == events[0].handleName && names[i] !in opts.allowedHandles
                      && forall j | 0 <= j < i :: names[j] in opts.allowedHandles
               else if opts.policyCheck.Some? &&
                       !opts.policyCheck.value(Context(request.agentDid, opts.actionClass, opts.targetService, shown,
                                                       GetOr(opts.policyVersion, "v0"))) then
                 |events| == 1 && events[0].decision == Deny && events[0].handleName == if names == [] then "" else names[0]
               else ReportsInOrder(events, names, r.allowed)
  {
    var names := request.Requested();
    OutcomeTells(request, records, profiles, now);
    OneOrderShown(shown, request);
    OutsideIsEmpty(names, request);
    if Outside(names, request) != [] {
      FirstOutside(names, request);
    } else if request.PolicyAllows() {
      ResolutionReports(names, request, records, profiles, now);
    }
  }
}
