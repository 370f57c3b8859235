/** External policy backends: they can tighten a local verdict, and when exactly the tightest verdict wins. */
module PolicyBackends {
  import opened Wrappers
  import opened Text
  import opened ConflictResolution
  import opened PolicyEngine

  /** What one backend answered; a backend that throws answers with an error. */
  datatype Outcome = Outcome(backend: string, decision: Verdict, failed: bool)

  /** How tight a verdict is: allow, then review, then deny. */
  function Tightness(v: Verdict): nat {
    match v
    case AllowVerdict => 0
    case ReviewVerdict => 1
    case DenyVerdict => 2
  }

  /** The verdict a backend's answer stands for: an error is a denial. */
  function VerdictOf(o: Outcome): Verdict {
    if o.failed then DenyVerdict else o.decision
  }

  function ResolveEffectiveDecision(local: Verdict, outcomes: seq<Outcome>): Verdict {
    if local == DenyVerdict then DenyVerdict
    else if exists i | 0 <= i < |outcomes| :: outcomes[i].decision == DenyVerdict || outcomes[i].failed then DenyVerdict
    else if local == ReviewVerdict || exists i | 0 <= i < |outcomes| :: outcomes[i].decision == ReviewVerdict
    then ReviewVerdict
    else AllowVerdict
  }

  /** `v` is the tightest of the local verdict and the backends' verdicts. */
  ghost predicate IsTightest(v: Verdict, local: Verdict, outcomes: seq<Outcome>) {
    && Tightness(local) <= Tightness(v)
    && (forall i | 0 <= i < |outcomes| :: Tightness(VerdictOf(outcomes[i])) <= Tightness(v))
    && (v == local || exists i | 0 <= i < |outcomes| :: VerdictOf(outcomes[i]) == v)
  }

  lemma EffectiveIsTightest(local: Verdict, outcomes: seq<Outcome>)
    ensures IsTightest(ResolveEffectiveDecision(local, outcomes), local, outcomes)
  {
    var v := ResolveEffectiveDecision(local, outcomes);
    if v != local {
      var i :| 0 <= i < |outcomes| &&
               (outcomes[i].decision == v || (v == DenyVerdict && outcomes[i].failed));
      assert VerdictOf(outcomes[i]) == v;
    }
  }

  /** More backends, in whatever order, never loosen the verdict. */
  lemma MoreBackendsNeverLoosen(local: Verdict, some: seq<Outcome>, more: seq<Outcome>)
    requires forall i | 0 <= i < |some| :: some[i] in more
    ensures Tightness(ResolveEffectiveDecision(local, some)) <= Tightness(ResolveEffectiveDecision(local, more))
  {
    EffectiveIsTightest(local, some);
    EffectiveIsTightest(local, more);
    var v := ResolveEffectiveDecision(local, some);
    if v != local {
      var i :| 0 <= i < |some| && VerdictOf(some[i]) == v;
      var j :| 0 <= j < |more| && more[j] == some[i];
      assert VerdictOf(more[j]) == v;
    }
  }

  /** So the order of the backends does not matter. */
  lemma BackendOrderDoesNotMatter(local: Verdict, some: seq<Outcome>, other: seq<Outcome>)
    requires multiset(some) == multiset(other)
    ensures ResolveEffectiveDecision(local, some) == ResolveEffectiveDecision(local, other)
  {
    forall i | 0 <= i < |some|
      ensures some[i] in other
    {
      assert some[i] in multiset(some);
    }
    forall i | 0 <= i < |other|
      ensures other[i] in some
    {
      assert other[i] in multiset(other);
    }
    MoreBackendsNeverLoosen(local, some, other);
    MoreBackendsNeverLoosen(local, other, some);
  }

  // ---------- evaluation of policies with backends ----------

  datatype BackendEvaluation = BackendEvaluation(
    localDecision: Decision,
    backendResults: seq<Outcome>,
    effectiveDecision: Verdict,
    effectivePolicyResult: Decision,
    deniedBy: seq<string>)

  function Deniers(outcomes: seq<Outcome>): seq<string> {
    if outcomes == [] then []
    else Deniers(outcomes[..|outcomes| - 1]) +
         if VerdictOf(outcomes[|outcomes| - 1]) == DenyVerdict then [outcomes[|outcomes| - 1].backend] else []
  }

  function OtherThan(names: seq<string>, name: string): seq<string> {
    if names == [] then []
    else OtherThan(names[..|names| - 1], name) + if names[|names| - 1] != name then [names[|names| - 1]] else []
  }

  /** The local decision read as a verdict. */
  function LocalVerdict(d: Decision): Verdict {
    if d.allowed then AllowVerdict else if d.action == RequireApproval then ReviewVerdict else DenyVerdict
  }

  /** `answers` is what the backends answer if they are asked; they are asked only when the local decision allows. */
  function EvaluatePolicyWithBackends(local: Decision, answers: seq<Outcome>): BackendEvaluation {
    if !local.allowed then
      var effective := if local.action == RequireApproval then ReviewVerdict else DenyVerdict;
      BackendEvaluation(local, [], effective, local, if effective == DenyVerdict then ["local"] else [])
    else
      var effective := ResolveEffectiveDecision(AllowVerdict, answers);
      var deniedBy := if effective == DenyVerdict then Deniers(answers) else [];
      var result :=
        match effective
        case DenyVerdict =>
          local.(allowed := false, action := Deny,
                 reason := "Denied by policy backend: " + Join(OtherThan(deniedBy, "local"), ", "))
        case ReviewVerdict =>
          local.(allowed := false, action := RequireApproval, reason := "Review required by policy backend")
        case AllowVerdict => local;
      BackendEvaluation(local, answers, effective, result, deniedBy)
  }

  /** The effective result allows exactly when the local decision does and every backend does, and it never says
      anything looser than the local decision. */
  lemma BackendsOnlyTighten(local: Decision, answers: seq<Outcome>)
    ensures var r := EvaluatePolicyWithBackends(local, answers);
            && (r.effectivePolicyResult.allowed <==>
                local.allowed && forall i | 0 <= i < |answers| :: VerdictOf(answers[i]) == AllowVerdict)
            && Tightness(LocalVerdict(local)) <= Tightness(r.effectiveDecision)
            && r.effectivePolicyResult.allowed == (r.effectiveDecision == AllowVerdict)
  {
    EffectiveIsTightest(AllowVerdict, answers);
  }

  /** The effective decision is the tightest of the local verdict and the backends' answers, except when the local
      decision asks for approval while a backend would deny: then the backends are not asked. */
  lemma TightestUnlessApprovalPending(local: Decision, answers: seq<Outcome>)
    ensures IsTightest(EvaluatePolicyWithBackends(local, answers).effectiveDecision, LocalVerdict(local), answers) <==>
            !(LocalVerdict(local) == ReviewVerdict && exists i | 0 <= i < |answers| :: VerdictOf(answers[i]) == DenyVerdict)
  {
    if local.allowed {
      EffectiveIsTightest(AllowVerdict, answers);
    }
  }

  /** The exception occurs: a denying backend leaves a pending approval pending. */
  lemma PendingApprovalHidesDenial(local: Decision)
    requires !local.allowed && local.action == RequireApproval
    ensures var deny := [Outcome("guard", DenyVerdict, false)];
            && EvaluatePolicyWithBackends(local, deny).effectiveDecision == ReviewVerdict
            && !IsTightest(ReviewVerdict, LocalVerdict(local), deny)
  {
    assert VerdictOf([Outcome("guard", DenyVerdict, false)][0]) == DenyVerdict;
  }

  lemma {:induction false} DeniersDeny(outcomes: seq<Outcome>, name: string)
    ensures name in Deniers(outcomes) <==>
            exists i | 0 <= i < |outcomes| :: outcomes[i].backend == name && VerdictOf(outcomes[i]) == DenyVerdict
  {
    if outcomes == [] {
    } else {
      var init, last := outcomes[..|outcomes| - 1], outcomes[|outcomes| - 1];
      DeniersDeny(init, name);
      assert forall i | 0 <= i < |init| :: init[i] == outcomes[i];
    }
  }

  /** A denial names exactly who denied: the local decision, or the denying backends. */
  lemma DenialNamesDeniers(local: Decision, answers: seq<Outcome>, name: string)
    ensures name in EvaluatePolicyWithBackends(local, answers).deniedBy <==>
            if LocalVerdict(local) == DenyVerdict then name == "local"
            else local.allowed &&
                 exists i | 0 <= i < |answers| :: answers[i].backend == name && VerdictOf(answers[i]) == DenyVerdict
  {
    DeniersDeny(answers, name);
    EffectiveIsTightest(AllowVerdict, answers);
  }

  /** What comes out: a refused call as it was; else a denial where a backend denies or fails, a pending approval where
      none does but one asks for review, and otherwise the local decision as it was. */
  lemma ResultInWords(local: Decision, answers: seq<Outcome>)
    ensures var r := EvaluatePolicyWithBackends(local, answers);
            var denied := exists i | 0 <= i < |answers| :: answers[i].decision == DenyVerdict || answers[i].failed;
            var review := exists i | 0 <= i < |answers| :: answers[i].decision == ReviewVerdict;
            && r.localDecision == local && r.backendResults == (if local.allowed then answers else [])
            && (!local.allowed || (!denied && !review) ==> r.effectivePolicyResult == local)
            && (local.allowed && (denied || review) ==>
                  && r.effectivePolicyResult.action == (if denied then Deny else RequireApproval)
                  && !r.effectivePolicyResult.allowed
                  && r.effectivePolicyResult.matchedRule == local.matchedRule
                  && r.effectivePolicyResult.policyName == local.policyName
                  && r.effectivePolicyResult.approvers == local.approvers
                  && r.effectivePolicyResult.rateLimited == local.rateLimited
                  && (!denied ==> r.effectivePolicyResult.reason == "Review required by policy backend"))
  {
  }

  lemma {:induction false} OtherThanDrops(names: seq<string>, name: string)
    requires name !in names
    ensures OtherThan(names, name) == names
  {
    if names == [] {
    } else {
      OtherThanDrops(names[..|names| - 1], name);
    }
  }

  /** The reason of a denial by backends lists them, in their order, except any called "local". */
  lemma DenialReason(local: Decision, answers: seq<Outcome>)
    requires local.allowed && exists i | 0 <= i < |answers| :: answers[i].decision == DenyVerdict || answers[i].failed
    requires forall i | 0 <= i < |answers| :: answers[i].backend != "local"
    ensures var r := EvaluatePolicyWithBackends(local, answers);
            r.effectivePolicyResult.reason == "Denied by policy backend: " + Join(r.deniedBy, ", ")
  {
    var r := EvaluatePolicyWithBackends(local, answers);
    DeniersDeny(answers, "local");
    OtherThanDrops(r.deniedBy, "local");
  }
}
