/**
  The policy engine: which rules of which policies match, which of them wins, the rate limit on the winner, and
  how external backends may tighten the verdict.
 */
module PolicyEngine {
  import opened Wrappers
  import opened ConflictResolution
  import R = RateLimit
  import E = PolicyExpression

  datatype Verdict = AllowVerdict | ReviewVerdict | DenyVerdict

  /** A rule's condition: absent, an expression, or attributes with their expected values. */
  datatype Condition = NoCondition | Expression(text: string) | Attributes(expected: map<string, string>)

  /** The evaluation context, after protocol facets have been added: the value of each comparison, and attributes. */
  datatype Context = Context(atom: string -> bool, attributes: map<string, string>)

  datatype Rule = Rule(
    name: Option<string>,
    description: Option<string>,
    condition: Condition,
    ruleAction: Option<PolicyAction>,
    effect: Option<Verdict>,
    priority: Option<int>,
    enabled: Option<bool>,
    limit: Option<string>,
    approvers: Option<seq<string>>)

  datatype Policy = Policy(
    name: string,
    agent: Option<string>,
    agents: Option<seq<string>>,
    scope: Option<PolicyScope>,
    rules: seq<Rule>,
    allowsByDefault: bool)

  datatype Decision = Decision(
    allowed: bool,
    action: PolicyAction,
    matchedRule: Option<string>,
    policyName: Option<string>,
    reason: string,
    approvers: seq<string>,
    rateLimited: bool)

  type RateLimits = map<string, R.RateLimitState>

  // ---------- which rules match ----------

  predicate PolicyAppliesTo(policy: Policy, agentDid: string) {
    || (policy.agent.Some? && policy.agent.value != "" && policy.agent.value == agentDid)
    || (policy.agents.Some? && (agentDid in policy.agents.value || "*" in policy.agents.value))
    || (GetOr(policy.agent, "") == "" && GetOr(policy.agents, []) == [])
  }

  /** An empty expression counts as no condition. */
  predicate ConditionHolds(condition: Condition, ctx: Context) {
    match condition
    case NoCondition => true
    case Expression(text) => text == "" || E.Evaluate(text, ctx.atom)
    case Attributes(expected) => forall k | k in expected :: k in ctx.attributes && ctx.attributes[k] == expected[k]
  }

  /** A rule without an action denies, and so does one whose only effect is review. */
  function ActionOf(rule: Rule): PolicyAction {
    if rule.ruleAction.Some? then rule.ruleAction.value
    else if rule.effect == Some(AllowVerdict) then Allow
    else Deny
  }

  predicate RuleMatches(rule: Rule, ctx: Context) {
    rule.enabled != Some(false) && ConditionHolds(rule.condition, ctx)
  }

  function CandidateOf(policy: Policy, rule: Rule): Candidate {
    var ruleName := GetOr(rule.name, "unnamed");
    Candidate(ActionOf(rule), GetOr(rule.priority, 0), GetOr(policy.scope, Global), policy.name, ruleName,
              GetOr(rule.description, "Rule " + ruleName + " matched"), GetOr(rule.approvers, []))
  }

  function CandidatesOf(policy: Policy, rules: seq<Rule>, ctx: Context): seq<Candidate> {
    if rules == [] then []
    else
      CandidatesOf(policy, rules[..|rules| - 1], ctx) +
      if RuleMatches(rules[|rules| - 1], ctx) then [CandidateOf(policy, rules[|rules| - 1])] else []
  }

  function Applicable(policies: seq<Policy>, agentDid: string): seq<Policy> {
    if policies == [] then []
    else
      Applicable(policies[..|policies| - 1], agentDid) +
      if PolicyAppliesTo(policies[|policies| - 1], agentDid) then [policies[|policies| - 1]] else []
  }

  function Candidates(applicable: seq<Policy>, ctx: Context): seq<Candidate> {
    if applicable == [] then []
    else
      var last := applicable[|applicable| - 1];
      Candidates(applicable[..|applicable| - 1], ctx) + CandidatesOf(last, last.rules, ctx)
  }

  // ---------- the winner and its rate limit ----------

  function FindByName(rules: seq<Rule>, name: string): Option<Rule> {
    if rules == [] then None
    else if rules[0].name == Some(name) then Some(rules[0])
    else FindByName(rules[1..], name)
  }

  function FindRule(policies: seq<Policy>, policyName: string, ruleName: string): Option<Rule> {
    if policies == [] then None
    else if policies[0].name == policyName then FindByName(policies[0].rules, ruleName)
    else FindRule(policies[1..], policyName, ruleName)
  }

  predicate HasLimit(rule: Rule) {
    GetOr(rule.limit, "") != ""
  }

  function LimitOf(rule: Rule): R.Limit {
    R.ParseLimit(GetOr(rule.limit, ""))
  }

  /** Rate state is kept by rule name alone; a rule without a name or a limit has none. */
  predicate IsRated(rule: Rule) {
    HasLimit(rule) && GetOr(rule.name, "") != ""
  }

  function StateOf(limits: RateLimits, name: string): Option<R.RateLimitState> {
    if name in limits then Some(limits[name]) else None
  }

  function WithState(limits: RateLimits, name: string, st: Option<R.RateLimitState>): RateLimits {
    if st.Some? then limits[name := st.value] else limits - {name}
  }

  predicate IsLimited(limits: RateLimits, rule: Rule, now: int) {
    IsRated(rule) && R.IsLimited(StateOf(limits, rule.name.value), LimitOf(rule), now)
  }

  function Consume(limits: RateLimits, rule: Rule, now: int): RateLimits {
    if IsRated(rule)
    then WithState(limits, rule.name.value, R.Next(StateOf(limits, rule.name.value), LimitOf(rule), now))
    else limits
  }

  predicate Permits(action: PolicyAction) {
    action == Allow || action == Warn || action == Log
  }

  function WinnerDecision(winner: Candidate): Decision {
    Decision(Permits(winner.action), winner.action, Some(winner.ruleName), Some(winner.policyName), winner.reason,
             if winner.action == RequireApproval then winner.approvers else [], false)
  }

  function LimitedDecision(rule: Rule, winner: Candidate): Decision {
    Decision(false, Deny, rule.name, Some(winner.policyName), "Rate limited: " + GetOr(rule.limit, ""), [], true)
  }

  function DefaultDecision(applicable: seq<Policy>): Decision {
    var allow := applicable != [] && applicable[0].allowsByDefault;
    Decision(allow, if allow then Allow else Deny, None, None, "No matching rules, using default", [], false)
  }

  /** The winning candidate of an evaluation, if any rule matches. */
  function WinnerOf(policies: seq<Policy>, strategy: Strategy, agentDid: string, ctx: Context): Option<Candidate> {
    var candidates := Candidates(Applicable(policies, agentDid), ctx);
    if candidates == [] then None else Some(Resolve(strategy, candidates).value.winningDecision)
  }

  function Evaluate(policies: seq<Policy>, strategy: Strategy, limits: RateLimits,
                    agentDid: string, ctx: Context, now: int): (Decision, RateLimits)
  {
    var winner := WinnerOf(policies, strategy, agentDid, ctx);
    if winner.None? then (DefaultDecision(Applicable(policies, agentDid)), limits)
    else
      var rule := FindRule(policies, winner.value.policyName, winner.value.ruleName);
      if rule.Some? && IsLimited(limits, rule.value, now)
      then (LimitedDecision(rule.value, winner.value), Consume(limits, rule.value, now))
      else (WinnerDecision(winner.value), if rule.Some? then Consume(limits, rule.value, now) else limits)
  }

  // ---------- the engine ----------

  predicate UniqueNames(policies: seq<Policy>) {
    forall i, j | 0 <= i < j < |policies| :: policies[i].name != policies[j].name
  }

  class PolicyEngine {
    const strategy: Strategy
    /** The loaded policies in the order their names were first loaded. */
    var policies: seq<Policy>
    var rateLimits: RateLimits

    constructor (strategy: Strategy)
      ensures this.strategy == strategy && policies == [] && rateLimits == map[]
    {
      this.strategy := strategy;
      policies := [];
      rateLimits := map[];
    }

    /** A policy replaces the one loaded under its name, in its place; a new name goes last. */
    method LoadPolicy(policy: Policy)
      requires UniqueNames(policies)
      modifies this`policies
      ensures UniqueNames(policies)
      ensures if exists i | 0 <= i < |old(policies)| :: old(policies)[i].name == policy.name
              then exists i | 0 <= i < |old(policies)| ::
                     old(policies)[i].name == policy.name && policies == old(policies)[i := policy]
              else policies == old(policies) + [policy]
    {
      for i := 0 to |policies|
        invariant policies == old(policies)
        invariant forall j | 0 <= j < i :: policies[j].name != policy.name
      {
        if policies[i].name == policy.name {
          policies := policies[i := policy];
          return;
        }
      }
      policies := policies + [policy];
    }

    method ClearPolicies()
      modifies this
      ensures policies == [] && rateLimits == map[]
    {
      policies := [];
      rateLimits := map[];
    }

    /** Drops an expired window, and says whether the current one is used up. */
    method IsRateLimited(rule: Rule, now: int) returns (limited: bool)
      modifies this`rateLimits
      ensures limited == IsLimited(old(rateLimits), rule, now)
      ensures rateLimits == if IsRated(rule)
                            then WithState(old(rateLimits), rule.name.value,
                                           R.Current(StateOf(old(rateLimits), rule.name.value), now))
                            else old(rateLimits)
    {
      if !HasLimit(rule) || GetOr(rule.name, "") == "" {
        return false;
      }
      var name := rule.name.value;
      if name !in rateLimits {
        assert rateLimits - {name} == rateLimits;
        return false;
      }
      var state := rateLimits[name];
      if now > state.resetAt {
        rateLimits := rateLimits - {name};
        return false;
      }
      assert rateLimits[name := state] == rateLimits;
      limited := LimitOf(rule).count.Some? && state.count >= LimitOf(rule).count.value;
    }

    method IncrementRateLimit(rule: Rule, now: int)
      modifies this`rateLimits
      ensures rateLimits == if IsRated(rule)
                            then old(rateLimits)[rule.name.value :=
                                   R.Increment(StateOf(old(rateLimits), rule.name.value), LimitOf(rule), now)]
                            else old(rateLimits)
    {
      if !HasLimit(rule) || GetOr(rule.name, "") == "" {
        return;
      }
      var name := rule.name.value;
      if name !in rateLimits {
        rateLimits := rateLimits[name := R.RateLimitState(0, now + LimitOf(rule).period.Ms())];
      }
      rateLimits := rateLimits[name := rateLimits[name].(count := rateLimits[name].count + 1)];
    }

    /** Both parts of the rate limit on one evaluation. */
    method ConsumeRateLimit(rule: Rule, now: int) returns (limited: bool)
      modifies this`rateLimits
      ensures limited == IsLimited(old(rateLimits), rule, now)
      ensures rateLimits == Consume(old(rateLimits), rule, now)
    {
      limited := IsRateLimited(rule, now);
      if !limited {
        IncrementRateLimit(rule, now);
      }
    }

    method EvaluatePolicy(agentDid: string, ctx: Context, now: int) returns (decision: Decision)
      modifies this`rateLimits
      ensures (decision, rateLimits) == Evaluate(policies, strategy, old(rateLimits), agentDid, ctx, now)
    {
      var applicable: seq<Policy> := [];
      for i := 0 to |policies|
        invariant applicable == Applicable(policies[..i], agentDid)
      {
        assert policies[..i + 1][..i] == policies[..i];
        if PolicyAppliesTo(policies[i], agentDid) {
          applicable := applicable + [policies[i]];
        }
      }
      assert policies[..|policies|] == policies;
      var candidates := CollectCandidates(applicable, ctx);
      if |candidates| > 0 {
        var winner := Resolve(strategy, candidates).value.winningDecision;
        var matchedRule := FindRule(policies, winner.policyName, winner.ruleName);
        if matchedRule.Some? {
          var limited := ConsumeRateLimit(matchedRule.value, now);
          if limited {
            return LimitedDecision(matchedRule.value, winner);
          }
        }
        return WinnerDecision(winner);
      }
      decision := DefaultDecision(applicable);
    }
  }

  method CollectCandidates(applicable: seq<Policy>, ctx: Context) returns (candidates: seq<Candidate>)
    ensures candidates == Candidates(applicable, ctx)
  {
    candidates := [];
    for i := 0 to |applicable|
      invariant candidates == Candidates(applicable[..i], ctx)
    {
      var policy := applicable[i];
      assert applicable[..i + 1][..i] == applicable[..i];
      var own: seq<Candidate> := [];
      for j := 0 to |policy.rules|
        invariant own == CandidatesOf(policy, policy.rules[..j], ctx)
      {
        assert policy.rules[..j + 1][..j] == policy.rules[..j];
        if RuleMatches(policy.rules[j], ctx) {
          own := own + [CandidateOf(policy, policy.rules[j])];
        }
      }
      assert policy.rules[..|policy.rules|] == policy.rules;
      candidates := candidates + own;
    }
    assert applicable[..|applicable|] == applicable;
  }

  // ---------- verdicts ----------

  lemma {:induction false} RuleIsCandidate(policy: Policy, rules: seq<Rule>, ctx: Context, j: nat)
    requires j < |rules| && RuleMatches(rules[j], ctx)
    ensures CandidateOf(policy, rules[j]) in CandidatesOf(policy, rules, ctx)
  {
    if j == |rules| - 1 {
    } else {
      RuleIsCandidate(policy, rules[..|rules| - 1], ctx, j);
    }
  }

  lemma {:induction false} PolicyIsApplicable(policies: seq<Policy>, agentDid: string, i: nat)
    requires i < |policies| && PolicyAppliesTo(policies[i], agentDid)
    ensures policies[i] in Applicable(policies, agentDid)
  {
    if i == |policies| - 1 {
    } else {
      PolicyIsApplicable(policies[..|policies| - 1], agentDid, i);
    }
  }

  lemma {:induction false} CandidateOfApplicable(applicable: seq<Policy>, ctx: Context, i: nat, j: nat)
    requires i < |applicable| && j < |applicable[i].rules| && RuleMatches(applicable[i].rules[j], ctx)
    ensures CandidateOf(applicable[i], applicable[i].rules[j]) in Candidates(applicable, ctx)
  {
    if i < |applicable| - 1 {
      CandidateOfApplicable(applicable[..|applicable| - 1], ctx, i, j);
    } else {
      RuleIsCandidate(applicable[i], applicable[i].rules, ctx, j);
    }
  }

  /** The policy names the agent, everyone, or nobody. */
  ghost predicate IsFor(policy: Policy, agentDid: string) {
    || (policy.agent == Some(agentDid) && agentDid != "")
    || (policy.agents.Some? && (agentDid in policy.agents.value || "*" in policy.agents.value))
    || ((policy.agent == None || policy.agent == Some("")) && (policy.agents == None || policy.agents == Some([])))
  }

  /** The rule is enabled, its condition holds, and its policy is for the agent. */
  ghost predicate Fires(policy: Policy, rule: Rule, agentDid: string, ctx: Context) {
    && IsFor(policy, agentDid)
    && rule.enabled != Some(false)
    && match rule.condition
       case NoCondition => true
       case Expression(text) => text == "" || E.Evaluate(text, ctx.atom)
       case Attributes(expected) => forall k | k in expected :: k in ctx.attributes && ctx.attributes[k] == expected[k]
  }

  /** What a rule that fires puts forward. */
  ghost predicate PutsForward(policy: Policy, rule: Rule, c: Candidate) {
    && c.action == (if rule.ruleAction.Some? then rule.ruleAction.value
                    else if rule.effect == Some(AllowVerdict) then Allow else Deny)
    && c.priority == (if rule.priority.Some? then rule.priority.value else 0)
    && c.scope == (if policy.scope.Some? then policy.scope.value else Global)
    && c.policyName == policy.name && c.ruleName == (if rule.name.Some? then rule.name.value else "unnamed")
    && c.reason == (if rule.description.Some? then rule.description.value else "Rule " + c.ruleName + " matched")
    && c.approvers == (if rule.approvers.Some? then rule.approvers.value else [])
  }

  lemma FiringIsCandidate(policies: seq<Policy>, agentDid: string, ctx: Context, i: nat, j: nat)
    requires i < |policies| && j < |policies[i].rules| && Fires(policies[i], policies[i].rules[j], agentDid, ctx)
    ensures CandidateOf(policies[i], policies[i].rules[j]) in Candidates(Applicable(policies, agentDid), ctx)
    ensures PutsForward(policies[i], policies[i].rules[j], CandidateOf(policies[i], policies[i].rules[j]))
  {
    PolicyIsApplicable(policies, agentDid, i);
    var applicable := Applicable(policies, agentDid);
    var k :| 0 <= k < |applicable| && applicable[k] == policies[i];
    CandidateOfApplicable(applicable, ctx, k, j);
  }

  /** In the strategy's order no rule that fires is better than the winner. */
  lemma WinnerIsBest(policies: seq<Policy>, strategy: Strategy, agentDid: string, ctx: Context, i: nat, j: nat, c: Candidate)
    requires i < |policies| && j < |policies[i].rules| && Fires(policies[i], policies[i].rules[j], agentDid, ctx)
    requires PutsForward(policies[i], policies[i].rules[j], c)
    ensures WinnerOf(policies, strategy, agentDid, ctx).Some?
    ensures Unbeaten(strategy, WinnerOf(policies, strategy, agentDid, ctx).value, c)
  {
    FiringIsCandidate(policies, agentDid, ctx, i, j);
    var candidates := Candidates(Applicable(policies, agentDid), ctx);
    assert c == CandidateOf(policies[i], policies[i].rules[j]);
    WinnerUnbeaten(strategy, candidates, c);
  }

  /** Under deny-overrides any enabled deny rule whose condition holds, in a policy for the agent, disallows, whatever
      else fires and whatever the rate limits are. */
  lemma MatchingDenyDisallows(policies: seq<Policy>, limits: RateLimits, agentDid: string, ctx: Context, now: int,
                              i: nat, j: nat)
    requires i < |policies| && j < |policies[i].rules| && Fires(policies[i], policies[i].rules[j], agentDid, ctx)
    requires var rule := policies[i].rules[j];
             rule.ruleAction == Some(Deny) || (rule.ruleAction == None && rule.effect != Some(AllowVerdict))
    ensures !Evaluate(policies, DenyOverrides, limits, agentDid, ctx, now).0.allowed
  {
    FiringIsCandidate(policies, agentDid, ctx, i, j);
    WinnerIsBest(policies, DenyOverrides, agentDid, ctx, i, j, CandidateOf(policies[i], policies[i].rules[j]));
  }

  /** The decision of an evaluation. Where a candidate wins, it is limited if the window kept for its rule is used up, and
      then denied; otherwise its action decides, and allow, warn and log permit. */
  lemma WinDecides(policies: seq<Policy>, strategy: Strategy, limits: RateLimits, call: Call)
    requires WinnerOf(policies, strategy, call.agentDid, call.ctx).Some?
    ensures var d := Evaluate(policies, strategy, limits, call.agentDid, call.ctx, call.now).0;
            var w := WinnerOf(policies, strategy, call.agentDid, call.ctx).value;
            var charged := ChargedRule(policies, strategy, call);
            && d.policyName == Some(w.policyName) && d.matchedRule == Some(w.ruleName)
            && (d.rateLimited <==>
                  && charged.Some? && charged.value.name.value in limits
                  && call.now <= limits[charged.value.name.value].resetAt
                  && var n := R.ParseLimit(charged.value.limit.value).count;
                     n.Some? && limits[charged.value.name.value].count >= n.value)
            && (d.rateLimited ==>
                  !d.allowed && d.action == Deny && d.reason == "Rate limited: " + charged.value.limit.value && d.approvers == [])
            && (!d.rateLimited ==>
                  && d.action == w.action && (d.allowed <==> w.action == Allow || w.action == Warn || w.action == Log)
                  && d.reason == w.reason && d.approvers == if w.action == RequireApproval then w.approvers else [])
  {
    var w := WinnerOf(policies, strategy, call.agentDid, call.ctx).value;
    var rule := FindRule(policies, w.policyName, w.ruleName);
    FoundRule(policies, w.policyName, w.ruleName);
    if rule.Some? && HasLimit(rule.value) {
      assert GetOr(rule.value.limit, "") == rule.value.limit.value;
    }
  }

  lemma {:induction false} FirstApplicable(policies: seq<Policy>, agentDid: string)
    ensures Applicable(policies, agentDid) == [] <==> forall i | 0 <= i < |policies| :: !PolicyAppliesTo(policies[i], agentDid)
    ensures Applicable(policies, agentDid) != [] ==> exists i | 0 <= i < |policies| ::
              && policies[i] == Applicable(policies, agentDid)[0] && PolicyAppliesTo(policies[i], agentDid)
              && forall k | 0 <= k < i :: !PolicyAppliesTo(policies[k], agentDid)
  {
    if policies == [] {
    } else {
      var init := policies[..|policies| - 1];
      FirstApplicable(init, agentDid);
      if Applicable(init, agentDid) != [] {
        var i :| 0 <= i < |init| && init[i] == Applicable(init, agentDid)[0] && PolicyAppliesTo(init[i], agentDid)
                 && forall k | 0 <= k < i :: !PolicyAppliesTo(init[k], agentDid);
        assert policies[i] == init[i] && forall k | 0 <= k < i :: policies[k] == init[k];
      } else if PolicyAppliesTo(policies[|policies| - 1], agentDid) {
        assert forall k | 0 <= k < |init| :: policies[k] == init[k];
        assert policies[|policies| - 1] == Applicable(policies, agentDid)[0];
      }
    }
  }

  /** Where no rule fires, the default of the first policy for the agent decides, and without one the call is denied. */
  lemma DefaultDecides(policies: seq<Policy>, strategy: Strategy, limits: RateLimits, call: Call)
    requires forall i, j | 0 <= i < |policies| && 0 <= j < |policies[i].rules| ::
               !Fires(policies[i], policies[i].rules[j], call.agentDid, call.ctx)
    ensures var (d, limits') := Evaluate(policies, strategy, limits, call.agentDid, call.ctx, call.now);
            && limits' == limits && !d.rateLimited && d.matchedRule == None && d.policyName == None
            && d.reason == "No matching rules, using default" && d.approvers == []
            && d.action == (if d.allowed then Allow else Deny)
            && (d.allowed <==> exists i | 0 <= i < |policies| ::
                  && IsFor(policies[i], call.agentDid) && policies[i].allowsByDefault
                  && forall k | 0 <= k < i :: !IsFor(policies[k], call.agentDid))
  {
    if WinnerOf(policies, strategy, call.agentDid, call.ctx).Some? {
      WinnerIsMatchingRule(policies, strategy, call);
    }
    forall i | 0 <= i < |policies|
      ensures PolicyAppliesTo(policies[i], call.agentDid) <==> IsFor(policies[i], call.agentDid)
    {
    }
    FirstApplicable(policies, call.agentDid);
  }

  // ---------- the rate limit over whole runs ----------

  datatype Call = Call(agentDid: string, ctx: Context, now: int)

  /** The rule whose limit an evaluation is charged to. */
  function ChargedRule(policies: seq<Policy>, strategy: Strategy, call: Call): Option<Rule> {
    var winner := WinnerOf(policies, strategy, call.agentDid, call.ctx);
    if winner.None? then None
    else
      var rule := FindRule(policies, winner.value.policyName, winner.value.ruleName);
      if rule.Some? && IsRated(rule.value) then rule else None
  }

  /** The evaluation uses up the limit kept under this name. */
  predicate ChargedTo(policies: seq<Policy>, strategy: Strategy, call: Call, name: string) {
    var rule := ChargedRule(policies, strategy, call);
    rule.Some? && rule.value.name == Some(name)
  }

  /** Of a run of evaluations, how many are charged to the name, not rate limited, and made within the interval. */
  function AdmittedCalls(policies: seq<Policy>, strategy: Strategy, limits: RateLimits, calls: seq<Call>,
                         name: string, from: int, length: int): nat
    decreases |calls|
  {
    if calls == [] then 0
    else
      var call := calls[0];
      var (decision, limits') := Evaluate(policies, strategy, limits, call.agentDid, call.ctx, call.now);
      (if ChargedTo(policies, strategy, call, name) && !decision.rateLimited && R.InInterval(call.now, from, length)
       then 1 else 0) +
      AdmittedCalls(policies, strategy, limits', calls[1..], name, from, length)
  }

  function ChargedTimes(policies: seq<Policy>, strategy: Strategy, calls: seq<Call>, name: string): seq<int> {
    if calls == [] then []
    else (if ChargedTo(policies, strategy, calls[0], name) then [calls[0].now] else []) +
         ChargedTimes(policies, strategy, calls[1..], name)
  }

  /** All rated rules of this name, in all loaded policies, have this limit; in particular if the name is unique. */
  predicate OneLimit(policies: seq<Policy>, name: string, limit: R.Limit) {
    forall i, j | 0 <= i < |policies| && 0 <= j < |policies[i].rules| ::
      policies[i].rules[j].name == Some(name) && HasLimit(policies[i].rules[j]) ==>
        LimitOf(policies[i].rules[j]) == limit
  }

  lemma {:induction false} FoundIsFirst(rules: seq<Rule>, name: string)
    requires FindByName(rules, name).Some?
    ensures exists k | 0 <= k < |rules| :: rules[k] == FindByName(rules, name).value &&
              rules[k].name == Some(name) && forall m | 0 <= m < k :: rules[m].name != Some(name)
  {
    if rules[0].name == Some(name) {
      assert rules[0] == FindByName(rules, name).value;
    } else {
      var rest := rules[1..];
      FoundIsFirst(rest, name);
      var k :| 0 <= k < |rest| && rest[k] == FindByName(rest, name).value &&
               rest[k].name == Some(name) && forall m | 0 <= m < k :: rest[m].name != Some(name);
      assert rules[k + 1] == rest[k];
      assert forall m | 0 < m < k + 1 :: rules[m] == rest[m - 1];
    }
  }

  lemma {:induction false} FoundRule(policies: seq<Policy>, policyName: string, ruleName: string)
    ensures var r := FindRule(policies, policyName, ruleName);
            r.Some? ==> exists i, j | 0 <= i < |policies| && 0 <= j < |policies[i].rules| ::
                          policies[i].rules[j] == r.value && policies[i].rules[j].name == Some(ruleName)
  {
    if policies == [] {
    } else {
      var r := FindRule(policies, policyName, ruleName);
      if policies[0].name == policyName {
        if r.Some? {
          FoundIsFirst(policies[0].rules, ruleName);
        }
      } else {
        var rest := policies[1..];
        FoundRule(rest, policyName, ruleName);
        if r.Some? {
          var i, j :| 0 <= i < |rest| && 0 <= j < |rest[i].rules| &&
                      rest[i].rules[j] == r.value && rest[i].rules[j].name == Some(ruleName);
          assert policies[i + 1].rules[j] == r.value;
        }
      }
    }
  }

  lemma ChargedLimit(policies: seq<Policy>, strategy: Strategy, call: Call, name: string, limit: R.Limit)
    requires OneLimit(policies, name, limit) && ChargedTo(policies, strategy, call, name)
    ensures LimitOf(ChargedRule(policies, strategy, call).value) == limit
  {
    var winner := WinnerOf(policies, strategy, call.agentDid, call.ctx).value;
    FoundRule(policies, winner.policyName, winner.ruleName);
  }

  /** One evaluation, seen from the rate state of one name: a limiter step if it is charged to the name, nothing
      otherwise. */
  lemma EvaluationIsLimiterStep(policies: seq<Policy>, strategy: Strategy, limits: RateLimits, call: Call,
                                name: string, limit: R.Limit)
    requires OneLimit(policies, name, limit) && name != ""
    ensures var (decision, limits') := Evaluate(policies, strategy, limits, call.agentDid, call.ctx, call.now);
            if ChargedTo(policies, strategy, call, name)
            then decision.rateLimited == R.IsLimited(StateOf(limits, name), limit, call.now) &&
                 StateOf(limits', name) == R.Next(StateOf(limits, name), limit, call.now)
            else StateOf(limits', name) == StateOf(limits, name)
  {
    if ChargedTo(policies, strategy, call, name) {
      ChargedLimit(policies, strategy, call, name, limit);
    }
  }

  lemma {:induction false} RunIsLimiterRun(policies: seq<Policy>, strategy: Strategy, limits: RateLimits, calls: seq<Call>,
                                           name: string, limit: R.Limit, from: int, length: int)
    requires OneLimit(policies, name, limit) && name != ""
    ensures AdmittedCalls(policies, strategy, limits, calls, name, from, length) ==
            R.Admitted(StateOf(limits, name), limit, ChargedTimes(policies, strategy, calls, name), from, length)
    decreases |calls|
  {
    if calls == [] {
    } else {
      var call, rest := calls[0], calls[1..];
      var times := ChargedTimes(policies, strategy, rest, name);
      EvaluationIsLimiterStep(policies, strategy, limits, call, name, limit);
      var limits' := Evaluate(policies, strategy, limits, call.agentDid, call.ctx, call.now).1;
      RunIsLimiterRun(policies, strategy, limits', rest, name, limit, from, length);
      if ChargedTo(policies, strategy, call, name) {
        assert ([call.now] + times)[1..] == times;
      } else {
        assert [] + times == times;
      }
    }
  }

  predicate ClockNonDecreasing(calls: seq<Call>) {
    forall i, j | 0 <= i < j < |calls| :: calls[i].now <= calls[j].now
  }

  lemma {:induction false} ChargedTimesNonDecreasing(policies: seq<Policy>, strategy: Strategy, calls: seq<Call>, name: string)
    requires ClockNonDecreasing(calls)
    ensures R.NonDecreasing(ChargedTimes(policies, strategy, calls, name))
    ensures forall k | 0 <= k < |ChargedTimes(policies, strategy, calls, name)| ::
              calls != [] && ChargedTimes(policies, strategy, calls, name)[k] >= calls[0].now
  {
    if calls == [] {
    } else {
      var rest := calls[1..];
      assert forall i | 0 <= i < |rest| :: rest[i] == calls[i + 1];
      assert rest != [] ==> rest[0].now >= calls[0].now;
      ChargedTimesNonDecreasing(policies, strategy, rest, name);
    }
  }

  /** In every run, no closed interval as long as the period sees more than 2n - 1 evaluations charged to the name
      get through, n being the limit's count (or 1, if that is larger). */
  lemma ChargesBounded(policies: seq<Policy>, strategy: Strategy, limits: RateLimits, calls: seq<Call>,
                       name: string, limit: R.Limit, from: int)
    requires OneLimit(policies, name, limit) && name != "" && limit.count.Some?
    requires ClockNonDecreasing(calls) && name !in limits
    ensures AdmittedCalls(policies, strategy, limits, calls, name, from, limit.period.Ms()) <= 2 * R.Quota(limit) - 1
  {
    RunIsLimiterRun(policies, strategy, limits, calls, name, limit, from, limit.period.Ms());
    ChargedTimesNonDecreasing(policies, strategy, calls, name);
    R.IntervalBound(limit, ChargedTimes(policies, strategy, calls, name), from);
  }

  /** In every run, the window that an evaluation opens sees at most n evaluations charged to its name get through. */
  lemma ChargesInWindowBounded(policies: seq<Policy>, strategy: Strategy, limits: RateLimits, calls: seq<Call>,
                               name: string, limit: R.Limit)
    requires OneLimit(policies, name, limit) && name != "" && limit.count.Some?
    requires ClockNonDecreasing(calls) && calls != [] && ChargedTo(policies, strategy, calls[0], name)
    requires R.Current(StateOf(limits, name), calls[0].now) == None
    ensures AdmittedCalls(policies, strategy, limits, calls, name, calls[0].now, limit.period.Ms()) <= R.Quota(limit)
  {
    RunIsLimiterRun(policies, strategy, limits, calls, name, limit, calls[0].now, limit.period.Ms());
    ChargedTimesNonDecreasing(policies, strategy, calls, name);
    R.WindowBound(StateOf(limits, name), limit, ChargedTimes(policies, strategy, calls, name));
  }

  // ---------- which wins are charged ----------

  lemma {:induction false} CandidateIsRule(policy: Policy, rules: seq<Rule>, ctx: Context, c: Candidate)
    requires c in CandidatesOf(policy, rules, ctx)
    ensures exists j | 0 <= j < |rules| :: RuleMatches(rules[j], ctx) && c == CandidateOf(policy, rules[j])
  {
    var last := |rules| - 1;
    if !RuleMatches(rules[last], ctx) || c != CandidateOf(policy, rules[last]) {
      CandidateIsRule(policy, rules[..last], ctx, c);
      var j :| 0 <= j < last && RuleMatches(rules[..last][j], ctx) && c == CandidateOf(policy, rules[..last][j]);
      assert rules[j] == rules[..last][j];
    }
  }

  lemma {:induction false} CandidateIsOfPolicy(applicable: seq<Policy>, ctx: Context, c: Candidate)
    requires c in Candidates(applicable, ctx)
    ensures exists policy | policy in applicable :: c in CandidatesOf(policy, policy.rules, ctx)
  {
    var last := applicable[|applicable| - 1];
    if c in CandidatesOf(last, last.rules, ctx) {
      assert last in applicable;
    } else {
      CandidateIsOfPolicy(applicable[..|applicable| - 1], ctx, c);
    }
  }

  lemma {:induction false} ApplicableIsLoaded(policies: seq<Policy>, agentDid: string, policy: Policy)
    requires policy in Applicable(policies, agentDid)
    ensures policy in policies && PolicyAppliesTo(policy, agentDid)
  {
    var last := |policies| - 1;
    if policy != policies[last] || !PolicyAppliesTo(policies[last], agentDid) {
      ApplicableIsLoaded(policies[..last], agentDid, policy);
    }
  }

  /** The call is won by the `j`-th rule of the `i`-th policy. */
  predicate Wins(policies: seq<Policy>, strategy: Strategy, call: Call, i: nat, j: nat)
    requires i < |policies| && j < |policies[i].rules|
  {
    WinnerOf(policies, strategy, call.agentDid, call.ctx) == Some(CandidateOf(policies[i], policies[i].rules[j]))
  }

  /** A winner is a rule that fires. */
  lemma WinnerIsMatchingRule(policies: seq<Policy>, strategy: Strategy, call: Call)
    requires WinnerOf(policies, strategy, call.agentDid, call.ctx).Some?
    ensures exists i, j | 0 <= i < |policies| && 0 <= j < |policies[i].rules| ::
              && Fires(policies[i], policies[i].rules[j], call.agentDid, call.ctx)
              && PutsForward(policies[i], policies[i].rules[j],
                             WinnerOf(policies, strategy, call.agentDid, call.ctx).value)
  {
    var applicable := Applicable(policies, call.agentDid);
    var candidates := Candidates(applicable, call.ctx);
    ResolveIsFirstBest(strategy, candidates);
    var c := WinnerOf(policies, strategy, call.agentDid, call.ctx).value;
    CandidateIsOfPolicy(applicable, call.ctx, c);
    var policy :| policy in applicable && c in CandidatesOf(policy, policy.rules, call.ctx);
    ApplicableIsLoaded(policies, call.agentDid, policy);
    CandidateIsRule(policy, policy.rules, call.ctx, c);
    var i :| 0 <= i < |policies| && policies[i] == policy;
    var j :| 0 <= j < |policy.rules| && RuleMatches(policy.rules[j], call.ctx) && c == CandidateOf(policy, policy.rules[j]);
    assert Fires(policies[i], policies[i].rules[j], call.agentDid, call.ctx);
  }

  /** The first of the rules that has the name also has a limit. */
  predicate FirstHasLimit(rules: seq<Rule>, name: string) {
    exists k | 0 <= k < |rules| ::
      rules[k].name == Some(name) && HasLimit(rules[k]) && forall m | 0 <= m < k :: rules[m].name != Some(name)
  }

  lemma {:induction false} FirstOfName(rules: seq<Rule>, name: string, k: nat)
    requires k < |rules| && rules[k].name == Some(name) && forall m | 0 <= m < k :: rules[m].name != Some(name)
    ensures FindByName(rules, name) == Some(rules[k])
  {
    if k == 0 {
    } else {
      assert forall m | 0 <= m < k - 1 :: rules[1..][m] == rules[m + 1];
      FirstOfName(rules[1..], name, k - 1);
    }
  }

  lemma FirstHasLimitIff(rules: seq<Rule>, name: string)
    ensures FirstHasLimit(rules, name) <==> FindByName(rules, name).Some? && HasLimit(FindByName(rules, name).value)
    ensures FindByName(rules, name).Some? ==> FindByName(rules, name).value.name == Some(name)
  {
    if FindByName(rules, name).Some? {
      FoundIsFirst(rules, name);
    }
    if FirstHasLimit(rules, name) {
      var k :| 0 <= k < |rules| && rules[k].name == Some(name) && HasLimit(rules[k]) &&
               forall m | 0 <= m < k :: rules[m].name != Some(name);
      FirstOfName(rules, name, k);
    }
  }

  lemma {:induction false} FindsInPolicy(policies: seq<Policy>, i: nat, ruleName: string)
    requires UniqueNames(policies) && i < |policies|
    ensures FindRule(policies, policies[i].name, ruleName) == FindByName(policies[i].rules, ruleName)
  {
    if i == 0 {
    } else {
      var rest := policies[1..];
      assert forall k | 0 <= k < |rest| :: rest[k] == policies[k + 1];
      FindsInPolicy(rest, i - 1, ruleName);
    }
  }

  /** A win is charged to a name exactly if the winner has that name and the first rule of the name, in the winner's
      policy, has a limit. */
  lemma ChargedIff(policies: seq<Policy>, strategy: Strategy, call: Call, i: nat, j: nat, name: string)
    requires UniqueNames(policies) && i < |policies| && j < |policies[i].rules| && Wins(policies, strategy, call, i, j)
    requires name != ""
    ensures ChargedTo(policies, strategy, call, name) <==>
            GetOr(policies[i].rules[j].name, "unnamed") == name && FirstHasLimit(policies[i].rules, name)
  {
    var ruleName := GetOr(policies[i].rules[j].name, "unnamed");
    FindsInPolicy(policies, i, ruleName);
    FirstHasLimitIff(policies[i].rules, ruleName);
  }

  /** A win of a rule whose name is first borne by a rule without a limit is neither limited nor counted. */
  lemma ShadowedLimitNeverApplies(policies: seq<Policy>, strategy: Strategy, limits: RateLimits, call: Call, i: nat, j: nat)
    requires UniqueNames(policies) && i < |policies| && j < |policies[i].rules| && Wins(policies, strategy, call, i, j)
    requires !FirstHasLimit(policies[i].rules, GetOr(policies[i].rules[j].name, "unnamed"))
    ensures Evaluate(policies, strategy, limits, call.agentDid, call.ctx, call.now) ==
            (WinnerDecision(CandidateOf(policies[i], policies[i].rules[j])), limits)
  {
    var ruleName := GetOr(policies[i].rules[j].name, "unnamed");
    FindsInPolicy(policies, i, ruleName);
    FirstHasLimitIff(policies[i].rules, ruleName);
  }

  /** For example a limited allow rule behind a disabled one of its name that has no limit. */
  lemma ShadowedByDisabled(policy: Policy, strategy: Strategy, limits: RateLimits, call: Call)
    requires |policy.rules| == 2 && policy.rules[0].name == policy.rules[1].name && policy.rules[0].name.Some?
    requires policy.rules[0].enabled == Some(false) && !HasLimit(policy.rules[0])
    requires PolicyAppliesTo(policy, call.agentDid) && RuleMatches(policy.rules[1], call.ctx)
    requires ActionOf(policy.rules[1]) == Allow
    ensures Wins([policy], strategy, call, 0, 1)
    ensures Evaluate([policy], strategy, limits, call.agentDid, call.ctx, call.now) ==
            (WinnerDecision(CandidateOf(policy, policy.rules[1])), limits)
  {
    assert [policy][..0] == [] && Applicable([policy], call.agentDid) == [policy];
    var rules := policy.rules;
    assert rules[..1][..0] == [] && rules[..1][0] == rules[0];
    assert CandidatesOf(policy, rules[..1], call.ctx) == [];
    assert CandidatesOf(policy, rules, call.ctx) == [CandidateOf(policy, rules[1])];
    assert Candidates([policy], call.ctx) == [CandidateOf(policy, rules[1])];
    ResolveIsFirstBest(strategy, Candidates([policy], call.ctx));
    ShadowedLimitNeverApplies([policy], strategy, limits, call, 0, 1);
  }

  /** Of a run of evaluations, how many are won by the rule, allowed, and made within the interval. */
  function AdmittedWins(policies: seq<Policy>, strategy: Strategy, limits: RateLimits, calls: seq<Call>,
                        i: nat, j: nat, from: int, length: int): nat
    requires i < |policies| && j < |policies[i].rules|
    decreases |calls|
  {
    if calls == [] then 0
    else
      var call := calls[0];
      var (decision, limits') := Evaluate(policies, strategy, limits, call.agentDid, call.ctx, call.now);
      (if Wins(policies, strategy, call, i, j) && decision.allowed && R.InInterval(call.now, from, length)
       then 1 else 0) +
      AdmittedWins(policies, strategy, limits', calls[1..], i, j, from, length)
  }

  /** The rule is named, and its name first borne in its policy by a rule with a limit. */
  predicate LimitApplies(policies: seq<Policy>, i: nat, j: nat, name: string)
    requires i < |policies| && j < |policies[i].rules|
  {
    policies[i].rules[j].name == Some(name) && name != "" && FirstHasLimit(policies[i].rules, name)
  }

  /** The rule's action is one that permits. */
  predicate Permitting(policies: seq<Policy>, i: nat, j: nat)
    requires i < |policies| && j < |policies[i].rules|
  {
    ActionOf(policies[i].rules[j]) in {Allow, Warn, Log}
  }

  /** The first call's share in the two counts. */
  lemma FirstCallCounts(policies: seq<Policy>, strategy: Strategy, limits: RateLimits, calls: seq<Call>,
                        i: nat, j: nat, name: string, from: int, length: int)
    requires i < |policies| && j < |policies[i].rules| && calls != []
    ensures var limits' := Evaluate(policies, strategy, limits, calls[0].agentDid, calls[0].ctx, calls[0].now).1;
            var wins := AdmittedWins(policies, strategy, limits, calls, i, j, from, length) -
                        AdmittedWins(policies, strategy, limits', calls[1..], i, j, from, length);
            var charges := AdmittedCalls(policies, strategy, limits, calls, name, from, length) -
                           AdmittedCalls(policies, strategy, limits', calls[1..], name, from, length);
            && 0 <= charges
            && (Wins(policies, strategy, calls[0], i, j) && ChargedTo(policies, strategy, calls[0], name) ==>
                  wins <= charges && (Permitting(policies, i, j) ==> wins == charges))
            && (!Wins(policies, strategy, calls[0], i, j) || !Permitting(policies, i, j) ==> wins == 0)
  {
    if Wins(policies, strategy, calls[0], i, j) {
      WinDecides(policies, strategy, limits, calls[0]);
    }
  }

  lemma {:induction false} WinsAreCharged(policies: seq<Policy>, strategy: Strategy, limits: RateLimits, calls: seq<Call>,
                                          i: nat, j: nat, name: string, from: int, length: int)
    requires UniqueNames(policies) && i < |policies| && j < |policies[i].rules| && LimitApplies(policies, i, j, name)
    ensures AdmittedWins(policies, strategy, limits, calls, i, j, from, length) <=
            AdmittedCalls(policies, strategy, limits, calls, name, from, length)
    ensures Permitting(policies, i, j) && (forall k | 0 <= k < |calls| :: Wins(policies, strategy, calls[k], i, j)) ==>
            AdmittedWins(policies, strategy, limits, calls, i, j, from, length) ==
            AdmittedCalls(policies, strategy, limits, calls, name, from, length)
    decreases |calls|
  {
    if calls == [] {
    } else {
      var call := calls[0];
      if Wins(policies, strategy, call, i, j) {
        ChargedIff(policies, strategy, call, i, j, name);
      }
      FirstCallCounts(policies, strategy, limits, calls, i, j, name, from, length);
      var limits' := Evaluate(policies, strategy, limits, call.agentDid, call.ctx, call.now).1;
      WinsAreCharged(policies, strategy, limits', calls[1..], i, j, name, from, length);
    }
  }

  lemma {:induction false} ForbiddingNeverPasses(policies: seq<Policy>, strategy: Strategy, limits: RateLimits,
                                                 calls: seq<Call>, i: nat, j: nat, from: int, length: int)
    requires i < |policies| && j < |policies[i].rules| && !Permitting(policies, i, j)
    ensures AdmittedWins(policies, strategy, limits, calls, i, j, from, length) == 0
    decreases |calls|
  {
    if calls == [] {
    } else {
      FirstCallCounts(policies, strategy, limits, calls, i, j, "", from, length);
      var limits' := Evaluate(policies, strategy, limits, calls[0].agentDid, calls[0].ctx, calls[0].now).1;
      ForbiddingNeverPasses(policies, strategy, limits', calls[1..], i, j, from, length);
    }
  }

  lemma {:induction false} ShadowedWinsPass(policies: seq<Policy>, strategy: Strategy, limits: RateLimits, calls: seq<Call>,
                                            i: nat, j: nat, from: int, length: int)
    requires UniqueNames(policies) && i < |policies| && j < |policies[i].rules| && Permitting(policies, i, j)
    requires !FirstHasLimit(policies[i].rules, GetOr(policies[i].rules[j].name, "unnamed"))
    requires forall k | 0 <= k < |calls| ::
               Wins(policies, strategy, calls[k], i, j) && R.InInterval(calls[k].now, from, length)
    ensures AdmittedWins(policies, strategy, limits, calls, i, j, from, length) == |calls|
    decreases |calls|
  {
    if calls == [] {
    } else {
      ShadowedLimitNeverApplies(policies, strategy, limits, calls[0], i, j);
      ShadowedWinsPass(policies, strategy, limits, calls[1..], i, j, from, length);
    }
  }

  /** Over every run of evaluations, by any agents in any contexts, on unchanged policies and a clock that does not
      go back: no closed interval as long as the limit's period sees more than 2n - 1 evaluations won by the rule
      that are allowed. */
  lemma RateLimitHoldsOverRuns(policies: seq<Policy>, strategy: Strategy, limits: RateLimits, calls: seq<Call>,
                               i: nat, j: nat, name: string, limit: R.Limit, from: int)
    requires UniqueNames(policies) && i < |policies| && j < |policies[i].rules| && LimitApplies(policies, i, j, name)
    requires OneLimit(policies, name, limit) && limit.count.Some?
    requires ClockNonDecreasing(calls) && name !in limits
    ensures AdmittedWins(policies, strategy, limits, calls, i, j, from, limit.period.Ms()) <= 2 * R.Quota(limit) - 1
  {
    WinsAreCharged(policies, strategy, limits, calls, i, j, name, from, limit.period.Ms());
    ChargesBounded(policies, strategy, limits, calls, name, limit, from);
  }

  /** In every run, the window that an evaluation won by the rule opens sees at most n evaluations won by it that are
      allowed. */
  lemma WindowHoldsOverRuns(policies: seq<Policy>, strategy: Strategy, limits: RateLimits, calls: seq<Call>,
                            i: nat, j: nat, name: string, limit: R.Limit)
    requires UniqueNames(policies) && i < |policies| && j < |policies[i].rules| && LimitApplies(policies, i, j, name)
    requires OneLimit(policies, name, limit) && limit.count.Some?
    requires ClockNonDecreasing(calls) && calls != [] && Wins(policies, strategy, calls[0], i, j)
    requires R.Current(StateOf(limits, name), calls[0].now) == None
    ensures AdmittedWins(policies, strategy, limits, calls, i, j, calls[0].now, limit.period.Ms()) <= R.Quota(limit)
  {
    ChargedIff(policies, strategy, calls[0], i, j, name);
    WinsAreCharged(policies, strategy, limits, calls, i, j, name, calls[0].now, limit.period.Ms());
    ChargesInWindowBounded(policies, strategy, limits, calls, name, limit);
  }

  // ---------- the bound is attained ----------

  /** The same call, made again and again. */
  function CallsAt(call: Call, times: seq<int>): seq<Call> {
    seq(|times|, i requires 0 <= i < |times| => call.(now := times[i]))
  }

  lemma {:induction false} ChargedAtAllTimes(policies: seq<Policy>, strategy: Strategy, call: Call, name: string, times: seq<int>)
    requires ChargedTo(policies, strategy, call, name)
    ensures ChargedTimes(policies, strategy, CallsAt(call, times), name) == times
  {
    var calls := CallsAt(call, times);
    if times == [] {
    } else {
      assert calls[1..] == CallsAt(call, times[1..]);
      assert ChargedTo(policies, strategy, calls[0], name);
      ChargedAtAllTimes(policies, strategy, call, name, times[1..]);
    }
  }

  /** The bound is exact: whatever the policies, a permitting rule with a positive count that wins some call is allowed
      2n - 1 times within an interval as long as its period, in a run of such calls. */
  lemma BoundIsAttainedByRuns(policies: seq<Policy>, strategy: Strategy, call: Call, i: nat, j: nat, name: string,
                              limit: R.Limit)
    requires UniqueNames(policies) && i < |policies| && j < |policies[i].rules| && LimitApplies(policies, i, j, name)
    requires OneLimit(policies, name, limit) && Wins(policies, strategy, call, i, j) && Permitting(policies, i, j)
    requires limit.count.Some? && limit.count.value >= 1
    ensures var calls := CallsAt(call, R.WorstTimes(limit.count.value, limit.period.Ms()));
            && ClockNonDecreasing(calls)
            && AdmittedWins(policies, strategy, map[], calls, i, j, 1, limit.period.Ms()) == 2 * R.Quota(limit) - 1
  {
    var times := R.WorstTimes(limit.count.value, limit.period.Ms());
    var calls := CallsAt(call, times);
    R.BoundIsAttained(limit);
    ChargedIff(policies, strategy, call, i, j, name);
    ChargedAtAllTimes(policies, strategy, call, name, times);
    RunIsLimiterRun(policies, strategy, map[], calls, name, limit, 1, limit.period.Ms());
    WinsAreCharged(policies, strategy, map[], calls, i, j, name, 1, limit.period.Ms());
  }

  /** The limit bounds the wins of the rule in every run from the start. */
  ghost predicate BoundsWins(policies: seq<Policy>, strategy: Strategy, i: nat, j: nat, limit: R.Limit)
    requires i < |policies| && j < |policies[i].rules| && limit.count.Some?
  {
    forall calls, from | ClockNonDecreasing(calls) ::
      AdmittedWins(policies, strategy, map[], calls, i, j, from, limit.period.Ms()) <= 2 * R.Quota(limit) - 1
  }

  /** A named rule that wins some call is bounded by the limit of its name exactly if it permits nothing or the first rule
      of that name in its policy has a limit. */
  lemma LimitBoundsIff(policies: seq<Policy>, strategy: Strategy, call: Call, i: nat, j: nat, name: string, limit: R.Limit)
    requires UniqueNames(policies) && i < |policies| && j < |policies[i].rules| && Wins(policies, strategy, call, i, j)
    requires policies[i].rules[j].name == Some(name) && name != ""
    requires OneLimit(policies, name, limit) && limit.count.Some?
    ensures BoundsWins(policies, strategy, i, j, limit) <==>
            !Permitting(policies, i, j) || FirstHasLimit(policies[i].rules, name)
  {
    if !Permitting(policies, i, j) {
      forall calls, from | ClockNonDecreasing(calls)
        ensures AdmittedWins(policies, strategy, map[], calls, i, j, from, limit.period.Ms()) <= 2 * R.Quota(limit) - 1
      {
        ForbiddingNeverPasses(policies, strategy, map[], calls, i, j, from, limit.period.Ms());
      }
    } else if FirstHasLimit(policies[i].rules, name) {
      forall calls, from | ClockNonDecreasing(calls)
        ensures AdmittedWins(policies, strategy, map[], calls, i, j, from, limit.period.Ms()) <= 2 * R.Quota(limit) - 1
      {
        RateLimitHoldsOverRuns(policies, strategy, map[], calls, i, j, name, limit, from);
      }
    } else {
      var calls := CallsAt(call, R.Repeat(2 * R.Quota(limit), 0));
      R.RepeatAt(2 * R.Quota(limit), 0);
      ShadowedWinsPass(policies, strategy, map[], calls, i, j, 0, limit.period.Ms());
      assert ClockNonDecreasing(calls);
    }
  }

  // ---------- rules that share a name ----------

  /** Admitted evaluations charged to the rule, one after another at one moment. */
  function ConsumeTimes(limits: RateLimits, rule: Rule, now: int, k: nat): RateLimits {
    if k == 0 then limits else Consume(ConsumeTimes(limits, rule, now, k - 1), rule, now)
  }

  lemma {:induction false} WindowAfter(limits: RateLimits, rule: Rule, now: int, k: nat)
    requires IsRated(rule) && rule.name.value !in limits && k >= 1
    requires LimitOf(rule).count.Some? ==> LimitOf(rule).count.value >= k
    ensures StateOf(ConsumeTimes(limits, rule, now, k), rule.name.value)
         == Some(R.RateLimitState(k, now + LimitOf(rule).period.Ms()))
  {
    if k == 1 {
      assert ConsumeTimes(limits, rule, now, 0) == limits;
    } else {
      WindowAfter(limits, rule, now, k - 1);
    }
  }

  /** State is kept by name alone: a rule uses up the window of another of its name, which is then limited before any
      evaluation was charged to it. */
  lemma SharedNameSharesWindow(limits: RateLimits, a: Rule, b: Rule, now: int)
    requires IsRated(a) && IsRated(b) && a.name == b.name && a.name.value !in limits
    requires LimitOf(b).count.Some? && LimitOf(b).count.value >= 1
    requires LimitOf(a).count.Some? ==> LimitOf(a).count.value >= LimitOf(b).count.value
    ensures !IsLimited(limits, b, now)
    ensures IsLimited(ConsumeTimes(limits, a, now, LimitOf(b).count.value), b, now)
  {
    WindowAfter(limits, a, now, LimitOf(b).count.value);
  }
}
