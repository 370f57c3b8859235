/** Conflict resolution among the rules that match: four strategies over a stable sort. */
module ConflictResolution {
  import opened Wrappers
  import Ordering

  datatype PolicyAction = Allow | Deny | Warn | RequireApproval | Log

  datatype PolicyScope = Global | Tenant | Agent

  datatype Strategy = DenyOverrides | AllowOverrides | PriorityFirstMatch | MostSpecificWins

  datatype Candidate = Candidate(
    action: PolicyAction,
    priority: int,
    scope: PolicyScope,
    policyName: string,
    ruleName: string,
    reason: string,
    approvers: seq<string>)

  datatype Resolution = Resolution(
    winningDecision: Candidate,
    strategyUsed: Strategy,
    candidatesEvaluated: nat,
    conflictDetected: bool)

  function Specificity(scope: PolicyScope): int {
    match scope
    case Global => 0
    case Tenant => 1
    case Agent => 2
  }

  // ---------- the library's stable sort ----------

  /** A comparator: negative when its first argument must come first. */
  type Comparator = (Candidate, Candidate) -> int

  function Precedes(cmp: Comparator): (Candidate, Candidate) -> bool {
    (a, b) => cmp(a, b) < 0
  }

  function StableSort(cs: seq<Candidate>, cmp: Comparator): (r: seq<Candidate>)
    ensures cs != [] ==> r != []
  {
    Ordering.Sort(cs, Precedes(cmp))
  }

  const ByPriority: Comparator := (a: Candidate, b: Candidate) => b.priority - a.priority

  const BySpecificity: Comparator := (a: Candidate, b: Candidate) =>
    var specDiff := Specificity(b.scope) - Specificity(a.scope);
    if specDiff != 0 then specDiff else b.priority - a.priority

  function WithAction(cs: seq<Candidate>, action: PolicyAction): seq<Candidate> {
    if cs == [] then []
    else (if cs[0].action == action then [cs[0]] else []) + WithAction(cs[1..], action)
  }

  // ---------- the resolver ----------

  function OverridesWinner(cs: seq<Candidate>, action: PolicyAction): Candidate
    requires cs != []
  {
    var preferred := WithAction(cs, action);
    if preferred != [] then StableSort(preferred, ByPriority)[0] else StableSort(cs, ByPriority)[0]
  }

  function Winner(strategy: Strategy, cs: seq<Candidate>): Candidate
    requires cs != []
  {
    match strategy
    case DenyOverrides => OverridesWinner(cs, Deny)
    case AllowOverrides => OverridesWinner(cs, Allow)
    case PriorityFirstMatch => StableSort(cs, ByPriority)[0]
    case MostSpecificWins => StableSort(cs, BySpecificity)[0]
  }

  predicate HasAction(cs: seq<Candidate>, action: PolicyAction) {
    exists i | 0 <= i < |cs| :: cs[i].action == action
  }

  function Resolve(strategy: Strategy, cs: seq<Candidate>): Result<Resolution, string> {
    if cs == [] then Err("Cannot resolve conflict with zero candidates")
    else if |cs| == 1 then Ok(Resolution(cs[0], strategy, 1, false))
    else Ok(Resolution(Winner(strategy, cs), strategy, |cs|, HasAction(cs, Allow) && HasAction(cs, Deny)))
  }

  // ---------- what the winner is ----------

  /** What a strategy looks at first in a candidate, before its priority. */
  function Rank(strategy: Strategy, c: Candidate): int {
    match strategy
    case DenyOverrides => if c.action == Deny then 1 else 0
    case AllowOverrides => if c.action == Allow then 1 else 0
    case PriorityFirstMatch => 0
    case MostSpecificWins => Specificity(c.scope)
  }

  /** The strategy's strict order on candidates. */
  predicate Beats(strategy: Strategy, a: Candidate, b: Candidate) {
    Rank(strategy, a) > Rank(strategy, b) || (Rank(strategy, a) == Rank(strategy, b) && a.priority > b.priority)
  }

  /** Candidate `i` is beaten by none, and it is the earliest such candidate. */
  ghost predicate FirstBest(strategy: Strategy, cs: seq<Candidate>, i: nat) {
    && i < |cs|
    && (forall j | 0 <= j < |cs| :: !Beats(strategy, cs[j], cs[i]))
    && (forall j | 0 <= j < i :: Beats(strategy, cs[i], cs[j]))
  }

  /** The winner found in one pass from the end. */
  function Pick(strategy: Strategy, cs: seq<Candidate>): Candidate
    requires cs != []
  {
    if |cs| == 1 then cs[0]
    else
      var c := Pick(strategy, cs[1..]);
      if Beats(strategy, c, cs[0]) then c else cs[0]
  }

  lemma {:induction false} PickIsFirstBest(strategy: Strategy, cs: seq<Candidate>) returns (i: nat)
    requires cs != []
    ensures FirstBest(strategy, cs, i) && Pick(strategy, cs) == cs[i]
  {
    if |cs| == 1 {
      i := 0;
    } else {
      var j := PickIsFirstBest(strategy, cs[1..]);
      assert forall k | 0 < k < |cs| :: cs[k] == cs[1..][k - 1];
      i := if Beats(strategy, cs[j + 1], cs[0]) then j + 1 else 0;
    }
  }

  lemma FirstBestIsUnique(strategy: Strategy, cs: seq<Candidate>, i: nat, j: nat)
    requires FirstBest(strategy, cs, i) && FirstBest(strategy, cs, j)
    ensures i == j
  {
    var jFirst, iFirst := Beats(strategy, cs[j], cs[i]), Beats(strategy, cs[i], cs[j]);
  }

  /** The head of a stable sort is the earliest of the candidates the order puts first. */
  lemma {:induction false} SortHead(strategy: Strategy, cs: seq<Candidate>, less: (Candidate, Candidate) -> bool)
    requires cs != []
    requires forall i, j | 0 <= i < |cs| && 0 <= j < |cs| :: less(cs[i], cs[j]) <==> Beats(strategy, cs[i], cs[j])
    ensures Ordering.Sort(cs, less)[0] == Pick(strategy, cs)
  {
    if |cs| == 1 {
    } else {
      var rest := cs[1..];
      assert forall k | 0 <= k < |rest| :: rest[k] == cs[k + 1];
      SortHead(strategy, rest, less);
      var i := PickIsFirstBest(strategy, rest);
      assert less(cs[i + 1], cs[0]) <==> Beats(strategy, cs[i + 1], cs[0]);
    }
  }

  /** Where the preferred action occurs, the best candidate overall is the best of those with that action. */
  lemma {:induction false} PreferredFirst(strategy: Strategy, action: PolicyAction, cs: seq<Candidate>)
    requires cs != []
    requires (strategy == DenyOverrides && action == Deny) || (strategy == AllowOverrides && action == Allow)
    ensures var preferred := WithAction(cs, action);
            && (preferred != [] ==> Pick(strategy, cs) == Pick(PriorityFirstMatch, preferred))
            && (preferred == [] ==> Pick(strategy, cs) == Pick(PriorityFirstMatch, cs))
            && (preferred != [] <==> Pick(strategy, cs).action == action)
  {
    var rest := WithAction(cs[1..], action);
    if |cs| > 1 {
      PreferredFirst(strategy, action, cs[1..]);
    }
    if cs[0].action == action {
      assert WithAction(cs, action) == [cs[0]] + rest && ([cs[0]] + rest)[1..] == rest;
    } else {
      assert WithAction(cs, action) == rest;
    }
  }

  lemma {:induction false} WithActionHas(cs: seq<Candidate>, action: PolicyAction)
    ensures WithAction(cs, action) != [] <==> HasAction(cs, action)
  {
    if cs == [] {
    } else {
      WithActionHas(cs[1..], action);
      assert forall k | 0 < k < |cs| :: cs[k] == cs[1..][k - 1];
      assert forall k | 0 <= k < |cs[1..]| :: cs[1..][k] == cs[k + 1];
    }
  }

  lemma WinnerIsPick(strategy: Strategy, cs: seq<Candidate>)
    requires cs != []
    ensures Winner(strategy, cs) == Pick(strategy, cs)
  {
    SortHead(PriorityFirstMatch, cs, Precedes(ByPriority));
    match strategy
    case DenyOverrides =>
      PreferredFirst(strategy, Deny, cs);
      if WithAction(cs, Deny) != [] {
        SortHead(PriorityFirstMatch, WithAction(cs, Deny), Precedes(ByPriority));
      }
    case AllowOverrides =>
      PreferredFirst(strategy, Allow, cs);
      if WithAction(cs, Allow) != [] {
        SortHead(PriorityFirstMatch, WithAction(cs, Allow), Precedes(ByPriority));
      }
    case PriorityFirstMatch =>
    case MostSpecificWins => SortHead(strategy, cs, Precedes(BySpecificity));
  }

  /** Resolution fails exactly on no candidates; otherwise it picks the earliest candidate that none beats in the
      strategy's order, and reports a conflict exactly when both allow and deny are among the candidates. */
  lemma ResolveIsFirstBest(strategy: Strategy, cs: seq<Candidate>)
    ensures Resolve(strategy, cs).Err? <==> cs == []
    ensures cs != [] ==>
              var r := Resolve(strategy, cs).value;
              && (exists i: nat :: FirstBest(strategy, cs, i) && r.winningDecision == cs[i])
              && r.strategyUsed == strategy && r.candidatesEvaluated == |cs|
              && (r.conflictDetected <==> HasAction(cs, Allow) && HasAction(cs, Deny))
  {
    if cs != [] {
      WinnerIsPick(strategy, cs);
      var i := PickIsFirstBest(strategy, cs);
    }
  }

  /** Deny overrides: one deny among the candidates is enough. */
  lemma DenyOverridesAll(cs: seq<Candidate>)
    requires cs != []
    ensures Resolve(DenyOverrides, cs).value.winningDecision.action == Deny <==> HasAction(cs, Deny)
  {
    WinnerIsPick(DenyOverrides, cs);
    PreferredFirst(DenyOverrides, Deny, cs);
    WithActionHas(cs, Deny);
  }

  // ---------- the strategies, one by one ----------

  /** By the strategy's own words, `c` is not better than `w`. */
  ghost predicate Unbeaten(strategy: Strategy, w: Candidate, c: Candidate) {
    match strategy
    case PriorityFirstMatch => w.priority >= c.priority
    case DenyOverrides =>
      (c.action == Deny ==> w.action == Deny) && (w.action != Deny || c.action == Deny ==> w.priority >= c.priority)
    case AllowOverrides =>
      (c.action == Allow ==> w.action == Allow) && (w.action != Allow || c.action == Allow ==> w.priority >= c.priority)
    case MostSpecificWins =>
      && (c.scope == Agent ==> w.scope == Agent)
      && (c.scope == Tenant ==> w.scope == Agent || w.scope == Tenant)
      && (w.scope == c.scope ==> w.priority >= c.priority)
  }

  /** No candidate is better than the winner, and none that is as good comes before it. */
  lemma WinnerUnbeaten(strategy: Strategy, cs: seq<Candidate>, c: Candidate)
    requires c in cs
    ensures var w := Resolve(strategy, cs).value.winningDecision;
            && w in cs && Unbeaten(strategy, w, c)
            && exists i | 0 <= i < |cs| :: cs[i] == w && forall j | 0 <= j < i :: !Unbeaten(strategy, cs[j], w)
  {
    ResolveIsFirstBest(strategy, cs);
    var w := Resolve(strategy, cs).value.winningDecision;
    var i: nat :| FirstBest(strategy, cs, i) && w == cs[i];
    var k :| 0 <= k < |cs| && cs[k] == c;
    assert !Beats(strategy, cs[k], cs[i]);
    forall j | 0 <= j < i
      ensures !Unbeaten(strategy, cs[j], w)
    {
      assert Beats(strategy, cs[i], cs[j]);
    }
  }
}
