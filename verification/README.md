# Formal model of the governance toolkit's stateful core

A Dafny model of the parts of the TypeScript SDK that keep state or run an algorithm, and of the SBOM diff script, with
proofs of what they promise. `dafny verify dfyconfig.toml` checks everything.

| files | subject |
|---|---|
| `Reachability`, `CircuitBreaker`, `CascadeModel`, `CascadeContainment`, `CascadeDepth`, `CascadeLimits`, `CascadeFailure`, `CascadeRuns`, `CascadeAnswers` | agent dependency graph, per-link breakers, health, containment log |
| `PolicyExpression`, `PolicyReading`, `PolicyAtoms`, `ConflictResolution`, `RateLimit`, `PolicyEngine`, `PolicyBackends` | condition expressions, rule resolution, rate limits, external backends |
| `EditDistance` | edit distance and the typosquatting verdict |
| `Identity`, `IdentityRegistry`, `Base64Url` | identity lifecycle, delegation, recursive revocation, key encoding |
| `AuditLog` | bounded hash-chained log |
| `SqlScanner`, `SqlPieces`, `SqlTokens` | SQL comment stripper and statement splitter |
| `Placeholders`, `CredentialModel`, `CredentialVault` | credential placeholders, vault, injector |
| `Ordering`, `SbomModel`, `SbomDiff` | SBOM difference |
| `Wrappers`, `Text` | option and result types, string operations |

Objects that change are classes whose methods are proved against functions on values; the theorems are about those
functions and about runs of them. Loops of the code are loops here. A clock reading is a parameter `now`, the digest of
the audit log is a function parameter, and `lower` stands for lower-casing. A thrown error is an `Err` result, an outcome
other than `Added`, or `false`. Maps and sets are visited in arbitrary order where the code iterates over them, except where
the order shows in a result; there a sequence keeps it.

## Where the code does not do what one would expect

- The depth guard of `addDependency` (cascade-containment.ts:119-124) looks at the callee only, at one moment, and before
  the edge exists. Edges added further down later carry an agent past its limit; a dependency on itself, or one that
  closes a longer cycle, is admitted although it starts chains of every length; and where agents are shared its
  one visited set may undercount, depending on the order of the lists. Over a tree below the callee the guard is exact but
  for cycles, and which edges keep all agents within their limits is characterised exactly.
- `propagateHealth` (cascade-containment.ts:231-236) speaks of transitive dependents, but its recursive calls are made on
  degraded agents and return at once: the effect is one hop.
- `linkKey` (cascade-containment.ts:364-366) gives a link the key of another exactly if its caller's id holds `->`; failures
  of one then refuse calls over the other, and the breaker has the policy of whichever caller was linked first.
- The fixed-window limiter (policy.ts:710-731) admits up to 2n - 1 evaluations in an interval as long as the period, and
  one per window when the limit is zero.
- A condition with a path named `or` or `and` is cut in the wrong place (policy.ts:175-218); which formulas survive being
  written out and read back is characterised exactly.
- `evaluatePolicyWithBackends` (policy.ts:588-597) does not ask the backends when local approval is pending, so a backend's
  denial is not seen; otherwise the tightest verdict wins.
- `IdentityRegistry.register` (identity.ts:419-430) does not look at the parent: an identity delegated from a revoked one
  is live if it is registered after the revocation. An identity's own `revoke` (identity.ts:155-157) does not reach what
  is delegated from it; only the registry's does.
- Rate state is kept by rule name alone (policy.ts:710-731): a rule can be limited by the evaluations of another.
- The limit that applies to a winner is that of the first rule of its name in its policy (policy.ts:704-708), enabled or
  not: behind a rule of the same name without a limit, a rule's own limit never applies.
- `CircuitBreaker.state` (metrics.ts:287) takes an opening time of zero for none.
- An unterminated block comment leaves its last character in the SQL text (protocol-facets.ts:371-376), where it can
  become a statement of its own or a part of the last one.
- Substitution in object keys (credential-vault.ts:625-638) may make two keys equal; the later entry then replaces the
  earlier one, and what that asked for goes unused.
- `diff_sboms` says that any version delta is a bump (diff_sbom.py:237), but reports one only if versions were both lost
  and gained.

## Model

| member | source | states |
|---|---|---|
| `CascadeModel.LinkKeyInjective` | agent-governance-typescript/src/cascade-containment.ts:364-366 | two links have the same breaker key exactly when they are the same link, if the callers' ids hold no `->` |
| `CascadeModel.CollidingLink` | agent-governance-typescript/src/cascade-containment.ts:364-366 | a link whose caller's id holds an arrow shares its key with the link that splitting at the first arrow gives |
| `CascadeModel.LinkKeyCollidesIff` | agent-governance-typescript/src/cascade-containment.ts:364-366 | a link shares its key with some other link, of a caller without an arrow in its id, exactly if its own caller's id holds one |
| `CascadeModel.DepthIsRealChain` | agent-governance-typescript/src/cascade-containment.ts:382-394 | on every graph and from every visited set, the measured depth is the length of some chain of dependencies that starts at the agent |
| `CascadeModel.DepthRefusalIsReal` | agent-governance-typescript/src/cascade-containment.ts:119-124 | a dependency refused for depth `d` would have started a chain of `d` dependencies, and `d` is over the caller's limit |
| `CascadeModel.BlastRadiusNeverShrinks` | agent-governance-typescript/src/cascade-containment.ts:103-137 | over every run, between any two of its points, no agent's blast radius shrinks |
| `CascadeModel.BlastRadiusBound` | agent-governance-typescript/src/cascade-containment.ts:245-250 | the blast radius of a registered agent is at most the number of agents less one |
| `CascadeModel.BlastRadiusCountsTransitiveDependents` | agent-governance-typescript/src/cascade-containment.ts:245-250 | the blast radius is the number of other registered agents with a dependency path to the agent, on cyclic graphs too |
| `CascadeModel.RunExtends` | agent-governance-typescript/src/cascade-containment.ts:103-137 | over every run, agents, tiers, edges, breakers and logged events are only ever added |
| `CascadeModel.AddDependencyKeepsInvariant` | agent-governance-typescript/src/cascade-containment.ts:103-137 | a dependency, added or refused, keeps converse duplicate-free edge lists, the fanout bound, a breaker for each edge, and the fit of health and log to tiers |
| `CascadeModel.ContainmentRestoresHealth` | agent-governance-typescript/src/cascade-containment.ts:408-441 | containment ends with no failing agent under automatic quarantine and no unreachable one without it, and with a log that fits |
| `CascadeModel.RecordFailureKeepsInvariant` | agent-governance-typescript/src/cascade-containment.ts:167-198 | recording a failure keeps the invariant, log numbering included |
| `CascadeModel.RunKeepsInvariant` | agent-governance-typescript/src/cascade-containment.ts:64-356 | every run under every configuration keeps the whole invariant |
| `CascadeModel.FailureOnBreaker` | agent-governance-typescript/src/cascade-containment.ts:167-190 | what a recorded failure does to each breaker: the link's own fails, those on links to the callee are read, all others are untouched |
| `CascadeModel.BreakerReplaysOutcomes` | agent-governance-typescript/src/cascade-containment.ts:64-198 | over every run a link's breaker is the outcomes reported for the link, replayed, with reads in between |
| `CascadeModel.CanCallIsFunctionOfOutcomes` | agent-governance-typescript/src/cascade-containment.ts:142-146 | over every run with a clock that does not go back, a call is refused exactly when the failures reported for the link since its last success reach the breaker's threshold and the last one is too recent for its timeout |
| `CascadeModel.BreakersComeFromLinks` | agent-governance-typescript/src/cascade-containment.ts:103-137 | over every run each breaker belongs to a declared dependency with its key, and has the threshold and timeout of that caller's tier |
| `CascadeModel.LinkHasTierPolicy` | agent-governance-typescript/src/cascade-containment.ts:103-137 | so without arrows in the agents' ids a link has a breaker exactly if the dependency was declared, with the threshold and timeout of its own caller's tier |
| `CascadeModel.CallRefusedByTier` | agent-governance-typescript/src/cascade-containment.ts:142-146 | then a call is refused exactly when the failures since the last success reach the threshold of the caller's tier and the last one is too recent for that tier's timeout |
| `CascadeDepth.OnOnePath` | agent-governance-typescript/src/cascade-containment.ts:382-394 | of two agents of a tree that reach a third, one reaches the other |
| `CascadeDepth.DepthCoversChains` | agent-governance-typescript/src/cascade-containment.ts:382-394 | where the agents below an agent form a tree that is not visited yet, no chain is longer than the measured depth, whatever the rest of the graph is |
| `CascadeDepth.DepthIsLongestInTree` | agent-governance-typescript/src/cascade-containment.ts:382-394 | there the measured depth is the length of the longest chain |
| `CascadeDepth.PathTakesOnce` | agent-governance-typescript/src/cascade-containment.ts:103-127 | unless the new edge closes a cycle, a path takes it once or not at all |
| `CascadeDepth.ClosedCycle` | agent-governance-typescript/src/cascade-containment.ts:103-127 | a dependency that closes a cycle starts chains of every length, from both its ends |
| `CascadeDepth.GuardIsExactButForCycles` | agent-governance-typescript/src/cascade-containment.ts:103-127 | with a tree below the callee and room in the fanout, a dependency refused for depth would start too long a chain in the graph with it, and an admitted one starts too long a chain exactly if it closes a cycle |
| `CascadeDepth.RefusedIffChainTooLong` | agent-governance-typescript/src/cascade-containment.ts:103-127 | refusal and too long a chain coincide exactly unless the dependency is admitted and closes a cycle |
| `CascadeDepth.SelfDependencyIsAdmitted` | agent-governance-typescript/src/cascade-containment.ts:103-127 | an agent without dependencies may be made to depend on itself, and then starts chains of every length |
| `CascadeDepth.MutualDependencyIsAdmitted` | agent-governance-typescript/src/cascade-containment.ts:103-127 | two calls make two agents depend on each other, with chains of every length |
| `CascadeLimits.LinkKeepsLimitsIff` | agent-governance-typescript/src/cascade-containment.ts:103-137 | a new edge keeps every agent within its tier's depth exactly if it closes no cycle and each chain into the caller, the edge, and each chain from the callee are together within the limit of the agent that starts them |
| `CascadeLimits.StepKeepsLimitsIff` | agent-governance-typescript/src/cascade-containment.ts:64-356 | any operation keeps every agent within its limit exactly if the edge it adds, if any, fits in this sense |
| `CascadeLimits.RunKeepsLimitsIff` | agent-governance-typescript/src/cascade-containment.ts:64-356 | over every run, all agents are within their limits at the end exactly if every edge fitted when it was added |
| `CascadeLimits.NothingReachesTop` | agent-governance-typescript/src/cascade-containment.ts:103-137 | no chain leads to an agent that nothing depends on |
| `CascadeLimits.BottomUpRunsKeepLimits` | agent-governance-typescript/src/cascade-containment.ts:103-137 | every run in which each dependency is declared before anything depends on the caller, over a tree below the callee, keeps all agents within their limits |
| `CascadeRuns.DepthGuardIsNotAnInvariant` | agent-governance-typescript/src/cascade-containment.ts:119-124 | four calls take an untrusted agent to a chain of three, over its tier's limit of two |
| `CascadeRuns.DiamondRun` | agent-governance-typescript/src/cascade-containment.ts:103-137 | four admitted calls build a diamond |
| `CascadeRuns.DepthUndercountsDiamond` | agent-governance-typescript/src/cascade-containment.ts:382-394 | in every state that holds such a diamond the measured depth of its top is two, where a chain of three starts |
| `CascadeRuns.OtherOrderIsExact` | agent-governance-typescript/src/cascade-containment.ts:382-394 | with the other order of the top's list the measure of the diamond is three, the length of its longest chain |
| `CascadeRuns.UndercountPassesLimit` | agent-governance-typescript/src/cascade-containment.ts:103-137 | after that run all agents are within their limits, the next dependency is admitted because of the undercount, and its caller starts a chain of four under a limit of three |
| `CascadeRuns.FailuresOnKey` | agent-governance-typescript/src/cascade-containment.ts:364-366 | failures reported for one link fail the breaker of every link with the same key |
| `CascadeRuns.CollidingFailuresRefuse` | agent-governance-typescript/src/cascade-containment.ts:142-146 | for every caller with an arrow in its id and every callee, four failures reported for another link make calls over theirs refused |
| `CascadeRuns.TransitiveDependentStaysHealthy` | agent-governance-typescript/src/cascade-containment.ts:203-239 | a run in which an agent is quarantined, its direct dependent degraded, and the dependent of that one left healthy |
| `CascadeFailure.CountOpenCounts` | agent-governance-typescript/src/cascade-containment.ts:368-380 | the count of open breakers is the number of distinct dependents that are refused |
| `CascadeFailure.FailureJudgesCallee` | agent-governance-typescript/src/cascade-containment.ts:167-198 | after a failure the callee is unreachable (failing, where not quarantined automatically) exactly when the callers then refused reach the cascade threshold, degraded if there are fewer but some, else as before |
| `CascadeFailure.FailureSparesOthers` | agent-governance-typescript/src/cascade-containment.ts:167-239 | no other agent's health changes, except that the callee's healthy direct dependents become degraded when it is quarantined |
| `CascadeFailure.CalleeJudgedByOutcomes` | agent-governance-typescript/src/cascade-containment.ts:167-198 | over every run, what a failure makes of the callee is decided by the outcomes reported for the links to it |
| `CascadeFailure.CalleeJudgedByTiers` | agent-governance-typescript/src/cascade-containment.ts:167-198 | without arrows in the agents' ids, by these outcomes and the tiers of the callers alone |
| `CascadeFailure.FailureLogs` | agent-governance-typescript/src/cascade-containment.ts:167-198 | the events a failure of a registered callee appends, in order and with the callee's blast radius: the link's breaker refuses calls now; the callee is quarantined; exactly its dependents that went from healthy to degraded are named; it is unreachable under automatic rollback |
| `CascadeFailure.FailureLogsUnknown` | agent-governance-typescript/src/cascade-containment.ts:167-178 | for a callee that is not registered only the first of these |
| `CascadeFailure.FailureOpensByTier` | agent-governance-typescript/src/cascade-containment.ts:167-178 | over every run, a failure over a declared dependency logs an open breaker exactly if the failures since the last success reach the threshold of the caller's tier |
| `CascadeContainment.HealthCountsAddUp` | agent-governance-typescript/src/cascade-containment.ts:255-282 | healthy, degraded and failing-or-unreachable agents number all agents together |
| `CascadeContainment.DegradingShrinksHealthy` | agent-governance-typescript/src/cascade-containment.ts:208-225 | degrading healthy agents strictly shrinks the set of healthy ones |
| `CascadeContainment.PropagationLeavesNoneToFollow` | agent-governance-typescript/src/cascade-containment.ts:208-239 | after a propagation each agent it affected is degraded, so the recursive calls return at once, and fewer agents are healthy |
| `CascadeContainment.CascadeContainmentManager.constructor` | agent-governance-typescript/src/cascade-containment.ts:70-76 | starts with the empty state |
| `CascadeContainment.CascadeContainmentManager.CollectDependents` | agent-governance-typescript/src/cascade-containment.ts:396-406 | adds to the visited set what is reachable through dependents without passing visited agents; terminates on cycles |
| `CascadeContainment.CascadeContainmentManager.ComputeBlastRadius` | agent-governance-typescript/src/cascade-containment.ts:245-250 | returns the number of other agents reachable through dependents |
| `CascadeContainment.CascadeContainmentManager.GetDepthTo` | agent-governance-typescript/src/cascade-containment.ts:382-394 | returns the depth measure and the visited set it leaves |
| `CascadeContainment.CascadeContainmentManager.RegisterAgent` | agent-governance-typescript/src/cascade-containment.ts:81-97 | adds a healthy agent without edges, or leaves a registered one alone |
| `CascadeContainment.CascadeContainmentManager.AddDependency` | agent-governance-typescript/src/cascade-containment.ts:103-137 | registers both ends, then adds the edge at both, or throws the fanout or depth error; keeps the invariant |
| `CascadeContainment.CascadeContainmentManager.CanCall` | agent-governance-typescript/src/cascade-containment.ts:142-146 | says whether the link's breaker lets calls through, moving it to half open when its time is up |
| `CascadeContainment.CascadeContainmentManager.RecordSuccess` | agent-governance-typescript/src/cascade-containment.ts:151-162 | resets the link's breaker and makes the callee healthy |
| `CascadeContainment.CascadeContainmentManager.RecordFailure` | agent-governance-typescript/src/cascade-containment.ts:167-198 | reaches the model's state, keeps the invariant, and returns exactly the events it appended to the log, which are those of FailureLogs |
| `CascadeContainment.CascadeContainmentManager.PropagateHealth` | agent-governance-typescript/src/cascade-containment.ts:203-239 | degrades the healthy direct dependents of a failed agent and returns the events appended; the recursion ends because fewer agents are healthy |
| `CascadeContainment.CascadeContainmentManager.ApplyContainment` | agent-governance-typescript/src/cascade-containment.ts:408-441 | quarantine, propagation and rollback, as the policy of the agent demands |
| `CascadeContainment.CascadeContainmentManager.CountOpenBreakersTo` | agent-governance-typescript/src/cascade-containment.ts:368-380 | counts the open breakers on links to an agent, reading each |
| `CascadeContainment.CascadeContainmentManager.EmitEvent` | agent-governance-typescript/src/cascade-containment.ts:460-478 | appends one event with the source's blast radius and its own position in the log |
| `CascadeContainment.CascadeContainmentManager.GetBreakerState` | agent-governance-typescript/src/cascade-containment.ts:317-319 | the state of the link's breaker after the read |
| `CascadeContainment.CascadeContainmentManager.ResetAgent` | agent-governance-typescript/src/cascade-containment.ts:348-354 | makes a registered agent healthy and changes nothing else |
| `CascadeContainment.CascadeContainmentManager.Analyze` | agent-governance-typescript/src/cascade-containment.ts:255-305 | the three health counts are right and add up; open breakers, every blast radius and the risk are as counted; only breakers whose time is up change |
| `CascadeAnswers.TierLimits` | agent-governance-typescript/src/cascade-containment.ts:17-55 | the limits of each tier where nothing is configured |
| `CascadeAnswers.FallbackPolicies` | agent-governance-typescript/src/cascade-containment.ts:325-343 | an unregistered agent has the limits of a provisional one, and a tier configured with nothing the default ones |
| `CascadeAnswers.ConfiguredTier` | agent-governance-typescript/src/cascade-containment.ts:340-343 | a configured tier falls back on the default policy field by field, not on the built-in tier |
| `CascadeAnswers.AddDependencyAnswers` | agent-governance-typescript/src/cascade-containment.ts:103-127 | a dependency that is not there is refused for fanout exactly if the caller has as many as its tier allows, else for depth exactly if the measure below the callee plus one is over its tier's limit |
| `CascadeAnswers.AddDependencyAdds` | agent-governance-typescript/src/cascade-containment.ts:103-137 | an added dependency is one edge at the end of both lists and a closed breaker of the caller's policy unless its key has one; else nothing changes but that new agents are registered, provisional and healthy |
| `CascadeAnswers.SuccessHeals` | agent-governance-typescript/src/cascade-containment.ts:151-162 | a success empties and closes its link's breaker and heals the callee, and changes nothing else |
| `CascadeAnswers.ResetHeals` | agent-governance-typescript/src/cascade-containment.ts:348-354 | a reset heals one agent and changes nothing else |
| `CascadeAnswers.PropagationDegrades` | agent-governance-typescript/src/cascade-containment.ts:203-239 | propagation from a failing or unreachable agent degrades exactly its healthy direct dependents and names them in one event; from another agent it does nothing |
| `CascadeAnswers.RiskIff` | agent-governance-typescript/src/cascade-containment.ts:443-458 | the risk level by the shares of failing and degraded agents and the open breakers |
| `Metrics.CircuitBreaker.State` | agent-governance-typescript/src/metrics.ts:286-292 | returns the state, an open breaker whose timeout is up having become half open |
| `Metrics.CircuitBreaker.CanExecute` | agent-governance-typescript/src/metrics.ts:294-296 | true unless the breaker is open after the read |
| `Metrics.CircuitBreaker.OnSuccess` | agent-governance-typescript/src/metrics.ts:298-302 | clears failures and opening time and closes the breaker |
| `Metrics.CircuitBreaker.OnFailure` | agent-governance-typescript/src/metrics.ts:304-310 | counts a failure and opens the breaker at the threshold |
| `Metrics.ReplayIsHistory` | agent-governance-typescript/src/metrics.ts:276-311 | after any calls, with any threshold and clock, every field is a function of the calls since the last success |
| `Metrics.StateIsFunctionOfFailures` | agent-governance-typescript/src/metrics.ts:286-292 | with a clock that does not go back the state read depends on the failures since the last success only |
| `Metrics.RefusesIffRecentlyTripped` | agent-governance-typescript/src/metrics.ts:294-296 | with threshold at least one, a call is refused exactly when the failures since the last success reach it and the last is less than the timeout ago (an opening time of zero never elapses) |
| `Metrics.OpenedAtZeroStaysOpen` | agent-governance-typescript/src/metrics.ts:286-292 | a breaker opened at time zero refuses calls at every later time, whatever the timeout, where one opened a moment later does not |
| `Metrics.ReadsChangeNoAnswer` | agent-governance-typescript/src/metrics.ts:286-296 | leaving out all earlier reads changes no later state or answer |
| `Reachability.ClosedReachableIsReachSet` | agent-governance-typescript/src/cascade-containment.ts:396-406 | a set that holds the start, is closed under edges and holds only reachable nodes is exactly what is reachable |
| `Reachability.ReachSetMonotone` | agent-governance-typescript/src/cascade-containment.ts:396-406 | with more edges nothing becomes unreachable |
| `Reachability.ReversedReach` | agent-governance-typescript/src/cascade-containment.ts:396-406 | a path in a graph is a path back in the converse graph |
| `Reachability.VisitNext` | agent-governance-typescript/src/cascade-containment.ts:396-406 | visiting one more successor with the shared visited set keeps what the traversal has established |
| `Reachability.VisitFromScratch` | agent-governance-typescript/src/cascade-containment.ts:396-406 | a traversal from an empty visited set visits exactly what is reachable |
| `EditDistance.LevIsReached` | agent-governance-typescript/src/mcp.ts:119-132 | a script of as many edits as the recurrence says turns one text into the other |
| `EditDistance.LevOneEdit` | agent-governance-typescript/src/mcp.ts:119-132 | one edit anywhere changes the value by at most one |
| `EditDistance.LevIsLowerBound` | agent-governance-typescript/src/mcp.ts:119-132 | no script is shorter |
| `EditDistance.LevIsDistance` | agent-governance-typescript/src/mcp.ts:119-132 | so the recurrence is the least number of edits |
| `EditDistance.ZeroIffEqual` | agent-governance-typescript/src/mcp.ts:119-132 | the distance is zero exactly for equal texts |
| `EditDistance.Symmetric` | agent-governance-typescript/src/mcp.ts:119-132 | the distance is the same both ways |
| `EditDistance.TriangleInequality` | agent-governance-typescript/src/mcp.ts:119-132 | the distance by a detour is no smaller |
| `EditDistance.Levenshtein` | agent-governance-typescript/src/mcp.ts:119-132 | the nested loops over the table return the least number of insertions, deletions and substitutions |
| `EditDistance.DetectTyposquatting` | agent-governance-typescript/src/mcp.ts:213-227 | appends one finding for each known name within two edits of a different, lower-cased name |
| `EditDistance.FindingsAreExact` | agent-governance-typescript/src/mcp.ts:213-227 | a known name is reported exactly if it differs and two edits suffice, high exactly if one does |
| `EditDistance.ScanToolName` | agent-governance-typescript/src/mcp.ts:41-57 | the same over the list of known names |
| `EditDistance.ScanIsExact` | agent-governance-typescript/src/mcp.ts:41-57 | a scan reports exactly those of the fifteen known names that differ by one edit, as high, or two, as medium |
| `AuditLog.ChainedSuffix` | agent-governance-typescript/src/audit.ts:57-63 | what is left after dropping any number of entries is chained from the last hash dropped |
| `AuditLog.ChainedIff` | agent-governance-typescript/src/audit.ts:69-95 | chained means, entry by entry, that each names the hash of the one before, the first the seam, and carries the digest of its own fields |
| `AuditLog.FirstFollowsZeros` | agent-governance-typescript/src/audit.ts:28-31 | the first entry of a log nothing was evicted from names 64 zeros as its predecessor |
| `AuditLog.EvictionStep` | agent-governance-typescript/src/audit.ts:55-63 | appending to the retained end of a history and evicting the overflow leaves the retained end of the longer history |
| `AuditLog.LastHashBindsLog` | agent-governance-typescript/src/audit.ts:69-95 | under an injective digest, of two verified logs with the same last hash the shorter is the end of the longer, and its seam is the hash before it |
| `AuditLog.EqualLastHashEqualLog` | agent-governance-typescript/src/audit.ts:69-95 | verified logs of equal length and last hash are equal entry by entry, with the same seam |
| `AuditLog.TamperingIsDetected` | agent-governance-typescript/src/audit.ts:69-95 | any change to retained entries or seam that keeps length and last hash fails verification |
| `AuditLog.AuditLogger.Log` | agent-governance-typescript/src/audit.ts:24-66 | the stored entries are the last `maxEntries` of the whole history and the seam the hash before them; the new entry continues the unbounded chain |
| `AuditLog.AuditLogger.Push` | agent-governance-typescript/src/audit.ts:55-63 | storing and evicting keep the log the end of its history |
| `AuditLog.AuditLogger.Verify` | agent-governance-typescript/src/audit.ts:69-95 | true exactly if the stored entries are chained from the seam |
| `AuditLog.AuditLogger.UntamperedLogVerifies` | agent-governance-typescript/src/audit.ts:24-95 | however many entries were evicted, a log nobody changed verifies and is as long as history and bound allow |
| `Identity.CoversTransitive` | agent-governance-typescript/src/identity.ts:174-185 | a capability that covers another, wildcards included, covers all that one covers |
| `Identity.DelegationNarrows` | agent-governance-typescript/src/identity.ts:201-228 | a delegate satisfies no capability its parent does not |
| `Identity.ChainNarrows` | agent-governance-typescript/src/identity.ts:201-228 | along every chain of delegations the last satisfies only what the first does, and depth grows by the number of links |
| `Identity.GrantsIff` | agent-governance-typescript/src/identity.ts:174-185 | a capability is granted exactly if the list holds a star, the capability, or a prefix of it up to a colon with a star behind |
| `Identity.ScopeIsKept` | agent-governance-typescript/src/identity.ts:201-228 | who holds nothing but one such prefix has exactly the capabilities that start with it, and no chain of delegations from there satisfies another |
| `Identity.AgentIdentity.HasCapability` | agent-governance-typescript/src/identity.ts:174-185 | true exactly if some held capability covers the asked one |
| `Identity.AgentIdentity.Delegate` | agent-governance-typescript/src/identity.ts:201-228 | succeeds exactly if each capability handed on is satisfied by the parent, names an offending one otherwise, and builds the child one level deeper |
| `Identity.AgentIdentity.Suspend` | agent-governance-typescript/src/identity.ts:147-152 | throws on a revoked identity and leaves it revoked, else suspends |
| `Identity.AgentIdentity.Revoke` | agent-governance-typescript/src/identity.ts:155-157 | always ends revoked |
| `Identity.AgentIdentity.Reactivate` | agent-governance-typescript/src/identity.ts:160-165 | throws on a revoked identity and leaves it revoked, else activates |
| `IdentityRegistry.DescendantsAreDelegated` | agent-governance-typescript/src/identity.ts:451-465 | what walking down from an identity finds are exactly the identities whose chain of registered parents passes through it |
| `IdentityRegistry.SetStatusInRounds` | agent-governance-typescript/src/identity.ts:451-465 | changing status in two rounds of newly visited identities is one change |
| `IdentityRegistry.RevokedStaysRevoked` | agent-governance-typescript/src/identity.ts:147-165 | over every run of register, both kinds of revocation, suspend and reactivate a revoked identity stays revoked |
| `IdentityRegistry.NoLiveDescendant` | agent-governance-typescript/src/identity.ts:438-465 | if no identity is live whose registered parent is revoked, none is live that is delegated from a revoked one over any number of links |
| `IdentityRegistry.StepKeepsNoLiveHeirIff` | agent-governance-typescript/src/identity.ts:147-465 | that property is kept by a registration exactly if the new identity is not live under a revoked parent nor revoked above a live child, by an identity's own revocation exactly if no live identity names it as its parent, and by every other operation |
| `IdentityRegistry.RunKeepsNoLiveHeir` | agent-governance-typescript/src/identity.ts:147-465 | over every run whose registrations and own revocations fit in this sense, no identity is live under a revoked parent |
| `IdentityRegistry.LateDelegateIsLive` | agent-governance-typescript/src/identity.ts:419-430 | a run of three calls in which a delegate registered after its parent was revoked is live |
| `IdentityRegistry.OwnRevocationLeavesDelegate` | agent-governance-typescript/src/identity.ts:155-157 | a run of three calls in which the parent's own revocation leaves the delegate registered before it live |
| `IdentityRegistry.RevocationIsFinal` | agent-governance-typescript/src/identity.ts:438-465 | after a revocation, whatever follows, all identities then delegated from it stay revoked |
| `IdentityRegistry.RevokesExactly` | agent-governance-typescript/src/identity.ts:438-465 | the registry's revocation revokes exactly those from whom a chain of registered parents leads to the revoked identity |
| `IdentityRegistry.IdentityRegistry.Register` | agent-governance-typescript/src/identity.ts:419-430 | refuses a did that is taken and otherwise adds the identity and its sponsor entry |
| `IdentityRegistry.DidsInOrder` | agent-governance-typescript/src/identity.ts:419-430 | the sponsor index lists exactly the registrations of the sponsor, in the order in which they were made |
| `IdentityRegistry.IdentityRegistry.GetBySponsor` | agent-governance-typescript/src/identity.ts:468-473 | the identities registered for the sponsor, in registration order |
| `IdentityRegistry.IdentityRegistry.Revoke` | agent-governance-typescript/src/identity.ts:438-440 | true exactly if the did is registered; revokes exactly the registered identities delegated from it and changes no other status |
| `IdentityRegistry.IdentityRegistry.RevokeRecursive` | agent-governance-typescript/src/identity.ts:451-465 | revokes exactly what it newly visits; terminates when parents form a cycle |
| `Base64Url.BytesOfSextets` | agent-governance-typescript/src/identity.ts:536-544 | regrouping bytes into sextets and back gives the bytes, for every length modulo three |
| `Base64Url.DecodeEncode` | agent-governance-typescript/src/identity.ts:536-544 | padded encoding decodes to the bytes |
| `Base64Url.UrlEncodeShape` | agent-governance-typescript/src/identity.ts:536-538 | stripping padding and changing two symbols is all that differs from the standard alphabet |
| `Base64Url.UrlEncodeIsSafe` | agent-governance-typescript/src/identity.ts:536-538 | only letters, digits, `-` and `_` come out |
| `Base64Url.UrlSymbols` | agent-governance-typescript/src/identity.ts:536-538 | each symbol of the text is the one its six bits have in the URL-safe alphabet |
| `Base64Url.GroupsSpellSame` | agent-governance-typescript/src/identity.ts:536-538 | every three bytes and their four symbols are the same number, to base 256 and to base 64 |
| `Base64Url.LeftOverSpellsSame` | agent-governance-typescript/src/identity.ts:536-538 | one or two bytes left over are spelled with zero bits behind |
| `Base64Url.LastGroup` | agent-governance-typescript/src/identity.ts:536-538 | behind the full groups come the symbols of the bytes left over |
| `Base64Url.PaddingRebuilt` | agent-governance-typescript/src/identity.ts:540-543 | padding to a multiple of four restores the padding that was stripped |
| `Base64Url.Base64UrlDecode` | agent-governance-typescript/src/identity.ts:540-544 | the padding loop ends with the text padded to a multiple of four, and decodes that if it is an encoding |
| `Base64Url.UrlRoundTrip` | agent-governance-typescript/src/identity.ts:536-544 | decoding an encoding gives the bytes back, for every byte sequence |
| `Base64Url.UrlEncodeInjective` | agent-governance-typescript/src/identity.ts:536-544 | different bytes have different texts |
| `SqlScanner.FindLineEnd` | agent-governance-typescript/src/protocol-facets.ts:365-370 | the loop over a line comment stops at the line break |
| `SqlScanner.FindBlockEnd` | agent-governance-typescript/src/protocol-facets.ts:371-376 | the loop over a block comment stops behind its first end, or, if it has none, in front of the last character of the text |
| `SqlScanner.SkipBlockIff` | agent-governance-typescript/src/protocol-facets.ts:371-376 | what is left of a block comment is the text behind its first end exactly if it has an end, and the last character otherwise |
| `SqlScanner.UnterminatedCommentLeavesLast` | agent-governance-typescript/src/protocol-facets.ts:371-376 | stripping a text that is one unterminated comment gives a space and its last character |
| `SqlScanner.LeftOverIsStatement` | agent-governance-typescript/src/protocol-facets.ts:371-376 | so the last character of such a text is its one statement, if it is neither white space nor a semicolon |
| `SqlScanner.StripSqlComments` | agent-governance-typescript/src/protocol-facets.ts:339-382 | returns the text with each comment outside quotes replaced by a space |
| `SqlScanner.StripNeverLengthens` | agent-governance-typescript/src/protocol-facets.ts:339-382 | the result is no longer than the text |
| `SqlScanner.StripRemovesComments` | agent-governance-typescript/src/protocol-facets.ts:339-382 | no comment outside quotes is left |
| `SqlScanner.StripIsIdempotent` | agent-governance-typescript/src/protocol-facets.ts:339-382 | stripping twice is stripping once, and only comment-free text is left as it is |
| `SqlScanner.StripKeepsLiterals` | agent-governance-typescript/src/protocol-facets.ts:339-382 | every string literal, doubled-quote escapes included, comes out exactly as it was |
| `SqlScanner.SplitSqlStatements` | agent-governance-typescript/src/protocol-facets.ts:188-222 | returns the trimmed non-blank pieces between semicolons outside quotes |
| `SqlScanner.SegmentsJoin` | agent-governance-typescript/src/protocol-facets.ts:188-222 | the pieces, joined by semicolons, are the text |
| `SqlScanner.SegmentsAreSingle` | agent-governance-typescript/src/protocol-facets.ts:188-222 | every piece, scanned on its own, holds no semicolon outside quotes |
| `SqlScanner.StatementsAreSingle` | agent-governance-typescript/src/protocol-facets.ts:188-222 | every statement is trimmed and splits into itself alone |
| `SqlScanner.TrailingCommentIsIgnored` | agent-governance-typescript/src/protocol-facets.ts:143-155 | a line comment appended to text whose scan ends outside quotes and block comments changes neither the prepared query nor its statements |
| `SqlScanner.RegexExtractSql` | agent-governance-typescript/src/protocol-facets.ts:143-156 | nothing for an empty query, a refusal exactly for more than one statement, and otherwise the only statement |
| `SqlScanner.RefusedIffTwoStatements` | agent-governance-typescript/src/protocol-facets.ts:143-155 | a query is refused exactly if two pieces of the stripped text between unquoted semicolons are not blank |
| `SqlPieces.PiecesJoin` | agent-governance-typescript/src/protocol-facets.ts:188-222 | the pieces of the raw query between its semicolons outside quotes and comments, joined by semicolons, are the query |
| `SqlPieces.StripThenCutIff` | agent-governance-typescript/src/protocol-facets.ts:143-155 | cutting the stripped query gives the stripped pieces of the raw query exactly unless a block comment of more than one character is left open and the query ends in a semicolon |
| `SqlPieces.HarmfulShape` | agent-governance-typescript/src/protocol-facets.ts:371-376 | where they differ, it is in one character: the last of the open comment before the semicolon, at the end of the last piece but one |
| `SqlPieces.StatementsOfTrim` | agent-governance-typescript/src/protocol-facets.ts:144-152 | white space around a text does not matter to its statements |
| `SqlPieces.StatementsOfQuery` | agent-governance-typescript/src/protocol-facets.ts:143-155 | the statements of a query are the pieces of the raw text, stripped, trimmed, without the blank ones, exactly unless that character is there and is not white space; they are never more |
| `SqlPieces.RefusedIffTwoPieces` | agent-governance-typescript/src/protocol-facets.ts:143-155 | a query is refused exactly if two of its pieces are more than comments and white space, unless these are the only two and one of them is, but for white space, a comment left open in front of the final semicolon |
| `SqlPieces.SecondCommentIsNotRefused` | agent-governance-typescript/src/protocol-facets.ts:143-155 | a query of that exception: two such pieces, one statement, not refused |
| `SqlPieces.StripBehind` | agent-governance-typescript/src/protocol-facets.ts:339-382 | text that starts with a block comment is stripped by itself behind text whose scan ends outside quotes and comments |
| `SqlPieces.OpenCommentBehind` | agent-governance-typescript/src/protocol-facets.ts:371-376 | of a comment that does not end, behind any such text, a space and the last character are kept |
| `SqlPieces.LeftOverAddsStatement` | agent-governance-typescript/src/protocol-facets.ts:143-155 | behind a finished statement that character is a further statement, so a query of one statement followed by an open comment is refused |
| `SqlTokens.LiteralIsKept` | agent-governance-typescript/src/protocol-facets.ts:355-369 | a literal in single quotes, double quotes or backticks, its quotes doubled inside, is kept whole by stripping and splitting, whatever it holds |
| `SqlTokens.OpenLiteralIsKept` | agent-governance-typescript/src/protocol-facets.ts:355-369 | a literal that is left open is kept to the end of the text and not cut |
| `SqlTokens.StripReads` | agent-governance-typescript/src/protocol-facets.ts:339-382 | stripping a written list of tokens leaves all of them but the comments, each of which becomes a space |
| `SqlTokens.SegmentsRead` | agent-governance-typescript/src/protocol-facets.ts:188-222 | splitting cuts exactly at the semicolons that are tokens |
| `SqlTokens.StatementsRead` | agent-governance-typescript/src/protocol-facets.ts:143-152 | the statements are the groups between those semicolons, without comments, white space around them, and blank ones |
| `SqlTokens.RefusedIffTwoSay` | agent-governance-typescript/src/protocol-facets.ts:143-155 | a query is refused exactly if two groups hold more than comments and white space, whatever literals and comments hold |
| `SqlTokens.LiteralHidesNothing` | agent-governance-typescript/src/protocol-facets.ts:143-155 | a literal, whatever it holds, a semicolon, and text that says something are refused together |
| `SqlTokens.Tokens` | agent-governance-typescript/src/protocol-facets.ts:339-382 | every text whose quotes and block comments are closed is the writing of a list of tokens |
| `SqlTokens.ReadableIff` | agent-governance-typescript/src/protocol-facets.ts:339-382 | and only such texts are |
| `Text.TrimTakesSpace` | agent-governance-typescript/src/protocol-facets.ts:144-144 | trimming takes away at both ends exactly the white space of the language, by code point |
| `PolicyExpression.SplitOutsideQuotes` | agent-governance-typescript/src/policy.ts:175-198 | the loop over quote flags cuts at every separator outside quotes, leftmost first |
| `PolicyExpression.SplitJoins` | agent-governance-typescript/src/policy.ts:175-198 | the parts, joined by the separator, are the text |
| `PolicyExpression.PartsAreShorter` | agent-governance-typescript/src/policy.ts:205-218 | when a text is cut every part is strictly shorter, so the evaluator's recursion ends |
| `PolicyExpression.BareConnectiveMisparses` | agent-governance-typescript/src/policy.ts:205-218 | a formula with a path named `or` beside a connective holds but evaluates to false |
| `PolicyReading.PartsAreUncut` | agent-governance-typescript/src/policy.ts:175-198 | every part, split again, is one part |
| `PolicyReading.AndPartsAreUncut` | agent-governance-typescript/src/policy.ts:205-218 | cutting at `and` opens no new place to cut at `or` |
| `PolicyReading.EvaluateReads` | agent-governance-typescript/src/policy.ts:205-218 | on every text, evaluation is the disjunction of conjunctions the text is read as |
| `PolicyReading.SplitJoinIff` | agent-governance-typescript/src/policy.ts:175-198 | a join is cut where it was joined exactly if each piece but the last is closed in front of the separator and the last is uncut |
| `PolicyReading.PartsIff` | agent-governance-typescript/src/policy.ts:205-218 | with trimming: a join is read as its pieces exactly if they are sound |
| `PolicyReading.ReadBackIff` | agent-governance-typescript/src/policy.ts:205-218 | a formula written out is read back as itself exactly if its clauses and atoms are sound |
| `PolicyReading.RenderableIsReadBack` | agent-governance-typescript/src/policy.ts:205-218 | trimmed atoms with closed quotes and no unquoted connective, not even at an edge, are always sound; literals may hold ` or ` and ` and ` |
| `PolicyReading.EvaluateRender` | agent-governance-typescript/src/policy.ts:205-218 | evaluating a formula that is read back gives its truth value, whatever the comparisons evaluate to |
| `PolicyAtoms.PartsUncut` | agent-governance-typescript/src/policy.ts:175-198 | a text of plain characters and closed string literals is not cut if it does not hold the separator once its literals are emptied |
| `PolicyAtoms.EvaluateWritten` | agent-governance-typescript/src/policy.ts:205-218 | comparisons with no connective outside their string literals, joined by ` and ` and ` or `, evaluate to what the formula says, whatever the literals hold |
| `ConflictResolution.SortHead` | agent-governance-typescript/src/policy.ts:83-146 | the head of a stable sort is the earliest candidate the order puts first |
| `ConflictResolution.PreferredFirst` | agent-governance-typescript/src/policy.ts:83-119 | choosing among preferred actions first is choosing the best of all in an order that ranks them first |
| `ConflictResolution.FirstBestIsUnique` | agent-governance-typescript/src/policy.ts:46-146 | there is one earliest unbeaten candidate |
| `ConflictResolution.ResolveIsFirstBest` | agent-governance-typescript/src/policy.ts:46-146 | each strategy fails exactly on no candidates, else picks the earliest candidate that none beats in its order, and reports a conflict exactly if both an allow and a deny occur |
| `ConflictResolution.DenyOverridesAll` | agent-governance-typescript/src/policy.ts:83-100 | under deny-overrides the winner denies exactly if some candidate does |
| `ConflictResolution.WinnerUnbeaten` | agent-governance-typescript/src/policy.ts:46-146 | strategy by strategy: no candidate is better than the winner by action, scope or priority, and none as good comes before it |
| `RateLimit.AdmittedWithinRemaining` | agent-governance-typescript/src/policy.ts:710-731 | from any reachable state of the window, a run admits within the interval no more than what the window and one more leave |
| `RateLimit.IntervalBound` | agent-governance-typescript/src/policy.ts:710-731 | no closed interval as long as the period admits more than 2n - 1, n being the count or one if that is larger |
| `RateLimit.WindowBound` | agent-governance-typescript/src/policy.ts:710-731 | the window that an evaluation opens, whatever came before, admits no more than n |
| `RateLimit.BoundIsAttained` | agent-governance-typescript/src/policy.ts:710-731 | for every positive count the limiter reaches 2n - 1 |
| `RateLimit.LimitRoundTrip` | agent-governance-typescript/src/policy.ts:344-355 | a limit written as a number, a slash and a unit is read as that number and unit |
| `RateLimit.LimitInMilliseconds` | agent-governance-typescript/src/policy.ts:344-355 | the four units in milliseconds, and an hour for any other or none |
| `RateLimit.CountIsRead` | agent-governance-typescript/src/policy.ts:344-346 | a count may have blanks and a sign in front and anything but a digit behind |
| `RateLimit.ZeroStillAdmitsOne` | agent-governance-typescript/src/policy.ts:710-731 | a count of zero or less still admits one evaluation in every window |
| `PolicyEngine.PolicyEngine.LoadPolicy` | agent-governance-typescript/src/policy.ts:391-393 | replaces the policy of the same name in its place, or adds one at the end |
| `PolicyEngine.PolicyEngine.ClearPolicies` | agent-governance-typescript/src/policy.ts:429-432 | forgets policies and rate state |
| `PolicyEngine.PolicyEngine.IsRateLimited` | agent-governance-typescript/src/policy.ts:710-720 | drops an expired window and says whether the current one is used up; rate state is kept by rule name alone |
| `PolicyEngine.PolicyEngine.IncrementRateLimit` | agent-governance-typescript/src/policy.ts:722-731 | opens a window or counts in the current one |
| `PolicyEngine.PolicyEngine.EvaluatePolicy` | agent-governance-typescript/src/policy.ts:450-552 | the decision and the rate state the specification gives: collection in order, resolution, then the limit of the rule found by the winner's name |
| `PolicyEngine.CollectCandidates` | agent-governance-typescript/src/policy.ts:467-497 | candidates in the order of policies and rules, disabled and unmatched ones left out |
| `PolicyEngine.MatchingDenyDisallows` | agent-governance-typescript/src/policy.ts:450-552 | under deny-overrides an enabled deny rule whose condition holds, in a policy that names the agent, everyone or nobody, disallows, whatever else fires and whatever the rate state |
| `PolicyEngine.WinnerIsMatchingRule` | agent-governance-typescript/src/policy.ts:467-502 | every winner is put forward by an enabled rule whose condition holds, in a policy for the agent |
| `PolicyEngine.WinnerIsBest` | agent-governance-typescript/src/policy.ts:467-502 | if any rule fires there is a winner, and no rule that fires is better by the strategy |
| `PolicyEngine.WinDecides` | agent-governance-typescript/src/policy.ts:499-536 | where a rule wins: limited exactly if the window kept for the charged rule is used up, and then denied; otherwise allowed exactly if its action is allow, warn or log |
| `PolicyEngine.DefaultDecides` | agent-governance-typescript/src/policy.ts:539-551 | where no rule fires the default of the first policy for the agent decides, and without one the call is denied |
| `PolicyEngine.ChargedIff` | agent-governance-typescript/src/policy.ts:499-521 | a win is charged to a name exactly if the winner has that name and the first rule of the name, in the winner's policy, has a limit |
| `PolicyEngine.ShadowedLimitNeverApplies` | agent-governance-typescript/src/policy.ts:704-708 | a win of a rule whose name is first borne by a rule without a limit is decided by the rule's action, whatever the rate state, and changes none of it |
| `PolicyEngine.ShadowedByDisabled` | agent-governance-typescript/src/policy.ts:704-708 | so the limit of an allow rule behind a disabled one of its name without a limit never applies |
| `PolicyEngine.EvaluationIsLimiterStep` | agent-governance-typescript/src/policy.ts:499-521 | an evaluation charged to a name is one limiter step on the state kept under it, and any other leaves that state alone |
| `PolicyEngine.SharedNameSharesWindow` | agent-governance-typescript/src/policy.ts:710-731 | a rule uses up the window of another rule of its name: as many evaluations charged to the one as the other's count limit the other, to which none was charged |
| `PolicyEngine.RunIsLimiterRun` | agent-governance-typescript/src/policy.ts:499-521 | a run of evaluations admits for a name what the limiter admits at the times it is charged |
| `PolicyEngine.ChargesBounded` | agent-governance-typescript/src/policy.ts:499-521 | over every run on unchanged policies with one limit for the name and a clock that does not go back, no closed interval as long as the period sees more than 2n - 1 evaluations charged to the name pass the limiter |
| `PolicyEngine.RateLimitHoldsOverRuns` | agent-governance-typescript/src/policy.ts:499-521 | so for a rule whose name is first borne, in its policy, by a rule with a limit: no such interval sees more than 2n - 1 evaluations won by the rule allowed |
| `PolicyEngine.WindowHoldsOverRuns` | agent-governance-typescript/src/policy.ts:499-521 | for such a rule each window, from the win that opens it, sees at most n wins allowed |
| `PolicyEngine.LimitBoundsIff` | agent-governance-typescript/src/policy.ts:499-521 | a rule that wins some call is bounded in this way, over every run, exactly if its action permits nothing or the first rule of its name in its policy has a limit |
| `PolicyEngine.BoundIsAttainedByRuns` | agent-governance-typescript/src/policy.ts:499-521 | whatever the policies, such a rule whose action permits and whose count is positive, if it wins some call, is allowed 2n - 1 times within an interval as long as its period, in a run of such calls |
| `PolicyBackends.EffectiveIsTightest` | agent-governance-typescript/src/policy.ts:881-898 | the effective decision is the tightest of the local verdict and all backends' verdicts, an error being a denial |
| `PolicyBackends.MoreBackendsNeverLoosen` | agent-governance-typescript/src/policy.ts:881-898 | more backends, in any order, never loosen it |
| `PolicyBackends.BackendOrderDoesNotMatter` | agent-governance-typescript/src/policy.ts:881-898 | permuting backends changes nothing |
| `PolicyBackends.BackendsOnlyTighten` | agent-governance-typescript/src/policy.ts:583-630 | the result allows exactly if the local decision and every backend do, and is never looser than the local verdict |
| `PolicyBackends.TightestUnlessApprovalPending` | agent-governance-typescript/src/policy.ts:583-630 | the effective decision is the tightest verdict exactly unless approval is pending locally and a backend would deny |
| `PolicyBackends.PendingApprovalHidesDenial` | agent-governance-typescript/src/policy.ts:587-597 | in that case a denying backend leaves the approval pending |
| `PolicyBackends.DenialNamesDeniers` | agent-governance-typescript/src/policy.ts:900-911 | the deniers named are exactly the local decision or the denying backends |
| `PolicyBackends.ResultInWords` | agent-governance-typescript/src/policy.ts:583-630 | a refused call comes out as it was; else a denial where a backend denies or fails, a pending approval where none does but one asks for review, or the local decision |
| `PolicyBackends.DenialReason` | agent-governance-typescript/src/policy.ts:606-612 | the reason of such a denial lists the deniers in order |
| `Placeholders.CutPrints` | agent-governance-typescript/src/credential-vault.ts:606-610 | cutting any text into literal characters and placeholders and printing them gives the text |
| `Placeholders.PlaceholderMatches` | agent-governance-typescript/src/credential-vault.ts:51 | the placeholder of a valid handle is matched whole, in front of any text |
| `Placeholders.MatchIff` | agent-governance-typescript/src/credential-vault.ts:51 | a text starts with a placeholder exactly where the pattern matches, white space and name lengths included, and in one way |
| `Placeholders.WordStays` | agent-governance-typescript/src/credential-vault.ts:606-610 | text without braces is copied up to whatever follows |
| `Placeholders.HandleIsFilled` | agent-governance-typescript/src/credential-vault.ts:606-610 | a placeholder is replaced by its value, scanning going on behind it |
| `Placeholders.ReplaceFillsMessage` | agent-governance-typescript/src/credential-vault.ts:606-610 | a message of words and handles, written out and substituted, has each handle's value in its place, in one pass whatever the values hold; its names are its handles in order |
| `Placeholders.SubstituteNothing` | agent-governance-typescript/src/credential-vault.ts:606-610 | substituting with no values is the identity on payloads whose objects have each key once |
| `Placeholders.CollectString` | agent-governance-typescript/src/credential-vault.ts:594-604 | the match loop adds each name once, in order of first occurrence |
| `Placeholders.CollectPlaceholders` | agent-governance-typescript/src/credential-vault.ts:594-623 | the walk returns the distinct names of the payload, keys included, in order |
| `Placeholders.RequestedAreTheNames` | agent-governance-typescript/src/credential-vault.ts:594-623 | a name is collected, once, exactly if it is the name of a placeholder in some string of the payload |
| `Placeholders.SubstituteAgrees` | agent-governance-typescript/src/credential-vault.ts:606-638 | no name that was not collected makes a difference to substitution |
| `Placeholders.ReplaceTells` | agent-governance-typescript/src/credential-vault.ts:606-610 | different values of a name that occurs in a text, all else equal, make different texts |
| `Placeholders.PlainKeysStayApart` | agent-governance-typescript/src/credential-vault.ts:625-638 | keys without placeholders stay different whatever the values are |
| `Placeholders.RequestedTells` | agent-governance-typescript/src/credential-vault.ts:606-638 | in a payload whose keys hold no placeholder, different values of any collected name make different payloads |
| `Placeholders.SubstituteFills` | agent-governance-typescript/src/credential-vault.ts:606-638 | substitution fills every message of a payload, wherever it stands, and changes nothing else, as long as no two keys of an object become equal |
| `Placeholders.SubstituteTells` | agent-governance-typescript/src/credential-vault.ts:606-638 | different values of a collected name make different payloads, as long as substitution makes no two keys of an object equal |
| `Placeholders.EqualKeysLoseName` | agent-governance-typescript/src/credential-vault.ts:625-638 | where it does, a later entry replaces an earlier one, and a collected name makes no difference |
| `CredentialModel.AllowedIff` | agent-governance-typescript/src/credential-vault.ts:503-587 | a request is granted exactly if every name in it is allowlisted, stored and bound to agent and action, and the policy check, if any, agrees to agent, action, target, version and the requested names, each once, ascending |
| `CredentialModel.PolicyRefusalReadsNothing` | agent-governance-typescript/src/credential-vault.ts:533-562 | where the policy check refuses, nothing is granted and no value is read |
| `CredentialModel.EventsTellOutcome` | agent-governance-typescript/src/credential-vault.ts:503-587 | the events: one denial of the first name outside the list, or of the first name where the policy refuses, or one event for each name up to the first denied; each tells time, agent, target, action, version and reason, and a refusal's receipt action and target |
| `CredentialModel.AtMostOneHandle` | agent-governance-typescript/src/credential-vault.ts:503-587 | a granted request names one credential at most, the allowlisted one bound to agent and action |
| `CredentialModel.ReadsAtMostOneValue` | agent-governance-typescript/src/credential-vault.ts:341-376 | granted or not, an injection reads one value at most, of an allowlisted and accessible handle |
| `CredentialModel.OnlyTheBoundRecordMatters` | agent-governance-typescript/src/credential-vault.ts:503-587 | two vaults that agree on one binding and the bound handle's record give the same result and events, whatever else they hold |
| `CredentialModel.RefusalRevealsNoValue` | agent-governance-typescript/src/credential-vault.ts:503-587 | whether a request is refused, its events, and everything in a refusal are independent of all stored values |
| `CredentialModel.RefusalsLookAlike` | agent-governance-typescript/src/credential-vault.ts:152-159 | all refusals for one action and target carry the same receipt |
| `CredentialModel.GrantedMessageIsFilled` | agent-governance-typescript/src/credential-vault.ts:564-586 | a granted message comes back with the value in each handle's place and no handle unresolved |
| `CredentialModel.GrantedPayloadIsSubstituted` | agent-governance-typescript/src/credential-vault.ts:564-586 | a granted payload is the payload substituted with the stored values |
| `CredentialModel.GrantedPayloadIsFilled` | agent-governance-typescript/src/credential-vault.ts:564-586 | on a payload of messages what is granted has the stored value in the place of each handle, in keys and values at any depth, and is otherwise the payload, as long as no two keys of an object become equal |
| `CredentialModel.UnboundGetsNothing` | agent-governance-typescript/src/credential-vault.ts:326-332 | without a binding exactly the requests that name nothing and pass the policy are granted, and come back unchanged |
| `CredentialVault.CredentialVault.Put` | agent-governance-typescript/src/credential-vault.ts:256-274 | refuses a bad name and changes nothing, else writes version one or the next version, keeping the creation time |
| `CredentialVault.CredentialVault.Rotate` | agent-governance-typescript/src/credential-vault.ts:276-291 | refuses an unknown name, else changes value, version and rotation time of that record alone |
| `CredentialVault.CredentialVault.Delete` | agent-governance-typescript/src/credential-vault.ts:293-300 | removes the record and says whether there was one |
| `CredentialVault.NewProfile` | agent-governance-typescript/src/credential-vault.ts:120-127 | a profile is built exactly for an agent with a did |
| `CredentialVault.CredentialVault.RegisterProfile` | agent-governance-typescript/src/credential-vault.ts:315-317 | a profile takes the place of the agent's former one, and changes no other |
| `CredentialVault.CredentialVault.RevokeProfile` | agent-governance-typescript/src/credential-vault.ts:319-321 | afterwards the agent has no binding for any action |
| `CredentialVault.CredentialVault.ResolveInternal` | agent-governance-typescript/src/credential-vault.ts:341-376 | returns the value exactly if access is allowed, and appends the matching event |
| `CredentialVault.CredentialVault.RecordReject` | agent-governance-typescript/src/credential-vault.ts:390-392 | appends the event and changes nothing else |
| `CredentialVault.CredentialInjector.Begin` | agent-governance-typescript/src/credential-vault.ts:503-531 | the part before the policy is awaited ends the call exactly if a name is not allowlisted, with the specified answer and its event, and reads nothing else of the vault |
| `CredentialVault.CredentialInjector.Complete` | agent-governance-typescript/src/credential-vault.ts:533-587 | the part after the wait gives the answer specified for the vault as it is then, and the log gains exactly its events |
| `CredentialVault.CredentialInjector.Inject` | agent-governance-typescript/src/credential-vault.ts:503-587 | a call that nothing interrupts gives the answer specified, leaves credentials and profiles as they are, and adds exactly the events of the answer to the log |
| `CredentialVault.CredentialInjector.ResolveAll` | agent-governance-typescript/src/credential-vault.ts:564-583 | resolves all handles or stops at the first refused one, with one event for each attempt |
| `Ordering.BeforeTransitive` | scripts/diff_sbom.py:250-252 | the order of strings, character by character, is transitive |
| `Ordering.BeforeTotal` | scripts/diff_sbom.py:250-252 | and total |
| `Ordering.BeforeIff` | scripts/diff_sbom.py:250-252 | one string comes before another exactly if it is its beginning or smaller at the first difference |
| `Ordering.SortKeeps` | scripts/diff_sbom.py:250-252 | sorting keeps every element as often as it occurs |
| `Ordering.SortAscends` | scripts/diff_sbom.py:250-252 | sorting elements no two of which tie makes them strictly ascending |
| `Ordering.AscendingIsUnique` | scripts/diff_sbom.py:250-252 | there is one strictly ascending list of given elements |
| `SbomModel.CountsAddUp` | scripts/diff_sbom.py:254-268 | listed and truncated counts add up to the whole difference, and lists are within their caps |
| `SbomModel.ListedBelongs` | scripts/diff_sbom.py:231-268 | what is listed as added, removed or bumped belongs to the difference |
| `SbomModel.ListedComesFirst` | scripts/diff_sbom.py:250-259 | in each of the three lists what is cut off comes after all that is listed |
| `SbomModel.ListedInOrder` | scripts/diff_sbom.py:214-268 | an error exactly for a negative cap; else each list is as long as its cap allows and ascends by ecosystem, name and version |
| `SbomModel.AddedIff` | scripts/diff_sbom.py:231-248 | added or removed are exactly the packages of one side of whose ecosystem and name the other has none |
| `SbomModel.BumpIsLeast` | scripts/diff_sbom.py:238-243 | a bump goes from the least version only the base has to the least only the head has |
| `SbomModel.ReportsAreDisjoint` | scripts/diff_sbom.py:231-248 | added, removed and bumped packages have different keys; a bump leads from a base version the head lacks to a head version the base lacks |
| `SbomModel.LeastIsLeast` | scripts/diff_sbom.py:238-243 | the version reported is the least of those lost or gained |
| `SbomModel.SwapMirrors` | scripts/diff_sbom.py:214-268 | with the sides and caps swapped the report is mirrored: errors, added and removed lists, bumps with old and new exchanged, order and counts |
| `SbomModel.BumpedIff` | scripts/diff_sbom.py:237-243 | a package on both sides is reported exactly if neither version set includes the other |
| `SbomModel.AddedVersionIsSilent` | scripts/diff_sbom.py:237-243 | a second version of a package added by the head leaves the report empty |
| `SbomModel.ReportIsCompleteIff` | scripts/diff_sbom.py:214-268 | applying an uncut report to the base gives the head exactly if every package on both sides kept its versions or exchanged one for one |
| `SbomDiff.IndexByKey` | scripts/diff_sbom.py:190-195 | filling the dictionary in any order maps each key to exactly its versions |
| `SbomDiff.Sorted` | scripts/diff_sbom.py:234 | the versions of a set in ascending order, each once |
| `SbomDiff.AppendVersions` | scripts/diff_sbom.py:234-235 | appends the versions of one more key |
| `SbomDiff.ScanHead` | scripts/diff_sbom.py:231-243 | visiting the head's keys in any order collects exactly the added packages and the bumps, once each |
| `SbomDiff.ScanBase` | scripts/diff_sbom.py:245-248 | visiting the base's keys in any order collects exactly the removed packages, once each |
| `SbomDiff.DiffSboms` | scripts/diff_sbom.py:214-268 | an error exactly for a negative cap, else the sorted, capped report of the sets defined without any order |

## Left out

- PolicyReading.EvaluateRender: asks that the formula be read back as itself; a formula may also keep its meaning when it is read as another one with the same truth table.
- CascadeModel.DepthIsRealChain: one direction only on arbitrary graphs, since the measure undercounts where chains share an agent; where a tree lies below the agent DepthIsLongestInTree has both.
- RateLimit.IntervalBound: a window whose limit text has no parsable number never limits and is not bounded.
- CascadeContainment.CascadeContainmentManager.Analyze: the risk ratios are compared as fractions of whole numbers instead of floating-point quotients.
- AuditLog.LastHashBindsLog: an injective digest of the entry's fields stands for SHA-256 over their JSON text.
- EditDistance.DetectTyposquatting: the message text of a finding is not modelled.
- CredentialVault.CredentialInjector.Complete: the answer of the policy check is that of a function of the context it is shown; how the check arrives at it is not modelled. One clock reading stamps all events of a part.
- Base64Url.Base64UrlDecode: text that is not an encoding has no result; the library function decodes it leniently, by rules of its own.
- Placeholders.SubstituteTells: asks that substitution makes no keys equal, which RequestedTells replaces by a condition on the payload alone; a collision may also leave a name its effect.
- RateLimit.LimitRoundTrip: numbers are whole numbers of any size, where floating point has an exact range; a unit that names a property every object has, such as `constructor`, counts as unknown here, where the code finds that property and never ends the window.
- Placeholders.SubstituteNothing: object keys are kept in insertion order; the integer-like keys and `__proto__` of JavaScript objects are not modelled.
- Aliasing: returned nodes, audit entries and records are values, as if callers never changed them.
- Comparison expressions: the value of an atom is a parameter; the regular expressions and context lookups behind it are not modelled.
- Policy loading: YAML and JSON parsing, policy removal and the legacy rule API are left out.
- Protocol facets: the SQL verb of common table expressions, table and function extraction, and Kubernetes facets are left out; a context arrives extracted.
- Identity: keys, signatures, JWK, DID documents and the listing of active identities are left out.
- Credential vault: encryption, persistence, handle listing and metadata are left out; they would only add easy members.
- Audit log: filtered reads and export are left out.
- SBOM parsing, purl recognition and markdown rendering are left out; package sets are the input.
- Edit distance counts the characters of Dafny strings, not UTF-16 code units; known names are ASCII.
