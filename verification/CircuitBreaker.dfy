/**
  The circuit breaker of the metrics component: a class over three fields, and the proof that its
  answers are a function of the calls made on it.
 */
module Metrics {
  import opened Wrappers

  datatype CircuitBreakerState = Closed | Open | HalfOpen

  /** The fields of a breaker, as a value. A clock reading is passed to every transition that takes one. */
  datatype Breaker = Breaker(
    failureThreshold: int,
    resetTimeoutMs: int,
    failures: nat,
    openedAt: Option<int>,
    currentState: CircuitBreakerState)
  {
    /** Reading the state: an open breaker whose time is up becomes half open. A zero `openedAt` counts as unset. */
    function Poll(now: int): Breaker {
      if currentState == Open && openedAt.Some? && openedAt.value != 0 && now - openedAt.value >= resetTimeoutMs
      then this.(currentState := HalfOpen)
      else this
    }

    predicate CanExecute(now: int) {
      Poll(now).currentState != Open
    }

    function Succeed(): Breaker {
      this.(failures := 0, currentState := Closed, openedAt := None)
    }

    function Fail(now: int): Breaker {
      if failures + 1 >= failureThreshold
      then this.(failures := failures + 1, currentState := Open, openedAt := Some(now))
      else this.(failures := failures + 1)
    }
  }

  function NewBreaker(failureThreshold: int, resetTimeoutMs: int): Breaker {
    Breaker(failureThreshold, resetTimeoutMs, 0, None, Closed)
  }

  class CircuitBreaker {
    const failureThreshold: int
    const resetTimeoutMs: int
    var failures: nat
    var openedAt: Option<int>
    var currentState: CircuitBreakerState

    function View(): Breaker
      reads this
    {
      Breaker(failureThreshold, resetTimeoutMs, failures, openedAt, currentState)
    }

    constructor (failureThreshold: int, resetTimeoutMs: int)
      ensures View() == NewBreaker(failureThreshold, resetTimeoutMs)
    {
      this.failureThreshold := failureThreshold;
      this.resetTimeoutMs := resetTimeoutMs;
      failures := 0;
      openedAt := None;
      currentState := Closed;
    }

    /** The `state` getter, which may move an open breaker to half open. */
    method State(now: int) returns (state: CircuitBreakerState)
      modifies this
      ensures View() == old(View()).Poll(now) && state == View().currentState
    {
      if currentState == Open && openedAt.Some? && openedAt.value != 0 && now - openedAt.value >= resetTimeoutMs {
        currentState := HalfOpen;
      }
      state := currentState;
    }

    method CanExecute(now: int) returns (ok: bool)
      modifies this
      ensures View() == old(View()).Poll(now) && ok == old(View()).CanExecute(now)
    {
      var state := State(now);
      ok := state != Open;
    }

    method OnSuccess()
      modifies this
      ensures View() == old(View()).Succeed()
    {
      failures := 0;
      currentState := Closed;
      openedAt := None;
    }

    method OnFailure(now: int)
      modifies this
      ensures View() == old(View()).Fail(now)
    {
      failures := failures + 1;
      if failures >= failureThreshold {
        currentState := Open;
        openedAt := Some(now);
      }
    }
  }

  // ---------- histories ----------

  /** The calls made on one breaker: outcomes, and reads of its state (by `state` or `canExecute`). */
  datatype Call = Success | Failure(at: int) | Read(at: int)

  function React(b: Breaker, call: Call): Breaker {
    match call
    case Success => b.Succeed()
    case Failure(at) => b.Fail(at)
    case Read(at) => b.Poll(at)
  }

  /** The breaker `b` after the calls `h`, oldest first. */
  function After(b: Breaker, h: seq<Call>): Breaker {
    if h == [] then b else React(After(b, h[..|h| - 1]), h[|h| - 1])
  }

  function Replay(h: seq<Call>, threshold: int, reset: int): Breaker {
    After(NewBreaker(threshold, reset), h)
  }

  lemma {:induction false} AfterConcat(b: Breaker, h: seq<Call>, c: seq<Call>)
    ensures After(b, h + c) == After(After(b, h), c)
  {
    if c == [] {
      assert h + c == h;
    } else {
      AfterConcat(b, h, c[..|c| - 1]);
      assert (h + c)[..|h + c| - 1] == h + c[..|c| - 1];
    }
  }

  /** Failures since the last success. */
  function RecentFailures(h: seq<Call>): nat {
    if h == [] then 0
    else match h[|h| - 1]
      case Success => 0
      case Failure(_) => RecentFailures(h[..|h| - 1]) + 1
      case Read(_) => RecentFailures(h[..|h| - 1])
  }

  /** When the last failure since the last success happened, if there was one. */
  function LastFailure(h: seq<Call>): Option<int> {
    if h == [] then None
    else match h[|h| - 1]
      case Success => None
      case Failure(at) => Some(at)
      case Read(_) => LastFailure(h[..|h| - 1])
  }

  /** The failures since the last success reach the threshold. */
  predicate Tripped(h: seq<Call>, threshold: int) {
    LastFailure(h).Some? && RecentFailures(h) >= threshold
  }

  /** The timeout counted from `last` is up at time `now`. */
  predicate TimeIsUp(last: int, now: int, reset: int) {
    last != 0 && now - last >= reset
  }

  /** Some read since the last failure found the timeout up. */
  predicate ReadAfterTimeout(h: seq<Call>, last: int, reset: int) {
    h != [] && h[|h| - 1].Read? &&
    (TimeIsUp(last, h[|h| - 1].at, reset) || ReadAfterTimeout(h[..|h| - 1], last, reset))
  }

  predicate NonDecreasing(h: seq<Call>) {
    forall i, j | 0 <= i < j < |h| && !h[i].Success? && !h[j].Success? :: h[i].at <= h[j].at
  }

  /** The whole breaker as a function of its history, for any threshold and any clock. */
  lemma {:induction false} ReplayIsHistory(h: seq<Call>, threshold: int, reset: int)
    ensures var b := Replay(h, threshold, reset);
            && b.failureThreshold == threshold && b.resetTimeoutMs == reset
            && b.failures == RecentFailures(h)
            && b.openedAt == (if Tripped(h, threshold) then LastFailure(h) else None)
            && b.currentState == (if !Tripped(h, threshold) then Closed
                                  else if ReadAfterTimeout(h, LastFailure(h).value, reset) then HalfOpen
                                  else Open)
  {
    if h == [] {
    } else {
      ReplayIsHistory(h[..|h| - 1], threshold, reset);
      NoFailureNoCount(h[..|h| - 1]);
    }
  }

  lemma {:induction false} NoFailureNoCount(h: seq<Call>)
    ensures LastFailure(h).None? <==> RecentFailures(h) == 0
  {
    if h == [] {
    } else {
      NoFailureNoCount(h[..|h| - 1]);
    }
  }

  lemma {:induction false} EarlyReadsAreEarly(h: seq<Call>, now: int, last: int, reset: int)
    requires NonDecreasing(h + [Read(now)]) && ReadAfterTimeout(h, last, reset)
    ensures TimeIsUp(last, now, reset)
  {
    var g := h[..|h| - 1];
    assert (h + [Read(now)])[|h| - 1].at <= (h + [Read(now)])[|h|].at;
    if TimeIsUp(last, h[|h| - 1].at, reset) {
    } else {
      assert forall i | 0 <= i < |g| :: (g + [Read(now)])[i] == (h + [Read(now)])[i];
      assert NonDecreasing(g + [Read(now)]) by {
        forall i, j | 0 <= i < j < |g| + 1 && !(g + [Read(now)])[i].Success? && !(g + [Read(now)])[j].Success?
          ensures (g + [Read(now)])[i].at <= (g + [Read(now)])[j].at
        {
          var j' := if j == |g| then |h| else j;
          assert (h + [Read(now)])[i].at <= (h + [Read(now)])[j'].at;
        }
      }
      EarlyReadsAreEarly(g, now, last, reset);
    }
  }

  /** With a nondecreasing clock, what a read at `now` sees depends only on the failures since the last
      success: how many there were and when the last one was. */
  lemma StateIsFunctionOfFailures(h: seq<Call>, threshold: int, reset: int, now: int)
    requires NonDecreasing(h + [Read(now)])
    ensures Replay(h, threshold, reset).Poll(now).currentState ==
            if !Tripped(h, threshold) then Closed
            else if TimeIsUp(LastFailure(h).value, now, reset) then HalfOpen
            else Open
  {
    ReplayIsHistory(h, threshold, reset);
    if Tripped(h, threshold) && ReadAfterTimeout(h, LastFailure(h).value, reset) {
      EarlyReadsAreEarly(h, now, LastFailure(h).value, reset);
    }
  }

  /** A call is refused exactly when the failures since the last success number at least the threshold and
      the last of them is less than the timeout old. A clock reading of 0 at that failure keeps it refused. */
  lemma RefusesIffRecentlyTripped(h: seq<Call>, threshold: int, reset: int, now: int)
    requires threshold >= 1 && NonDecreasing(h + [Read(now)])
    ensures !Replay(h, threshold, reset).CanExecute(now) <==>
            && RecentFailures(h) >= threshold
            && LastFailure(h).Some? && (LastFailure(h).value == 0 || now - LastFailure(h).value < reset)
  {
    StateIsFunctionOfFailures(h, threshold, reset, now);
    NoFailureNoCount(h);
  }

  /** An opening time of zero counts as none: a breaker opened at time zero refuses calls for ever, where one opened a
      moment later, with a timeout that passes, does not. */
  lemma OpenedAtZeroStaysOpen(reset: int, now: int)
    requires now >= 1
    ensures !Replay([Failure(0)], 1, reset).CanExecute(now)
    ensures now - 1 >= reset ==> Replay([Failure(1)], 1, reset).CanExecute(now)
  {
    OneFailure(0, reset);
    OneFailure(1, reset);
  }

  lemma OneFailure(at: int, reset: int)
    ensures Replay([Failure(at)], 1, reset) == Breaker(1, reset, 1, Some(at), Open)
  {
    var h, b := [Failure(at)], NewBreaker(1, reset);
    assert h[..|h| - 1] == [];
    assert After(b, h) == React(After(b, []), Failure(at)) == b.Fail(at);
  }

  function WithoutReads(h: seq<Call>): seq<Call> {
    if h == [] then []
    else if h[|h| - 1].Read? then WithoutReads(h[..|h| - 1])
    else WithoutReads(h[..|h| - 1]) + [h[|h| - 1]]
  }

  lemma {:induction false} WithoutReadsKeepsFailures(h: seq<Call>)
    ensures RecentFailures(WithoutReads(h)) == RecentFailures(h)
    ensures LastFailure(WithoutReads(h)) == LastFailure(h)
  {
    if h == [] {
    } else {
      WithoutReadsKeepsFailures(h[..|h| - 1]);
      var w := WithoutReads(h[..|h| - 1]);
      assert !h[|h| - 1].Read? ==> (w + [h[|h| - 1]])[..|w|] == w;
    }
  }

  lemma {:induction false} WithoutReadsNotRead(h: seq<Call>, last: int, reset: int)
    ensures !ReadAfterTimeout(WithoutReads(h), last, reset)
  {
    if h == [] || !h[|h| - 1].Read? {
    } else {
      WithoutReadsNotRead(h[..|h| - 1], last, reset);
    }
  }

  /** Reading the state changes no later answer: dropping every earlier read leaves each answer as it was. */
  lemma ReadsChangeNoAnswer(h: seq<Call>, threshold: int, reset: int, now: int)
    requires NonDecreasing(h + [Read(now)])
    ensures Replay(h, threshold, reset).Poll(now) == Replay(WithoutReads(h), threshold, reset).Poll(now)
  {
    StateIsFunctionOfFailures(h, threshold, reset, now);
    ReplayIsHistory(h, threshold, reset);
    ReplayIsHistory(WithoutReads(h), threshold, reset);
    WithoutReadsKeepsFailures(h);
    if Tripped(h, threshold) {
      WithoutReadsNotRead(h, LastFailure(h).value, reset);
    }
  }

  lemma {:induction false} WithoutReadsConcat(h: seq<Call>, c: seq<Call>)
    ensures WithoutReads(h + c) == WithoutReads(h) + WithoutReads(c)
  {
    if c == [] {
      assert h + c == h;
    } else {
      var g := c[..|c| - 1];
      WithoutReadsConcat(h, g);
      assert (h + c)[..|h + c| - 1] == h + g;
    }
  }

  /** Calls made at one moment may follow any history that reaches up to it. */
  lemma NonDecreasingAppend(h: seq<Call>, c: seq<Call>, at: int, now: int)
    requires NonDecreasing(h + [Read(at)]) && at <= now
    requires forall i | 0 <= i < |c| && !c[i].Success? :: c[i].at == at
    ensures NonDecreasing(h + c + [Read(now)])
  {
    var k := h + c + [Read(now)];
    assert forall i | 0 <= i < |h| && !h[i].Success? :: h[i].at <= at by {
      forall i | 0 <= i < |h| && !h[i].Success?
        ensures h[i].at <= at
      {
        assert (h + [Read(at)])[i].at <= (h + [Read(at)])[|h|].at;
      }
    }
    forall i, j | 0 <= i < j < |k| && !k[i].Success? && !k[j].Success?
      ensures k[i].at <= k[j].at
    {
      if j < |h| {
        assert (h + [Read(at)])[i].at <= (h + [Read(at)])[j].at;
      }
    }
  }
}
