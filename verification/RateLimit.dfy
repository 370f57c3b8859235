/** The fixed-window rate limiter of one rule, and how many evaluations it can admit in an interval of time. */
module RateLimit {
  import opened Wrappers
  import opened Text

  datatype Period = Second | Minute | Hour | Day {
    function Ms(): int {
      match this
      case Second => 1_000
      case Minute => 60_000
      case Hour => 3_600_000
      case Day => 86_400_000
    }
  }

  /** A parsed limit; a count that is not a number never limits. */
  datatype Limit = Limit(count: Option<int>, period: Period)

  // ---------- reading a limit ----------

  predicate IsDigit(c: char) {
    '0' <= c <= '9'
  }

  function LeadingDigits(s: string): string {
    if s != [] && IsDigit(s[0]) then [s[0]] + LeadingDigits(s[1..]) else []
  }

  function DecimalValue(digits: string): int {
    if digits == [] then 0
    else 10 * DecimalValue(digits[..|digits| - 1]) + (digits[|digits| - 1] as int - '0' as int)
  }

  /** The number a text starts with, after white space; what follows it is ignored. */
  function ParseInt(s: string): Option<int> {
    var t := TrimStart(s);
    var signed := t != [] && (t[0] == '-' || t[0] == '+');
    var digits := LeadingDigits(if signed then t[1..] else t);
    if digits == [] then None
    else Some(if signed && t[0] == '-' then -DecimalValue(digits) else DecimalValue(digits))
  }

  function UpToSlash(s: string): string {
    if s == [] || s[0] == '/' then [] else [s[0]] + UpToSlash(s[1..])
  }

  function BehindSlash(s: string): string {
    if s == [] then [] else if s[0] == '/' then s[1..] else BehindSlash(s[1..])
  }

  /** A unit that is missing or unknown counts as an hour. */
  function PeriodOf(unit: string): Period {
    if unit == "second" then Second else if unit == "minute" then Minute else if unit == "day" then Day else Hour
  }

  function ParseLimit(text: string): Limit {
    Limit(ParseInt(UpToSlash(text)), PeriodOf(UpToSlash(BehindSlash(text))))
  }

  function Decimal(n: nat): string
    decreases n
  {
    if n < 10 then [Digit(n)] else Decimal(n / 10) + [Digit(n % 10)]
  }

  function Unit(period: Period): string {
    match period
    case Second => "second"
    case Minute => "minute"
    case Hour => "hour"
    case Day => "day"
  }

  function Digit(d: nat): char
    requires d < 10
  {
    ('0' as int + d) as char
  }

  lemma DecimalValueSnoc(digits: string, d: nat)
    requires d < 10
    ensures DecimalValue(digits + [Digit(d)]) == 10 * DecimalValue(digits) + d
    ensures IsDigit(Digit(d))
  {
    assert (digits + [Digit(d)])[..|digits|] == digits;
  }

  lemma {:induction false} DecimalIsDigits(n: nat)
    ensures Decimal(n) != [] && (forall i | 0 <= i < |Decimal(n)| :: IsDigit(Decimal(n)[i]))
    ensures DecimalValue(Decimal(n)) == n
    decreases n
  {
    if n < 10 {
      DecimalValueSnoc([], n);
      assert Decimal(n) == [] + [Digit(n)];
    } else {
      DecimalIsDigits(n / 10);
      DecimalValueSnoc(Decimal(n / 10), n % 10);
      assert 10 * (n / 10) + n % 10 == n;
    }
  }

  lemma {:induction false} LeadingDigitsOf(digits: string)
    requires forall i | 0 <= i < |digits| :: IsDigit(digits[i])
    ensures LeadingDigits(digits) == digits
  {
    if digits == [] {
    } else {
      LeadingDigitsOf(digits[1..]);
    }
  }

  lemma {:induction false} SlashSplits(before: string, behind: string)
    requires '/' !in before
    ensures UpToSlash(before) == before
    ensures UpToSlash(before + "/" + behind) == before && BehindSlash(before + "/" + behind) == behind
  {
    var s := before + "/" + behind;
    if before == [] {
      assert s[0] == '/' && s[1..] == behind;
    } else {
      SlashSplits(before[1..], behind);
      assert s[0] == before[0] && s[1..] == before[1..] + "/" + behind;
    }
  }

  lemma UnitHasNoSlash(period: Period)
    ensures '/' !in Unit(period)
  {
    match period
    case Second => assert Unit(period) == ['s', 'e', 'c', 'o', 'n', 'd'];
    case Minute => assert Unit(period) == ['m', 'i', 'n', 'u', 't', 'e'];
    case Hour => assert Unit(period) == ['h', 'o', 'u', 'r'];
    case Day => assert Unit(period) == ['d', 'a', 'y'];
  }

  lemma UnitRead(period: Period)
    ensures PeriodOf(Unit(period)) == period
  {
    assert "hour"[0] == 'h' && "second"[0] == 's' && "minute"[0] == 'm' && "day"[0] == 'd';
  }

  /** A limit written as a number, a slash and a unit is read as that. */
  lemma LimitRoundTrip(n: nat, period: Period)
    ensures ParseLimit(Decimal(n) + "/" + Unit(period)) == Limit(Some(n), period)
  {
    DecimalIsDigits(n);
    DecimalRead(Decimal(n));
    SlashSplits(Decimal(n), Unit(period));
    UnitHasNoSlash(period);
    SlashSplits(Unit(period), "");
    UnitRead(period);
  }

  /** The periods in milliseconds; a limit whose unit is missing or unknown counts by the hour. */
  lemma LimitInMilliseconds(n: nat, unit: string)
    requires '/' !in unit
    ensures ParseLimit(Decimal(n) + "/" + unit).count == Some(n)
    ensures ParseLimit(Decimal(n) + "/" + unit).period.Ms() ==
            if unit == "second" then 1_000 else if unit == "minute" then 60_000
            else if unit == "day" then 24 * 3_600_000 else 3_600_000
    ensures ParseLimit(Decimal(n)) == Limit(Some(n), Hour) && Hour.Ms() == 3_600_000
  {
    DecimalIsDigits(n);
    DecimalRead(Decimal(n));
    SlashSplits(Decimal(n), unit);
    SlashSplits(unit, "");
    NoSlashNothingBehind(Decimal(n));
  }

  lemma {:induction false} NoSlashNothingBehind(s: string)
    requires '/' !in s
    ensures BehindSlash(s) == []
  {
    if s == [] {
    } else {
      NoSlashNothingBehind(s[1..]);
    }
  }

  /** The count of a limit may have blanks and a sign in front and anything but a digit behind. */
  lemma CountIsRead(space: string, digits: string, behind: string)
    requires forall i | 0 <= i < |space| :: space[i] == ' '
    requires digits != [] && forall i | 0 <= i < |digits| :: '0' <= digits[i] <= '9'
    requires behind == [] || !('0' <= behind[0] <= '9')
    ensures ParseInt(space + (digits + behind)) == Some(DecimalValue(digits))
    ensures ParseInt(space + (['-'] + (digits + behind))) == Some(-DecimalValue(digits))
    ensures ParseInt(space + (['+'] + (digits + behind))) == Some(DecimalValue(digits))
  {
    SpaceIgnored(space, digits + behind);
    SpaceIgnored(space, ['-'] + (digits + behind));
    SpaceIgnored(space, ['+'] + (digits + behind));
    PlainCount(digits, behind);
    SignedCount('-', digits, behind);
    SignedCount('+', digits, behind);
  }

  lemma PlainCount(digits: string, behind: string)
    requires digits != [] && forall i | 0 <= i < |digits| :: '0' <= digits[i] <= '9'
    requires behind == [] || !('0' <= behind[0] <= '9')
    ensures ParseInt(digits + behind) == Some(DecimalValue(digits))
  {
    DigitsLead(digits, behind);
    PlainRead(digits + behind, digits);
  }

  lemma PlainRead(u: string, digits: string)
    requires LeadingDigits(u) == digits != []
    ensures ParseInt(u) == Some(DecimalValue(digits))
  {
    assert IsDigit(u[0]) && TrimStart(u) == u;
  }

  lemma SignedCount(sign: char, digits: string, behind: string)
    requires sign == '-' || sign == '+'
    requires digits != [] && forall i | 0 <= i < |digits| :: '0' <= digits[i] <= '9'
    requires behind == [] || !('0' <= behind[0] <= '9')
    ensures ParseInt([sign] + (digits + behind)) == Some(if sign == '-' then -DecimalValue(digits) else DecimalValue(digits))
  {
    DigitsLead(digits, behind);
    SignedRead(sign, digits + behind, digits);
  }

  lemma SignedRead(sign: char, u: string, digits: string)
    requires (sign == '-' || sign == '+') && LeadingDigits(u) == digits != []
    ensures ParseInt([sign] + u) == Some(if sign == '-' then -DecimalValue(digits) else DecimalValue(digits))
  {
    var t := [sign] + u;
    assert t[0] == sign && t[1..] == u && !IsSpace(sign);
    assert TrimStart(t) == t;
  }

  lemma SpaceIgnored(space: string, t: string)
    requires forall i | 0 <= i < |space| :: space[i] == ' '
    ensures ParseInt(space + t) == ParseInt(t)
  {
    SpaceDropped(space, t);
  }

  lemma {:induction false} SpaceDropped(space: string, t: string)
    requires forall i | 0 <= i < |space| :: space[i] == ' '
    ensures TrimStart(space + t) == TrimStart(t)
  {
    if space == [] {
      assert space + t == t;
    } else {
      assert (space + t)[0] == ' ' && (space + t)[1..] == space[1..] + t;
      SpaceDropped(space[1..], t);
    }
  }

  lemma {:induction false} DigitsLead(digits: string, behind: string)
    requires forall i | 0 <= i < |digits| :: '0' <= digits[i] <= '9'
    requires behind == [] || !('0' <= behind[0] <= '9')
    ensures LeadingDigits(digits + behind) == digits
  {
    if digits == [] {
      assert digits + behind == behind;
    } else {
      assert (digits + behind)[0] == digits[0] && (digits + behind)[1..] == digits[1..] + behind;
      DigitsLead(digits[1..], behind);
    }
  }

  lemma DecimalRead(digits: string)
    requires digits != [] && forall i | 0 <= i < |digits| :: IsDigit(digits[i])
    ensures ParseInt(digits) == Some(DecimalValue(digits)) && '/' !in digits
  {
    LeadingDigitsOf(digits);
    assert IsDigit(digits[0]);
    assert TrimStart(digits) == digits;
  }

  // ---------- the window ----------

  datatype RateLimitState = RateLimitState(count: int, resetAt: int)

  /** The state after an expired window has been dropped. */
  function Current(st: Option<RateLimitState>, now: int): Option<RateLimitState> {
    if st.Some? && now > st.value.resetAt then None else st
  }

  predicate IsLimited(st: Option<RateLimitState>, limit: Limit, now: int) {
    var cur := Current(st, now);
    cur.Some? && limit.count.Some? && cur.value.count >= limit.count.value
  }

  function Increment(st: Option<RateLimitState>, limit: Limit, now: int): RateLimitState {
    if st.None? then RateLimitState(1, now + limit.period.Ms())
    else RateLimitState(st.value.count + 1, st.value.resetAt)
  }

  /** The state after one evaluation won by the rule. */
  function Next(st: Option<RateLimitState>, limit: Limit, now: int): Option<RateLimitState> {
    if IsLimited(st, limit, now) then Current(st, now) else Some(Increment(Current(st, now), limit, now))
  }

  predicate InInterval(t: int, from: int, length: int) {
    from <= t <= from + length
  }

  /** How many of the evaluations made at `times` are admitted in the closed interval of the given length from `from`. */
  function Admitted(st: Option<RateLimitState>, limit: Limit, times: seq<int>, from: int, length: int): nat
    decreases |times|
  {
    if times == [] then 0
    else
      (if !IsLimited(st, limit, times[0]) && InInterval(times[0], from, length) then 1 else 0) +
      Admitted(Next(st, limit, times[0]), limit, times[1..], from, length)
  }

  predicate NonDecreasing(times: seq<int>) {
    forall i, j | 0 <= i < j < |times| :: times[i] <= times[j]
  }

  /** What one window admits: the count of the limit, but always at least one. */
  function Quota(limit: Limit): int
    requires limit.count.Some?
  {
    if limit.count.value < 1 then 1 else limit.count.value
  }

  lemma {:induction false} NothingAfterInterval(st: Option<RateLimitState>, limit: Limit, times: seq<int>, from: int, length: int)
    requires NonDecreasing(times) && (times != [] ==> times[0] > from + length)
    ensures Admitted(st, limit, times, from, length) == 0
    decreases |times|
  {
    if times == [] {
    } else {
      assert |times| > 1 ==> times[1] >= times[0];
      NothingAfterInterval(Next(st, limit, times[0]), limit, times[1..], from, length);
    }
  }

  /** A bound on what can still be admitted, by where the current window ends. */
  function Remaining(st: Option<RateLimitState>, limit: Limit, from: int): int
    requires limit.count.Some?
  {
    var quota, length := Quota(limit), limit.period.Ms();
    if st.None? || st.value.resetAt < from then 2 * quota - 1
    else if st.value.resetAt >= from + length then quota - st.value.count
    else 2 * quota - st.value.count
  }

  /** The states a run can be in: a window has admitted at least one evaluation and at most its quota. */
  predicate Reachable(st: Option<RateLimitState>, limit: Limit)
    requires limit.count.Some?
  {
    st.Some? ==> 1 <= st.value.count <= Quota(limit)
  }

  lemma {:induction false} AdmittedWithinRemaining(st: Option<RateLimitState>, limit: Limit, times: seq<int>, from: int)
    requires limit.count.Some? && Reachable(st, limit) && NonDecreasing(times)
    ensures Admitted(st, limit, times, from, limit.period.Ms()) <= Remaining(st, limit, from)
    decreases |times|
  {
    var length := limit.period.Ms();
    if times == [] {
    } else {
      if times[0] > from + length {
        NothingAfterInterval(st, limit, times, from, length);
      } else {
        AdmittedWithinRemaining(Next(st, limit, times[0]), limit, times[1..], from);
      }
    }
  }

  /** Whatever the times of the evaluations, no closed interval as long as the period admits as many as twice the
      quota of a window. */
  lemma IntervalBound(limit: Limit, times: seq<int>, from: int)
    requires limit.count.Some? && NonDecreasing(times)
    ensures Admitted(None, limit, times, from, limit.period.Ms()) <= 2 * Quota(limit) - 1
  {
    AdmittedWithinRemaining(None, limit, times, from);
  }

  /** The window that an evaluation opens, whatever windows came before, admits no more than its quota. */
  lemma WindowBound(st: Option<RateLimitState>, limit: Limit, times: seq<int>)
    requires limit.count.Some? && times != [] && NonDecreasing(times) && Current(st, times[0]) == None
    ensures Admitted(st, limit, times, times[0], limit.period.Ms()) <= Quota(limit)
  {
    AdmittedWithinRemaining(Next(st, limit, times[0]), limit, times[1..], times[0]);
  }

  // ---------- the bound is attained ----------

  function Repeat(n: nat, t: int): seq<int> {
    if n == 0 then [] else [t] + Repeat(n - 1, t)
  }

  lemma {:induction false} RepeatAt(n: nat, t: int)
    ensures |Repeat(n, t)| == n && forall i | 0 <= i < n :: Repeat(n, t)[i] == t
  {
    if n == 0 {
    } else {
      RepeatAt(n - 1, t);
    }
  }

  /** `n` evaluations at a moment inside a window with room for them are all admitted. */
  lemma {:induction false} BurstAdmitted(count: int, resetAt: int, limit: Limit, n: nat, t: int, rest: seq<int>, from: int)
    requires limit.count.Some? && t <= resetAt && count + n <= limit.count.value
    requires InInterval(t, from, limit.period.Ms())
    ensures Admitted(Some(RateLimitState(count, resetAt)), limit, Repeat(n, t) + rest, from, limit.period.Ms()) ==
            n + Admitted(Some(RateLimitState(count + n, resetAt)), limit, rest, from, limit.period.Ms())
    decreases n
  {
    if n == 0 {
      assert Repeat(0, t) + rest == rest;
    } else {
      BurstAdmitted(count + 1, resetAt, limit, n - 1, t, rest, from);
      assert (Repeat(n, t) + rest)[1..] == Repeat(n - 1, t) + rest;
    }
  }

  /** A burst at the end of one window and another at the start of the next reach the bound. */
  function WorstTimes(n: nat, length: int): seq<int>
    requires n >= 1
  {
    [0] + (Repeat(n - 1, length) + ([length + 1] + Repeat(n - 1, length + 1)))
  }

  lemma WorstTimesNonDecreasing(n: nat, length: int)
    requires n >= 1 && length >= 0
    ensures NonDecreasing(WorstTimes(n, length))
  {
    RepeatAt(n - 1, length);
    RepeatAt(n - 1, length + 1);
    var times := WorstTimes(n, length);
    assert forall i | 0 <= i < |times| :: times[i] == if i == 0 then 0 else if i < n then length else length + 1;
  }

  lemma BoundIsAttained(limit: Limit)
    requires limit.count.Some? && limit.count.value >= 1
    ensures var times := WorstTimes(limit.count.value, limit.period.Ms());
            && NonDecreasing(times)
            && Admitted(None, limit, times, 1, limit.period.Ms()) == 2 * Quota(limit) - 1
  {
    var n, length := limit.count.value, limit.period.Ms();
    WorstTimesNonDecreasing(n, length);
    var late := Repeat(n - 1, length + 1);
    var tail := [length + 1] + late;
    var afterBurst, reopened := Some(RateLimitState(n, length)), Some(RateLimitState(1, 2 * length + 1));
    assert Admitted(reopened, limit, late, 1, length) == n - 1 by {
      BurstAdmitted(1, 2 * length + 1, limit, n - 1, length + 1, [], 1);
      assert late + [] == late;
    }
    assert Admitted(afterBurst, limit, tail, 1, length) == n by {
      assert tail[1..] == late;
      assert Next(afterBurst, limit, length + 1) == reopened;
    }
    BurstAdmitted(1, length, limit, n - 1, length, tail, 1);
    assert ([0] + (Repeat(n - 1, length) + tail))[1..] == Repeat(n - 1, length) + tail;
  }

  /** A limit of zero or less still admits one evaluation in every window. */
  lemma ZeroStillAdmitsOne(limit: Limit, now: int)
    requires limit.count.Some? && limit.count.value <= 0
    ensures !IsLimited(None, limit, now)
    ensures forall later :: IsLimited(Next(None, limit, now), limit, later) <==> later <= now + limit.period.Ms()
  {
  }
}
