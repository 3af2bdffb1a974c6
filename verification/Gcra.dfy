/** GCRA, a token bucket kept as one timestamp, for one thread
    (rateguard-core/src/gcra.rs). Arithmetic saturates at 64 bits; where the
    source goes through f64 the numbers here are exact.
 */
module Gcra {
  import opened Wrappers
  import opened Quotas

  /** Clocks stay under 2^63 ns from their origin. */
  const CLOCK_END := 0x8000_0000_0000_0000

  datatype Decision = Allow | Deny(retryAt: nat)

  /** One step on a TAT, where 0 stands for "never admitted". */
  function Step(interval: nat, tau: nat, tat: nat, now: nat): (r: (Decision, nat)) {
    var earliest := SatSub(tat, tau);
    if now < earliest then (Deny(earliest), tat)
    else (Allow, SatAdd(Max(tat, now), interval))
  }

  /** f64's `round`, half away from zero, then the saturating cast. */
  function RoundToWord(x: real): (r: nat)
    requires x >= 0.0
    ensures r <= U64_MAX
    ensures r == U64_MAX || r as real >= x - 0.5
  {
    Min((x + 0.5).Floor, U64_MAX)
  }

  /** The debt in requests; a saturated TAT is no measure and counts for a full
      burst of either quota at least. */
  function DebtSlots(tat: nat, q: Quota, next: Quota, now: nat): (d: real)
    requires q.interval > 0
    ensures d >= 0.0
  {
    var computed := SatSub(tat, now) as real / q.interval as real;
    if tat == U64_MAX then MaxReal(MaxReal(computed, q.burst as real), next.burst as real)
    else computed
  }

  function CarryTat(tat: nat, q: Quota, next: Quota, now: nat): (r: nat)
    requires q.interval > 0
    ensures r <= U64_MAX
  {
    CarryDebt(DebtSlots(tat, q, next, now), next.interval, now)
  }

  /** The TAT that stands for a debt of `d` requests at an interval. */
  function CarryDebt(d: real, interval: nat, now: nat): (r: nat)
    requires d >= 0.0
    ensures r <= U64_MAX
  {
    SatAdd(now, RoundToWord(d * interval as real))
  }

  /** One key's limiter as a value. */
  datatype State = State(quota: Quota, tat: Option<nat>) {
    predicate Valid() {
      InRange(quota) && (tat.Some? ==> tat.value <= U64_MAX)
    }

    function Check(now: nat): (r: (Decision, State))
      requires Valid()
      ensures r.1.Valid() && r.1.quota == quota
    {
      var t := match tat case None => now case Some(t) => t;
      var earliest := SatSub(t, Tau(quota.interval, quota.burst));
      if now < earliest then (Deny(earliest), this)
      else (Allow, this.(tat := Some(SatAdd(Max(t, now), quota.interval))))
    }

    function SetQuota(next: Quota, now: nat): (s: State)
      requires Valid() && InRange(next)
      ensures s.Valid() && s.quota == next
    {
      if next == quota then this
      else match tat
        case None => State(next, None)
        case Some(t) => State(next, Some(CarryTat(t, quota, next, now)))
    }

    predicate HasDebt(now: nat) { tat.Some? && tat.value > now }
  }

  function Fresh(q: Quota): State { State(q, None) }

  datatype Op = Check(now: nat) | Set(quota: Quota, now: nat)

  predicate OpInRange(op: Op) { op.Set? ==> InRange(op.quota) }

  /** The answer of one operation, and the limiter after it. */
  function Play(s: State, op: Op): (r: (Option<Decision>, State))
    requires s.Valid() && OpInRange(op)
    ensures r.1.Valid()
  {
    match op
    case Check(now) => (Some(s.Check(now).0), s.Check(now).1)
    case Set(q, now) => (None, s.SetQuota(q, now))
  }

  /** `Gcra`: the state above, updated in place. */
  class Gcra {
    var quota: Quota
    var tat: Option<nat>

    function Abs(): State
      reads this
    {
      State(quota, tat)
    }

    constructor (q: Quota)
      requires InRange(q)
      ensures Abs() == Fresh(q) && Abs().Valid()
    {
      quota, tat := q, None;
    }

    method Check(now: nat) returns (d: Decision)
      requires Abs().Valid()
      modifies this`tat
      ensures (d, Abs()) == old(Abs()).Check(now)
    {
      var t := quota.interval;
      var tau := Tau(quota.interval, quota.burst);
      var was := if tat.None? then now else tat.value;
      var earliest := SatSub(was, tau);
      if now < earliest {
        return Deny(earliest);
      }
      tat := Some(SatAdd(Max(was, now), t));
      return Allow;
    }

    method SetQuota(next: Quota, now: nat)
      requires Abs().Valid() && InRange(next)
      modifies this
      ensures Abs() == old(Abs()).SetQuota(next, now)
    {
      if next == quota {
        return;
      }
      if tat.Some? {
        tat := Some(CarryTat(tat.value, quota, next, now));
      }
      quota := next;
    }

    method RetryAfter(now: nat) returns (wait: Option<nat>)
      requires Abs().Valid()
      ensures wait.None? <==> Abs().Check(now).0.Allow?
      ensures wait.Some? ==> Abs().Check(now + wait.value).0.Allow?
      ensures forall at :: wait.Some? && now <= at < now + wait.value ==> Abs().Check(at).0.Deny?
    {
      if tat.None? {
        return None;
      }
      var earliest := SatSub(tat.value, Tau(quota.interval, quota.burst));
      wait := if now < earliest then Some(earliest - now) else None;
    }
  }

  /** The TAT as the atomic form keeps it. */
  function Word(tat: Option<nat>): nat { if tat.None? then 0 else tat.value }

  /** "Never admitted" and a TAT of 0 are one and the same to a check. */
  lemma CheckIsStep(s: State, now: nat)
    requires s.Valid()
    ensures s.Check(now).0 == Step(s.quota.interval, Tau(s.quota.interval, s.quota.burst), Word(s.tat), now).0
    ensures Word(s.Check(now).1.tat) == Step(s.quota.interval, Tau(s.quota.interval, s.quota.burst), Word(s.tat), now).1
  {
  }

  /** A denial names the first moment a request could pass, and changes nothing. */
  lemma DenialIsExact(s: State, now: nat, later: nat)
    requires s.Valid() && s.Check(now).0.Deny?
    ensures s.Check(now).1 == s
    ensures now < s.Check(now).0.retryAt
    ensures s.Check(later).0.Allow? <==> later >= s.Check(now).0.retryAt
  {
  }

  // ---------------------------------------------------------- a fixed quota's bound

  /** The TAT after checks at the given times, in the order they are decided. */
  function TatAfter(interval: nat, tau: nat, tat: nat, times: seq<nat>): nat
  {
    if times == [] then tat
    else Step(interval, tau, TatAfter(interval, tau, tat, times[..|times| - 1]), times[|times| - 1]).1
  }

  /** How many of them are admitted at a time within [from, to]. */
  function Admitted(interval: nat, tau: nat, tat: nat, times: seq<nat>, from: nat, to: nat): nat
  {
    if times == [] then 0
    else
      var init, now := times[..|times| - 1], times[|times| - 1];
      var allowed := Step(interval, tau, TatAfter(interval, tau, tat, init), now).0.Allow?;
      Admitted(interval, tau, tat, init, from, to) + if allowed && from <= now <= to then 1 else 0
  }

  lemma {:induction false} TatNeverFalls(interval: nat, tau: nat, tat: nat, times: seq<nat>, n: nat)
    requires tat <= U64_MAX && n <= |times|
    ensures TatAfter(interval, tau, tat, times[..n]) <= TatAfter(interval, tau, tat, times) <= U64_MAX
    decreases |times|
  {
    if n < |times| {
      var init := times[..|times| - 1];
      TatNeverFalls(interval, tau, tat, init, n);
      assert init[..n] == times[..n];
    } else {
      assert times[..n] == times;
      if n > 0 {
        TatNeverFalls(interval, tau, tat, times[..n - 1], n - 1);
        assert times[..n - 1][..n - 1] == times[..n - 1];
      }
    }
  }

  /** `n` intervals, added up. */
  function Span(n: nat, interval: nat): nat { if n == 0 then 0 else Span(n - 1, interval) + interval }

  lemma {:induction false} SpanIsProduct(n: nat, interval: nat)
    ensures Span(n, interval) == n * interval
  {
    if n > 0 {
      SpanIsProduct(n - 1, interval);
      assert n * interval == (n - 1) * interval + interval;
    }
  }

  lemma SpanFits(n: nat, interval: nat, x: nat)
    requires interval > 0
    ensures Span(n, interval) <= x <==> n <= x / interval
  {
    SpanIsProduct(n, interval);
    var q := x / interval;
    assert q * interval <= x < (q + 1) * interval;
    if n <= q {
      MulMonotone(n, q, interval);
    } else {
      MulMonotone(q + 1, n, interval);
    }
  }

  /** Each admission in the window has moved the TAT one interval past its start. */
  lemma {:induction false} TatAheadOfWindow(interval: nat, tau: nat, tat: nat, times: seq<nat>, from: nat, to: nat)
    requires tat <= U64_MAX
    ensures
      var n, after := Admitted(interval, tau, tat, times, from, to), TatAfter(interval, tau, tat, times);
      n == 0 || after == U64_MAX || after >= from + Span(n, interval)
  {
    if times != [] {
      var init := times[..|times| - 1];
      TatAheadOfWindow(interval, tau, tat, init, from, to);
      TatNeverFalls(interval, tau, tat, init, 0);
    }
  }

  lemma {:induction false} AdmittedSpan(interval: nat, tau: nat, tat: nat, times: seq<nat>, from: nat, to: nat)
    requires tau <= MAX_TAU && tat <= U64_MAX && from <= to
    requires forall i :: 0 <= i < |times| ==> times[i] < CLOCK_END
    ensures
      var n := Admitted(interval, tau, tat, times, from, to);
      n == 0 || Span(n - 1, interval) <= to - from + tau
  {
    if times != [] {
      AdmittedSpan(interval, tau, tat, times[..|times| - 1], from, to);
      TatAheadOfWindow(interval, tau, tat, times[..|times| - 1], from, to);
    }
  }

  /** Main result for a fixed quota: whatever the order in which the clocks reach
      the limiter and whatever its state, a window admits at most
      1 + (window + tau) / T requests, a TAT saturated at the end of time
      included. */
  lemma WindowBound(interval: nat, tau: nat, tat: nat, times: seq<nat>, from: nat, to: nat)
    requires 0 < interval && tau <= MAX_TAU && tat <= U64_MAX && from <= to
    requires forall i :: 0 <= i < |times| ==> times[i] < CLOCK_END
    ensures Admitted(interval, tau, tat, times, from, to) <= 1 + (to - from + tau) / interval
  {
    AdmittedSpan(interval, tau, tat, times, from, to);
    var n := Admitted(interval, tau, tat, times, from, to);
    if n > 0 {
      SpanFits(n - 1, interval, to - from + tau);
    }
  }

  /** The bound is met: a fresh limiter asked over and over at one moment admits
      exactly 1 + tau / T, which is the burst unless tau is capped. */
  lemma {:induction false} BackToBack(interval: nat, tau: nat, now: nat, asked: nat)
    requires 0 < interval && tau <= MAX_TAU && now < CLOCK_END
    ensures
      var times := seq(asked, _ => now);
      var n := Min(asked, 1 + tau / interval);
      && Admitted(interval, tau, 0, times, now, now) == n
      && TatAfter(interval, tau, 0, times) == if n == 0 then 0 else SatAdd(now, Span(n, interval))
  {
    if asked > 0 {
      BackToBack(interval, tau, now, asked - 1);
      var times := seq(asked, _ => now);
      assert times[..asked - 1] == seq(asked - 1, _ => now);
      SpanFits(Min(asked - 1, 1 + tau / interval), interval, tau);
    }
  }

  lemma BurstIsTheTolerance(interval: nat, burst: nat)
    requires 0 < interval && 0 < burst && interval * (burst - 1) <= MAX_TAU
    ensures 1 + Tau(interval, burst) / interval == burst
  {
    DivUnique(interval * (burst - 1), interval, burst - 1, 0);
  }
}
