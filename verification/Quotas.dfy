/** A rate kept as an emission interval, and its packing into one word
    (rateguard-core/src/gcra.rs).
 */
module Quotas {
  import opened Wrappers

  const U64_MAX := 0xFFFF_FFFF_FFFF_FFFF
  const ONE_SEC := 1_000_000_000

  /** 2^40 values of an interval, 2^22 of a burst, two bits of unit between. */
  const VALUES := 0x100_0000_0000
  const BURSTS := 0x40_0000
  const UNITS := 4
  const MAX_BURST := BURSTS - 1
  const MAX_INTERVAL := (VALUES - 1) * 1_000_000
  /** The longest burst tolerance, 2^63 - 1 ns. */
  const MAX_TAU := U64_MAX / 2

  function Min(a: int, b: int): int { if a < b then a else b }
  function Max(a: int, b: int): int { if a < b then b else a }
  function MinReal(a: real, b: real): real { if a < b then a else b }
  function MaxReal(a: real, b: real): real { if a < b then b else a }

  function SatAdd(a: nat, b: nat): nat { Min(a + b, U64_MAX) }
  function SatSub(a: nat, b: nat): nat { if a < b then 0 else a - b }
  function SatMul(a: nat, b: nat): nat { Min(a * b, U64_MAX) }

  function DivCeil(a: nat, b: nat): nat
    requires b > 0
  {
    (a + b - 1) / b
  }

  /** Nanoseconds in each unit; code 3 is unused. */
  function UnitNanos(unit: nat): nat
    requires unit < 3
  {
    if unit == 0 then 1 else if unit == 1 then 1_000 else 1_000_000
  }

  datatype Quota = Quota(interval: nat, burst: nat)

  predicate InRange(q: Quota) {
    1 <= q.interval <= MAX_INTERVAL && 0 < q.burst <= MAX_BURST
  }

  /** The interval in the finest unit that holds it, rounded up. */
  function EncodeInterval(interval: nat): (r: (nat, nat))
    requires interval <= MAX_INTERVAL
    ensures r.0 < VALUES && r.1 < 3
  {
    if DivCeil(interval, UnitNanos(0)) < VALUES then (DivCeil(interval, UnitNanos(0)), 0)
    else if DivCeil(interval, UnitNanos(1)) < VALUES then (DivCeil(interval, UnitNanos(1)), 1)
    else (DivCeil(interval, UnitNanos(2)), 2)
  }

  /** The callers' burst is in range: the source panics on any other. */
  function WithInterval(interval: nat, burst: nat): (q: Quota)
    requires 0 < burst <= MAX_BURST
  {
    var (value, unit) := EncodeInterval(Min(Max(interval, 1), MAX_INTERVAL));
    Quota(value * UnitNanos(unit), burst)
  }

  /** A quota some interval and burst make: the only kind there is. */
  predicate Made(q: Quota) {
    InRange(q) && q == WithInterval(q.interval, q.burst)
  }

  /** The fields take disjoint bits, so the source's `|` is this sum. */
  function Pack(q: Quota): nat
    requires q.interval <= MAX_INTERVAL
  {
    var (value, unit) := EncodeInterval(q.interval);
    (value * UNITS + unit) * BURSTS + q.burst
  }

  /** None where the source panics: an unknown unit or a zero burst. */
  function Unpack(word: nat): Option<Quota> {
    var unit := word / BURSTS % UNITS;
    var burst := word % BURSTS;
    if unit >= 3 || burst == 0 then None
    else Some(WithInterval(SatMul(word / (UNITS * BURSTS), UnitNanos(unit)), burst))
  }

  function Tau(interval: nat, burst: nat): nat {
    Min(SatMul(interval, SatSub(burst, 1)), MAX_TAU)
  }

  /** The interval and tau straight from the word; code 3 reads as milliseconds. */
  function Decode(word: nat): (nat, nat) {
    var unit := word / BURSTS % UNITS;
    var t := word / (UNITS * BURSTS) * UnitNanos(Min(unit, 2));
    (t, Tau(t, word % BURSTS))
  }

  lemma DivCeilBounds(a: nat, b: nat)
    requires b > 0
    ensures DivCeil(a, b) * b >= a && DivCeil(a, b) * b < a + b
  {
    var q, r := (a + b - 1) / b, (a + b - 1) % b;
    assert a + b - 1 == q * b + r && r < b;
  }

  lemma DivCeilExact(v: nat, b: nat)
    requires b > 0
    ensures DivCeil(v * b, b) == v
  {
    assert (v * b + b - 1) == v * b + (b - 1);
    assert (v * b + (b - 1)) / b == v by {
      DivUnique(v * b + (b - 1), b, v, b - 1);
    }
  }

  lemma MulMonotone(a: nat, b: nat, c: nat)
    requires a <= b
    ensures a * c <= b * c
  {
  }

  lemma DivUnique(a: nat, b: nat, q: nat, r: nat)
    requires b > 0 && a == q * b + r && r < b
    ensures a / b == q && a % b == r
  {
    var q' := a / b;
    assert a == q' * b + a % b;
    if q < q' {
      MulMonotone(q + 1, q', b);
    } else if q' < q {
      MulMonotone(q' + 1, q, b);
    }
  }

  /** Rounding never shortens an interval, lengthens it by under a part in a
      billion, and picks the same unit again: a rounded interval stays as it is. */
  lemma RoundingIsStrictAndStable(interval: nat, burst: nat)
    requires 1 <= interval <= MAX_INTERVAL && 0 < burst <= MAX_BURST
    ensures Made(WithInterval(interval, burst))
    ensures EncodeInterval(WithInterval(interval, burst).interval) == EncodeInterval(interval)
    ensures interval <= WithInterval(interval, burst).interval
    ensures (WithInterval(interval, burst).interval - interval) * 1_000_000_000 < interval
    ensures interval < VALUES ==> WithInterval(interval, burst).interval == interval
  {
    var (value, unit) := EncodeInterval(interval);
    var rounded := value * UnitNanos(unit);
    DivCeilBounds(interval, 1_000);
    DivCeilBounds(interval, 1_000_000);
    DivCeilExact(value, UnitNanos(unit));
    if unit == 2 {
      DivCeilBounds(rounded, 1_000);
    }
  }

  lemma WordFields(value: nat, unit: nat, burst: nat)
    requires unit < UNITS && burst < BURSTS
    ensures
      var word := (value * UNITS + unit) * BURSTS + burst;
      word % BURSTS == burst && word / BURSTS % UNITS == unit && word / (UNITS * BURSTS) == value
  {
    var word := (value * UNITS + unit) * BURSTS + burst;
    DivUnique(word, BURSTS, value * UNITS + unit, burst);
    DivUnique(value * UNITS + unit, UNITS, value, unit);
    DivUnique(word, UNITS * BURSTS, value, unit * BURSTS + burst);
  }

  /** A packed quota unpacks to itself, decodes to its own interval and
      tolerance, fits a word, and is never the 0 that stands for "off". */
  lemma PackRoundTrips(q: Quota)
    requires Made(q)
    ensures Unpack(Pack(q)) == Some(q)
    ensures Decode(Pack(q)) == (q.interval, Tau(q.interval, q.burst))
    ensures 0 < Pack(q) <= U64_MAX
  {
    var (value, unit) := EncodeInterval(q.interval);
    WordFields(value, unit, q.burst);
    assert value * UnitNanos(unit) == q.interval;
  }

  lemma PackIsInjective(p: Quota, q: Quota)
    requires Made(p) && Made(q) && Pack(p) == Pack(q)
    ensures p == q
  {
    PackRoundTrips(p);
    PackRoundTrips(q);
  }

  /** Requests per second. */
  function Rate(q: Quota): (r: real)
    requires q.interval > 0
  {
    ONE_SEC as real / q.interval as real
  }

  function Ceil(x: real): int { -((-x).Floor) }

  /** The interval a rate asks for; one too slow to hold, zero or below gets the
      longest. */
  function AskedInterval(rate: real): (t: nat) {
    if rate <= 0.0 then MAX_INTERVAL
    else
      var interval := Ceil(ONE_SEC as real / rate);
      if interval >= 1 then Min(interval, MAX_INTERVAL) else 1
  }

  function PerSecond(rate: real, burst: nat): (q: Quota)
    requires 0 < burst <= MAX_BURST
  {
    WithInterval(AskedInterval(rate), burst)
  }

  lemma AskedIsLongEnough(rate: real)
    ensures 1 <= AskedInterval(rate) <= MAX_INTERVAL
    ensures AskedInterval(rate) as real * rate >= ONE_SEC as real || AskedInterval(rate) == MAX_INTERVAL
  {
    if rate > 0.0 {
      var exact := ONE_SEC as real / rate;
      assert exact * rate == ONE_SEC as real;
      assert Ceil(exact) as real >= exact;
      ScaleWeakly(exact, AskedInterval(rate) as real, rate);
    }
  }

  /** One request an interval is no more than the rate. */
  predicate LongEnough(interval: nat, rate: real) { interval as real * rate >= ONE_SEC as real }

  /** And no longer than it must be: any shorter one would let the rate be passed. */
  lemma AskedIsShortEnough(rate: real, shorter: nat)
    requires rate > 0.0 && 1 <= shorter < AskedInterval(rate)
    ensures !LongEnough(shorter, rate)
  {
    var exact := ONE_SEC as real / rate;
    assert exact * rate == ONE_SEC as real;
    assert shorter as real < exact;
    Scale(shorter as real, exact, rate);
  }

  /** The quota for a rate is that of the least interval in range at which the rate is not
      passed, the longest if none is long enough, lengthened by under a part in a billion. */
  lemma PerSecondIsNoStricter(rate: real, burst: nat) returns (least: nat)
    requires 0 < burst <= MAX_BURST && rate > 0.0
    ensures 1 <= least <= MAX_INTERVAL && (LongEnough(least, rate) || least == MAX_INTERVAL)
    ensures forall t :: 1 <= t < least ==> !LongEnough(t, rate)
    ensures least <= PerSecond(rate, burst).interval
            && (PerSecond(rate, burst).interval - least) * 1_000_000_000 < least
  {
    least := AskedInterval(rate);
    AskedIsLongEnough(rate);
    RoundingIsStrictAndStable(least, burst);
    forall t | 1 <= t < least ensures !LongEnough(t, rate) {
      AskedIsShortEnough(rate, t);
    }
  }

  lemma RoundedUpIsStrict(q: Quota, asked: nat, rate: real)
    requires 1 <= asked <= q.interval <= MAX_INTERVAL
    requires asked as real * rate >= ONE_SEC as real || asked == MAX_INTERVAL
    ensures Rate(q) <= rate <==> rate * MAX_INTERVAL as real >= ONE_SEC as real
  {
    RateAgainst(q.interval, rate);
    if asked != MAX_INTERVAL {
      assert rate > 0.0;
      ScaleWeakly(asked as real, q.interval as real, rate);
      ScaleWeakly(q.interval as real, MAX_INTERVAL as real, rate);
    }
  }

  /** A quota is never looser than the rate it was made for, unless that rate is
      too slow for the longest interval: then it always is. */
  lemma PerSecondErrsStrict(rate: real, burst: nat)
    requires 0 < burst <= MAX_BURST
    ensures Made(PerSecond(rate, burst)) && PerSecond(rate, burst).burst == burst
    ensures Rate(PerSecond(rate, burst)) <= rate <==> rate * MAX_INTERVAL as real >= ONE_SEC as real
  {
    var asked := AskedInterval(rate);
    AskedIsLongEnough(rate);
    RoundingIsStrictAndStable(asked, burst);
    var q := WithInterval(asked, burst);
    assert q.interval <= MAX_INTERVAL;
    RoundedUpIsStrict(q, asked, rate);
  }

  /** At most the rate, as far as an interval can be that long. */
  predicate Within(q: Quota, rate: real)
    requires q.interval > 0
  {
    Rate(q) <= rate || q.interval == MAX_INTERVAL
  }

  lemma TooSlowIsLongest(rate: real)
    ensures rate * MAX_INTERVAL as real >= ONE_SEC as real || AskedInterval(rate) == MAX_INTERVAL
  {
    AskedIsLongEnough(rate);
    if rate > 0.0 {
      ScaleWeakly(AskedInterval(rate) as real, MAX_INTERVAL as real, rate);
    }
  }

  lemma PerSecondIsWithin(rate: real, burst: nat, bound: real)
    requires 0 < burst <= MAX_BURST && rate <= bound
    ensures InRange(PerSecond(rate, burst)) && Within(PerSecond(rate, burst), bound)
  {
    PerSecondErrsStrict(rate, burst);
    TooSlowIsLongest(rate);
    AskedIsLongEnough(rate);
    RoundingIsStrictAndStable(AskedInterval(rate), burst);
  }

  lemma RateAgainst(interval: nat, rate: real)
    requires interval > 0
    ensures ONE_SEC as real / interval as real <= rate <==> rate * interval as real >= ONE_SEC as real
  {
    var r := ONE_SEC as real / interval as real;
    assert r * interval as real == ONE_SEC as real;
    if r <= rate {
      ScaleWeakly(r, rate, interval as real);
    } else {
      Scale(rate, r, interval as real);
    }
  }

  lemma Scale(a: real, b: real, c: real)
    requires a < b && c > 0.0
    ensures a * c < b * c
  {
  }

  lemma ScaleWeakly(a: real, b: real, c: real)
    requires c >= 0.0
    ensures a <= b ==> a * c <= b * c
  {
  }
}
