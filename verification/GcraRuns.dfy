/** Whole runs of GCRA limiters whose quotas change in flight: one limiter, and a
    fleet of them sharing one limit (rateguard-core/src/gcra.rs).
 */
module GcraRuns {
  import opened Wrappers
  import opened Quotas
  import opened Gcra

  /** Whether one operation admits a request, and the limiter after it. */
  function Apply(s: State, op: Op): (r: (nat, State))
    requires s.Valid() && OpInRange(op)
    ensures r.1.Valid()
  {
    var (answer, after) := Play(s, op);
    (if answer == Some(Allow) then 1 else 0, after)
  }

  /** Requests the quota in force lets pass in `dt` nanoseconds. */
  function Drain(q: Quota, dt: nat): real
    requires q.interval > 0
  {
    dt as real / q.interval as real
  }

  /** Half a nanosecond of debt, in requests at the new quota, per change. */
  function Slack(s: State, op: Op): real
    requires op.Set? ==> op.quota.interval > 0
  {
    if op.Set? && op.quota != s.quota then 0.5 / op.quota.interval as real else 0.0
  }

  // -------------------------------------------------------------- the potential

  /** The limiter owes at least `v` requests at `now`. */
  predicate Owes(s: State, now: nat, v: real)
    requires s.Valid()
  {
    || v == 0.0
    || (s.tat.Some? && (s.tat.value == U64_MAX || v * s.quota.interval as real <= (s.tat.value - now) as real))
  }

  lemma DivTimes(x: real, t: real)
    requires t > 0.0
    ensures x / t * t == x
  {
  }

  lemma CancelTimes(a: real, b: real, t: real)
    requires t > 0.0 && a * t <= b * t
    ensures a <= b
  {
  }

  /** Time pays debt back at the quota's rate. */
  lemma TimePays(s: State, at: nat, now: nat, v: real) returns (v': real)
    requires s.Valid() && at <= now && v >= 0.0 && Owes(s, at, v)
    ensures 0.0 <= v' <= v && v <= v' + Drain(s.quota, now - at) && Owes(s, now, v')
  {
    var t := s.quota.interval as real;
    var paid := Drain(s.quota, now - at);
    DivTimes((now - at) as real, t);
    if v <= paid {
      v' := 0.0;
    } else {
      v' := v - paid;
      assert v' * t == v * t - paid * t;
    }
  }

  /** A saturated TAT stands for no known debt, and a change carries over what is
      computed from it or either burst, whichever is the most. That is enough for
      all it may stand for unless every one of them is below the largest burst so
      far. */
  predicate Carries(s: State, op: Op, most: nat)
    requires s.Valid() && OpInRange(op)
  {
    op.Set? && op.quota != s.quota && s.tat == Some(U64_MAX) ==>
      most as real <= DebtSlots(U64_MAX, s.quota, op.quota, op.now)
  }

  function Most(most: nat, op: Op): nat { if op.Set? then Max(most, op.quota.burst) else most }

  /** One operation never admits more than it adds to the debt, and the debt never
      passes the largest burst so far: rounding a carried debt may forgive half a
      nanosecond. */
  lemma OpIsPaidFor(s: State, op: Op, v: real, most: nat) returns (v': real)
    requires s.Valid() && OpInRange(op) && op.now < CLOCK_END && s.quota.burst <= most && Carries(s, op, most)
    requires 0.0 <= v <= most as real && Owes(s, op.now, v)
    ensures 0.0 <= v' <= most as real && Owes(Apply(s, op).1, op.now, v')
    ensures v + Apply(s, op).0 as real <= v' + Slack(s, op)
    ensures Apply(s, op).1.quota.burst <= Most(most, op)
  {
    match op
    case Check(now) =>
      v' := v;
      if Apply(s, op).0 == 1 {
        v' := v + 1.0;
        AdmittedWithinBurst(s, now, v);
        AdmittedIsOwed(s, now, v);
      }
    case Set(next, now) =>
      v' := v;
      if next != s.quota {
        PositiveHalf(next.interval as real);
        v' := CarriedDebt(s, next, now, v, 0.5 / next.interval as real, most);
      }
  }

  lemma DebtFitsBurst(v: real, d: nat, t: nat, b: nat)
    requires t > 0 && b > 0 && v * t as real <= d as real && d <= t * (b - 1)
    ensures v + 1.0 <= b as real
  {
    assert (t * (b - 1)) as real == (b - 1) as real * t as real;
    CancelTimes(v, (b - 1) as real, t as real);
  }

  lemma OneMoreInterval(v: real, t: real)
    ensures (v + 1.0) * t == v * t + t
  {
  }

  /** A request allowed to a debt of `x` nanoseconds: it is within the tolerance, and
      with the request `y`. */
  lemma AllowedDebt(s: State, now: nat, x: real, y: real)
    requires s.Valid() && now < CLOCK_END && s.tat.Some? && s.Check(now).0.Allow?
    requires x > 0.0 && y == x + s.quota.interval as real
    requires s.tat.value == U64_MAX || x <= (s.tat.value - now) as real
    ensures s.tat.value != U64_MAX && now <= s.tat.value && s.tat.value - now <= s.quota.interval * (s.quota.burst - 1)
    ensures var after := s.Check(now).1; after.tat == Some(U64_MAX) || y <= (after.tat.value - now) as real
  {
  }

  lemma AdmittedWithinBurst(s: State, now: nat, v: real)
    requires s.Valid() && now < CLOCK_END && v >= 0.0 && Owes(s, now, v) && s.Check(now).0.Allow?
    ensures v + 1.0 <= s.quota.burst as real
  {
    var t := s.quota.interval as real;
    if v > 0.0 {
      Scale(0.0, v, t);
      AllowedDebt(s, now, v * t, v * t + t);
      DebtFitsBurst(v, s.tat.value - now, s.quota.interval, s.quota.burst);
    }
  }

  lemma AdmittedIsOwed(s: State, now: nat, v: real)
    requires s.Valid() && now < CLOCK_END && v >= 0.0 && Owes(s, now, v) && s.Check(now).0.Allow?
    ensures Owes(s.Check(now).1, now, v + 1.0)
  {
    var t := s.quota.interval as real;
    OneMoreInterval(v, t);
    if v > 0.0 {
      Scale(0.0, v, t);
      AllowedDebt(s, now, v * t, (v + 1.0) * t);
    }
  }

  lemma DebtAtLeast(v: real, d: real, t: real)
    requires t > 0.0 && v * t <= d
    ensures v <= d / t
  {
    DivTimes(d, t);
    CancelTimes(v, d / t, t);
  }

  /** A debt carried over at an interval still stands for all of it but `half`. */
  lemma CarriedDebtCovers(v: real, half: real, d: real, interval: nat, now: nat)
    requires interval > 0 && half * interval as real == 0.5 && 0.0 <= v <= d
    ensures
      var tat' := CarryDebt(d, interval, now);
      tat' == U64_MAX || (v - half) * interval as real <= (tat' - now) as real
  {
    var t := interval as real;
    ScaleWeakly(v, d, t);
    assert (v - half) * t == v * t - half * t;
    RoundedCovers((v - half) * t, d * t, now);
  }

  lemma RoundedCovers(x: real, y: real, now: nat)
    requires x <= y - 0.5 && y >= 0.0
    ensures SatAdd(now, RoundToWord(y)) == U64_MAX || x <= (SatAdd(now, RoundToWord(y)) - now) as real
  {
  }

  lemma DebtSlotsCover(s: State, next: Quota, now: nat, v: real, most: nat)
    requires s.Valid() && InRange(next) && next != s.quota && now < CLOCK_END && s.tat.Some?
    requires Carries(s, Set(next, now), most) && 0.0 < v <= most as real && Owes(s, now, v)
    ensures v <= DebtSlots(s.tat.value, s.quota, next, now)
  {
    var tat, t := s.tat.value, s.quota.interval as real;
    if tat != U64_MAX {
      ScaleWeakly(0.0, v, t);
      DebtAtLeast(v, (tat - now) as real, t);
    }
  }

  lemma CarriedDebt(s: State, next: Quota, now: nat, v: real, half: real, most: nat) returns (v': real)
    requires s.Valid() && InRange(next) && next != s.quota && now < CLOCK_END
    requires Carries(s, Set(next, now), most) && 0.0 <= v <= most as real && Owes(s, now, v)
    requires half > 0.0 && half * next.interval as real == 0.5
    ensures 0.0 <= v' <= v <= v' + half
    ensures Owes(s.SetQuota(next, now), now, v')
  {
    if v <= half {
      v' := 0.0;
    } else {
      v' := v - half;
      DebtSlotsCover(s, next, now, v, most);
      DebtSurvivesExactly(s, next, now, v, half, DebtSlots(s.tat.value, s.quota, next, now), s.SetQuota(next, now));
    }
  }

  /** A debt of `v` is within `carried` as the code rounds it, or past all measure. */
  predicate WithinRounded(v: real, carried: real, interval: nat, now: nat)
    requires carried >= 0.0
  {
    || CarryDebt(carried, interval, now) == U64_MAX
    || v * interval as real <= RoundToWord(carried * interval as real) as real + 0.5
  }

  lemma RoundedCompares(now: nat, word: nat, x: real, y: real)
    requires y == x - 0.5
    ensures SatAdd(now, word) != U64_MAX ==> (y <= (SatAdd(now, word) - now) as real <==> x <= word as real + 0.5)
  {
  }

  /** What is owed of a debt carried as `carried`. */
  lemma CarriedOwes(next: Quota, now: nat, carried: real, v: real, half: real)
    requires InRange(next) && carried >= 0.0 && 0.0 < half < v && half * next.interval as real == 0.5
    ensures Owes(State(next, Some(CarryDebt(carried, next.interval, now))), now, v - half)
            <==> WithinRounded(v, carried, next.interval, now)
  {
    var t := next.interval as real;
    LessHalf(v, half, t);
    RoundedCompares(now, RoundToWord(carried * t), v * t, (v - half) * t);
  }

  lemma CarriedOwesNoMore(next: Quota, now: nat, carried: real, v: real, half: real)
    requires InRange(next) && carried >= 0.0 && 0.0 < half < v && half * next.interval as real == 0.5
    requires var after := State(next, Some(CarryDebt(carried, next.interval, now)));
             Owes(after, now, v - half) && after.tat != Some(U64_MAX)
    ensures v <= carried + 2.0 * half
  {
    var t := next.interval as real;
    CarriedOwes(next, now, carried, v, half);
    RoundedIsNear(carried * t);
    WithinOne(v, carried, half, t);
  }

  /** Short of a saturated TAT the debt owed is always within what is carried. */
  lemma UnsaturatedDebtIsCarried(s: State, next: Quota, now: nat, v: real)
    requires s.Valid() && InRange(next) && now < CLOCK_END && s.tat.Some? && s.tat != Some(U64_MAX)
    requires v > 0.0 && Owes(s, now, v)
    ensures v <= DebtSlots(s.tat.value, s.quota, next, now)
  {
    ScaleWeakly(0.0, v, s.quota.interval as real);
    DebtAtLeast(v, (s.tat.value - now) as real, s.quota.interval as real);
  }

  /** And nothing is added to it but half a nanosecond, to no debt at all nothing: what is owed
      after a change that leaves the TAT short of the end of time was owed before it. */
  lemma NoDebtIsAdded(s: State, next: Quota, now: nat, w: real, half: real)
    requires s.Valid() && InRange(next) && next != s.quota && s.tat != Some(U64_MAX)
    requires 0.0 < half < w && half * next.interval as real == 0.5
    requires var after := s.SetQuota(next, now); after.tat != Some(U64_MAX) && Owes(after, now, w)
    ensures Owes(s, now, w - half)
  {
    var d := DebtSlots(s.tat.value, s.quota, next, now);
    CarriedIsNoMore(next, now, d, w, half);
    CarriedWasOwed(s, now, d, w - half);
  }

  lemma CarriedIsNoMore(next: Quota, now: nat, d: real, w: real, half: real)
    requires InRange(next) && d >= 0.0 && 0.0 < half < w && half * next.interval as real == 0.5
    requires CarryDebt(d, next.interval, now) != U64_MAX
    requires w * next.interval as real <= (CarryDebt(d, next.interval, now) - now) as real
    ensures w - half <= d
  {
    var t := next.interval as real;
    RoundedIsNear(d * t);
    LessHalf(w, half, t);
    CancelTimes(w - half, d, t);
  }

  lemma CarriedWasOwed(s: State, now: nat, d: real, v: real)
    requires s.Valid() && s.tat.Some? && 0.0 < v <= d
    requires d == SatSub(s.tat.value, now) as real / s.quota.interval as real
    ensures Owes(s, now, v)
  {
    var t := s.quota.interval as real;
    DivTimes(SatSub(s.tat.value, now) as real, t);
    ScaleWeakly(v, d, t);
    Scale(0.0, v, t);
  }

  /** From a saturated TAT a change carries exactly one of three debts, the greatest: what is
      computed of it, a full burst of the old quota, or one of the new. */
  lemma SaturatedCarriesTheGreatest(s: State, next: Quota, now: nat) returns (d: real)
    requires s.Valid() && InRange(next) && next != s.quota && s.tat == Some(U64_MAX)
    ensures d >= 0.0 && s.SetQuota(next, now) == State(next, Some(CarryDebt(d, next.interval, now)))
    ensures var computed := SatSub(U64_MAX, now) as real / s.quota.interval as real;
            && d in [computed, s.quota.burst as real, next.burst as real]
            && computed <= d && s.quota.burst as real <= d && next.burst as real <= d
  {
    d := DebtSlots(U64_MAX, s.quota, next, now);
    var debts := [SatSub(U64_MAX, now) as real / s.quota.interval as real, s.quota.burst as real, next.burst as real];
    assert debts[0] in debts && debts[1] in debts && debts[2] in debts;
  }

  /** What a change leaves of a debt, exactly. All of it but half a nanosecond is
      still owed if and only if it is within what the change carries, rounded as
      the code rounds it; so always if it is within what is carried, and never if
      it is over that by more than a nanosecond, unless the new TAT is saturated
      in turn. */
  lemma DebtSurvivesExactly(s: State, next: Quota, now: nat, v: real, half: real, carried: real, after: State)
    requires s.Valid() && InRange(next) && next != s.quota && now < CLOCK_END && s.tat.Some?
    requires 0.0 < half < v && half * next.interval as real == 0.5
    requires carried == DebtSlots(s.tat.value, s.quota, next, now) && after == s.SetQuota(next, now)
    ensures Owes(after, now, v - half) <==> WithinRounded(v, carried, next.interval, now)
    ensures v <= carried ==> Owes(after, now, v - half)
    ensures Owes(after, now, v - half) && after.tat != Some(U64_MAX) ==> v <= carried + 2.0 * half
  {
    assert after == State(next, Some(CarryDebt(carried, next.interval, now)));
    CarriedSurvives(next, now, carried, v, half);
  }

  /** Rounding up may carry a little more than is carried: 17.4 requests out of 16.8. */
  lemma RoundingUpCarriesMore()
    ensures var s, next := State(Quota(MAX_INTERVAL, 1), Some(U64_MAX)), Quota(1, 5);
            DebtSlots(U64_MAX, s.quota, next, 0) < 16.8 && Owes(s.SetQuota(next, 0), 0, 17.4 - 0.5)
  {
    ToTheLower(5);
    assert DebtSlots(U64_MAX, Quota(MAX_INTERVAL, 1), Quota(1, 5), 0) < 16.8;
  }

  lemma CarriedSurvives(next: Quota, now: nat, carried: real, v: real, half: real)
    requires InRange(next) && carried >= 0.0 && 0.0 < half < v && half * next.interval as real == 0.5
    ensures var after := State(next, Some(CarryDebt(carried, next.interval, now)));
            && (Owes(after, now, v - half) <==> WithinRounded(v, carried, next.interval, now))
            && (v <= carried ==> Owes(after, now, v - half))
            && (Owes(after, now, v - half) && after.tat != Some(U64_MAX) ==> v <= carried + 2.0 * half)
  {
    var after := State(next, Some(CarryDebt(carried, next.interval, now)));
    CarriedOwes(next, now, carried, v, half);
    if v <= carried {
      CarriedDebtCovers(v, half, carried, next.interval, now);
    }
    if Owes(after, now, v - half) && after.tat != Some(U64_MAX) {
      CarriedOwesNoMore(next, now, carried, v, half);
    }
  }

  lemma LessHalf(v: real, half: real, t: real)
    requires half * t == 0.5
    ensures (v - half) * t == v * t - 0.5
  {
  }

  lemma RoundedIsNear(x: real)
    requires x >= 0.0
    ensures RoundToWord(x) as real <= x + 0.5
  {
  }

  lemma WithinOne(v: real, carried: real, half: real, t: real)
    requires t > 0.0 && half * t == 0.5 && v * t <= carried * t + 1.0
    ensures v <= carried + 2.0 * half
  {
    assert (carried + 2.0 * half) * t == carried * t + 2.0 * (half * t);
    CancelTimes(v, carried + 2.0 * half, t);
  }

  lemma PositiveHalf(t: real)
    requires t > 0.0
    ensures 0.5 / t > 0.0 && 0.5 / t * t == 0.5
  {
  }

  // ---------------------------------------------------------------- one limiter

  /** Times never run backwards from `at`, clocks stay in range, and every change
      carries the debt of the largest burst so far. */
  predicate Timed(s: State, at: nat, ops: seq<Op>, most: nat)
    requires s.Valid()
    decreases |ops|
  {
    ops != [] ==>
      && at <= ops[0].now < CLOCK_END && OpInRange(ops[0]) && Carries(s, ops[0], most)
      && Timed(Apply(s, ops[0]).1, ops[0].now, ops[1..], Most(most, ops[0]))
  }

  predicate OpsInRange(ops: seq<Op>) {
    forall i :: 0 <= i < |ops| ==> OpInRange(ops[i])
  }

  /** The largest burst of the run. */
  function Largest(most: nat, ops: seq<Op>): (r: nat)
    ensures r >= most
    decreases |ops|
  {
    if ops == [] then most else Largest(Most(most, ops[0]), ops[1..])
  }

  function Admits(s: State, ops: seq<Op>): nat
    requires s.Valid() && OpsInRange(ops)
    decreases |ops|
  {
    if ops == [] then 0
    else Apply(s, ops[0]).0 + Admits(Apply(s, ops[0]).1, ops[1..])
  }

  /** The rate of the quota in force, integrated over the run, plus the slack of
      its changes. */
  function Allowance(s: State, at: nat, ops: seq<Op>): real
    requires s.Valid() && OpsInRange(ops)
    decreases |ops|
  {
    if ops == [] then 0.0
    else
      var dt := if ops[0].now >= at then ops[0].now - at else 0;
      Drain(s.quota, dt) + Slack(s, ops[0]) + Allowance(Apply(s, ops[0]).1, ops[0].now, ops[1..])
  }

  lemma {:induction false} TimedIsInRange(s: State, at: nat, ops: seq<Op>, most: nat)
    requires s.Valid() && Timed(s, at, ops, most)
    ensures OpsInRange(ops)
    decreases |ops|
  {
    if ops != [] {
      TimedIsInRange(Apply(s, ops[0]).1, ops[0].now, ops[1..], Most(most, ops[0]));
    }
  }

  lemma {:induction false} DebtBound(s: State, at: nat, ops: seq<Op>, most: nat, v: real)
    requires s.Valid() && s.quota.burst <= most && Timed(s, at, ops, most) && OpsInRange(ops)
    requires 0.0 <= v <= most as real && Owes(s, at, v)
    ensures v + Admits(s, ops) as real <= Largest(most, ops) as real + Allowance(s, at, ops)
    decreases |ops|
  {
    if ops != [] {
      var paid := TimePays(s, at, ops[0].now, v);
      var owed := OpIsPaidFor(s, ops[0], paid, most);
      DebtBound(Apply(s, ops[0]).1, ops[0].now, ops[1..], Most(most, ops[0]), owed);
    }
  }

  /** Main result for one limiter: from any state, whatever the quotas set in
      flight, admissions are at most the largest burst, plus the integral of the
      rate in force, plus half a nanosecond of debt per change, TATs saturated at
      the end of time included, as long as no change from a saturated TAT carries
      less than the largest burst so far. */
  lemma ChangingQuotaBound(s: State, at: nat, ops: seq<Op>)
    requires s.Valid() && Timed(s, at, ops, s.quota.burst)
    requires OpsInRange(ops)
    ensures Admits(s, ops) as real <= Largest(s.quota.burst, ops) as real + Allowance(s, at, ops)
  {
    DebtBound(s, at, ops, s.quota.burst, 0.0);
  }

  /** Clocks in order and no burst below the largest before it. */
  predicate NeverLowered(at: nat, ops: seq<Op>, most: nat)
    decreases |ops|
  {
    ops != [] ==>
      && at <= ops[0].now < CLOCK_END && OpInRange(ops[0]) && (ops[0].Set? ==> ops[0].quota.burst >= most)
      && NeverLowered(ops[0].now, ops[1..], Most(most, ops[0]))
  }

  /** So a burst never lowered is enough, one burst throughout above all. */
  lemma {:induction false} RisingBurstsCarry(s: State, at: nat, ops: seq<Op>, most: nat)
    requires s.Valid() && s.quota.burst <= most && NeverLowered(at, ops, most)
    ensures Timed(s, at, ops, most)
    decreases |ops|
  {
    if ops != [] {
      RisingBurstsCarry(Apply(s, ops[0]).1, ops[0].now, ops[1..], Most(most, ops[0]));
    }
  }

  // ------------------------------------------------------------ a lowered burst

  function Checks(now: nat, n: nat): (r: seq<Op>)
    ensures |r| == n && OpsInRange(r)
  {
    if n == 0 then [] else [Check(now)] + Checks(now, n - 1)
  }

  function After(s: State, ops: seq<Op>): (r: State)
    requires s.Valid() && OpsInRange(ops)
    ensures r.Valid()
    decreases |ops|
  {
    if ops == [] then s else After(Apply(s, ops[0]).1, ops[1..])
  }

  lemma {:induction false} AdmitsSplit(s: State, a: seq<Op>, b: seq<Op>)
    requires s.Valid() && OpsInRange(a) && OpsInRange(b)
    ensures OpsInRange(a + b) && Admits(s, a + b) == Admits(s, a) + Admits(After(s, a), b)
    decreases |a|
  {
    if a == [] {
      assert a + b == b;
    } else {
      assert (a + b)[1..] == a[1..] + b;
      AdmitsSplit(Apply(s, a[0]).1, a[1..], b);
    }
  }

  lemma {:induction false} AfterSplit(s: State, a: seq<Op>, b: seq<Op>)
    requires s.Valid() && OpsInRange(a) && OpsInRange(b)
    ensures OpsInRange(a + b) && After(s, a + b) == After(After(s, a), b)
    decreases |a|
  {
    if a == [] {
      assert a + b == b;
    } else {
      assert (a + b)[1..] == a[1..] + b;
      AfterSplit(Apply(s, a[0]).1, a[1..], b);
    }
  }

  lemma OneMore(s: State, ops: seq<Op>, op: Op)
    requires s.Valid() && OpsInRange(ops) && OpInRange(op)
    ensures OpsInRange(ops + [op]) && After(s, ops + [op]) == Apply(After(s, ops), op).1
    ensures Admits(s, ops + [op]) == Admits(s, ops) + Apply(After(s, ops), op).0
  {
    AfterSplit(s, ops, [op]);
    AdmitsSplit(s, ops, [op]);
    assert After(Apply(After(s, ops), op).1, []) == Apply(After(s, ops), op).1;
    assert [op][1..] == [];
  }

  lemma {:induction false} AllowanceSplit(s: State, a: seq<Op>, b: seq<Op>, at: nat)
    requires s.Valid() && OpsInRange(a) && OpsInRange(b)
    requires forall i :: 0 <= i < |a| ==> a[i].now == at
    ensures OpsInRange(a + b) && Allowance(s, at, a + b) == Allowance(s, at, a) + Allowance(After(s, a), at, b)
    decreases |a|
  {
    if a == [] {
      assert a + b == b;
    } else {
      assert (a + b)[1..] == a[1..] + b;
      AllowanceSplit(Apply(s, a[0]).1, a[1..], b, at);
    }
  }

  /** At one moment a limiter at the shortest interval admits what its burst leaves. */
  lemma {:induction false} ChecksAdmit(burst: nat, debt: nat, n: nat)
    requires 0 < burst <= MAX_BURST && debt <= burst
    ensures var s := State(Quota(1, burst), Some(debt));
            && Admits(s, Checks(0, n)) == Min(n, burst - debt)
            && After(s, Checks(0, n)) == State(Quota(1, burst), Some(debt + Min(n, burst - debt)))
            && Allowance(s, 0, Checks(0, n)) == 0.0
    decreases n
  {
    if n > 0 {
      assert Checks(0, n)[1..] == Checks(0, n - 1);
      ChecksAdmit(burst, if debt < burst then debt + 1 else debt, n - 1);
    }
  }

  /** To the slowest rate, then to a burst of `low`, then back, all at one moment. */
  function Dip(burst: nat, low: nat): seq<Op> {
    [Set(Quota(MAX_INTERVAL, 1), 0), Set(Quota(1, low), 0), Set(Quota(1, burst), 0)]
  }

  /** Each change of the dip: all that is owed at the slowest rate is past measure, what
      is carried from there is no more than the lower burst or 17, and that comes back. */
  lemma ToTheSlowest(burst: nat)
    requires 17 < burst <= MAX_BURST
    ensures State(Quota(1, burst), Some(burst)).SetQuota(Quota(MAX_INTERVAL, 1), 0)
         == State(Quota(MAX_INTERVAL, 1), Some(U64_MAX))
  {
    assert DebtSlots(burst, Quota(1, burst), Quota(MAX_INTERVAL, 1), 0) == burst as real;
  }

  lemma ToTheLower(low: nat)
    requires 0 < low <= MAX_BURST
    ensures State(Quota(MAX_INTERVAL, 1), Some(U64_MAX)).SetQuota(Quota(1, low), 0)
         == State(Quota(1, low), Some(Max(17, low)))
  {
    assert 16.7 < U64_MAX as real / MAX_INTERVAL as real < 16.8;
  }

  lemma AndBack(burst: nat, low: nat)
    requires 0 < low < burst <= MAX_BURST
    ensures State(Quota(1, low), Some(Max(17, low))).SetQuota(Quota(1, burst), 0)
         == State(Quota(1, burst), Some(Max(17, low)))
  {
    assert DebtSlots(Max(17, low), Quota(1, low), Quota(1, burst), 0) == Max(17, low) as real;
  }

  lemma SetAdmitsNone(s: State, q: Quota, rest: seq<Op>)
    requires s.Valid() && InRange(q) && OpsInRange(rest)
    ensures var run := [Set(q, 0)] + rest; var next := s.SetQuota(q, 0);
            && OpsInRange(run) && Admits(s, run) == Admits(next, rest) && After(s, run) == After(next, rest)
            && Allowance(s, 0, run) == Slack(s, Set(q, 0)) + Allowance(next, 0, rest)
  {
    var run := [Set(q, 0)] + rest;
    assert run[1..] == rest && Apply(s, run[0]) == (0, s.SetQuota(q, 0));
    assert Drain(s.quota, 0) == 0.0;
  }

  lemma SlackIsSmall(s: State, q: Quota)
    requires InRange(q)
    ensures Slack(s, Set(q, 0)) <= 0.5
  {
    PositiveHalf(q.interval as real);
    ScaleWeakly(1.0, q.interval as real, 0.5 / q.interval as real);
  }

  lemma DipForgives(burst: nat, low: nat)
    requires 0 < low && Max(17, low) < burst <= MAX_BURST
    ensures var s := State(Quota(1, burst), Some(burst)); var dip := Dip(burst, low);
            && OpsInRange(dip) && Admits(s, dip) == 0
            && After(s, dip) == State(Quota(1, burst), Some(Max(17, low)))
            && Allowance(s, 0, dip) <= 1.5
  {
    var s, slow := State(Quota(1, burst), Some(burst)), State(Quota(MAX_INTERVAL, 1), Some(U64_MAX));
    var lowered := State(Quota(1, low), Some(Max(17, low)));
    ToTheSlowest(burst);
    ToTheLower(low);
    AndBack(burst, low);
    SetAdmitsNone(lowered, Quota(1, burst), []);
    SetAdmitsNone(slow, Quota(1, low), [Set(Quota(1, burst), 0)]);
    SetAdmitsNone(s, Quota(MAX_INTERVAL, 1), [Set(Quota(1, low), 0), Set(Quota(1, burst), 0)]);
    SlackIsSmall(lowered, Quota(1, burst));
    SlackIsSmall(slow, Quota(1, low));
    SlackIsSmall(s, Quota(MAX_INTERVAL, 1));
    assert [Set(Quota(1, burst), 0)] + [] == [Set(Quota(1, burst), 0)];
    assert [Set(Quota(1, low), 0)] + [Set(Quota(1, burst), 0)] == [Set(Quota(1, low), 0), Set(Quota(1, burst), 0)];
    assert [Set(Quota(MAX_INTERVAL, 1), 0)] + [Set(Quota(1, low), 0), Set(Quota(1, burst), 0)] == Dip(burst, low);
  }

  /** The guard is needed: for every burst of 19 or more, lowered to any burst at
      least two below it from the slowest rate and raised again, all of it above
      that (or above 17) is admitted a second time, far over the bound. */
  lemma LoweringTheBurstForgivesDebt(burst: nat, low: nat)
    requires 0 < low && Max(17, low) + 2 <= burst <= MAX_BURST
    ensures
      var s := State(Quota(1, burst), Some(0));
      var run := Checks(0, burst) + Dip(burst, low) + Checks(0, burst);
      && OpsInRange(run) && Largest(burst, run) == burst
      && Admits(s, run) == 2 * burst - Max(17, low)
      && Admits(s, run) as real > burst as real + Allowance(s, 0, run)
  {
    var s, dip, checks := State(Quota(1, burst), Some(0)), Dip(burst, low), Checks(0, burst);
    var spent := State(Quota(1, burst), Some(burst));
    assert checks + dip + checks == checks + (dip + checks);
    DipIsInRange(burst, low);
    ChecksAdmit(burst, 0, burst);
    AdmittedTwice(burst, low);
    AdmitsSplit(s, checks, dip + checks);
    ChecksAreAt(burst);
    AllowanceSplit(s, checks, dip + checks, 0);
    LargestOfChecks(burst, burst, dip + checks);
    LargestOfDip(burst, low, checks);
    LargestOfChecks(burst, burst, []);
    assert checks + [] == checks;
  }

  lemma DipIsInRange(burst: nat, low: nat)
    requires 0 < low <= MAX_BURST && 0 < burst <= MAX_BURST
    ensures OpsInRange(Dip(burst, low)) && OpsInRange(Dip(burst, low) + Checks(0, burst))
  {
  }

  lemma {:induction false} ChecksAreAt(n: nat)
    ensures forall i :: 0 <= i < n ==> Checks(0, n)[i].now == 0
  {
    if n > 0 {
      ChecksAreAt(n - 1);
    }
  }

  lemma AdmittedTwice(burst: nat, low: nat)
    requires 0 < low && Max(17, low) < burst <= MAX_BURST
    ensures
      var spent := State(Quota(1, burst), Some(burst)); var run := Dip(burst, low) + Checks(0, burst);
      && OpsInRange(run) && Admits(spent, run) == burst - Max(17, low) && Allowance(spent, 0, run) <= 1.5
  {
    var spent, dip, checks := State(Quota(1, burst), Some(burst)), Dip(burst, low), Checks(0, burst);
    DipIsInRange(burst, low);
    DipForgives(burst, low);
    ChecksAdmit(burst, Max(17, low), burst);
    AdmitsSplit(spent, dip, checks);
    AllowanceSplit(spent, dip, checks, 0);
  }

  lemma {:induction false} LargestOfChecks(most: nat, n: nat, rest: seq<Op>)
    ensures Largest(most, Checks(0, n) + rest) == Largest(most, rest)
    decreases n
  {
    if n == 0 {
      assert Checks(0, 0) + rest == rest;
    } else {
      assert (Checks(0, n) + rest)[1..] == Checks(0, n - 1) + rest;
      LargestOfChecks(most, n - 1, rest);
    }
  }

  lemma LargestOfDip(burst: nat, low: nat, rest: seq<Op>)
    requires 0 < low <= burst
    ensures Largest(burst, Dip(burst, low) + rest) == Largest(burst, rest)
  {
    var dip := Dip(burst, low);
    var run := dip + rest;
    assert run[1..] == dip[1..] + rest && run[1..][1..] == [dip[2]] + rest && run[1..][1..][1..] == rest;
    assert Largest(burst, run[1..][1..]) == Largest(burst, rest);
    assert Largest(burst, run[1..]) == Largest(burst, rest);
  }

  // --------------------------------------------------------------------- a fleet

  function Sum(v: seq<real>): real { if v == [] then 0.0 else v[0] + Sum(v[1..]) }

  /** The rates the fleet's quotas add up to, a second. */
  function FleetRate(fleet: seq<State>): real
    requires forall i :: 0 <= i < |fleet| ==> fleet[i].Valid()
  {
    if fleet == [] then 0.0 else assert fleet[0].Valid(); Rate(fleet[0].quota) + FleetRate(fleet[1..])
  }

  /** What `limit` a second lets pass in `dt` nanoseconds. */
  function Passes(limit: real, dt: nat): real {
    if dt == 0 then 0.0 else Passes(limit, dt - 1) + limit / ONE_SEC as real
  }

  lemma {:induction false} PassesIsProduct(limit: real, dt: nat)
    ensures Passes(limit, dt) == limit * dt as real / ONE_SEC as real
  {
    if dt > 0 {
      PassesIsProduct(limit, dt - 1);
      assert limit * dt as real == limit * (dt - 1) as real + limit;
    }
  }

  lemma {:induction false} PassesSplits(limit: real, a: nat, b: nat)
    ensures Passes(limit, a + b) == Passes(limit, a) + Passes(limit, b)
  {
    if b > 0 {
      PassesSplits(limit, a, b - 1);
    }
  }

  lemma {:induction false} PassesGrows(rate: real, limit: real, dt: nat)
    requires rate <= limit || dt == 0
    ensures Passes(rate, dt) <= Passes(limit, dt)
  {
    if dt > 0 {
      PassesGrows(rate, limit, dt - 1);
    }
  }

  lemma {:induction false} PassesAdds(a: real, b: real, dt: nat)
    ensures Passes(a + b, dt) == Passes(a, dt) + Passes(b, dt)
  {
    if dt > 0 {
      PassesAdds(a, b, dt - 1);
    }
  }

  /** One event of the fleet: an operation on one node. */
  datatype Event = Event(node: nat, op: Op)

  ghost predicate FleetOk(fleet: seq<State>, burst: nat) {
    forall i :: 0 <= i < |fleet| ==> fleet[i].Valid() && fleet[i].quota.burst == burst
  }

  predicate ValidOp(op: Op, burst: nat) {
    op.now < CLOCK_END && (op.Set? ==> InRange(op.quota) && op.quota.burst == burst)
  }

  function FleetAfter(fleet: seq<State>, e: Event): (r: seq<State>)
    requires e.node < |fleet| && fleet[e.node].Valid() && OpInRange(e.op)
    ensures |r| == |fleet|
  {
    fleet[e.node := Apply(fleet[e.node], e.op).1]
  }

  /** A run of the fleet from `at`, its quotas within `limit` a second whenever
      time passes: changes on several nodes at one moment may overlap. */
  ghost predicate FleetRun(fleet: seq<State>, at: nat, events: seq<Event>, burst: nat, limit: real)
    decreases |events|
  {
    && FleetOk(fleet, burst)
    && (events != [] ==>
          var e := events[0];
          && e.node < |fleet| && at <= e.op.now && ValidOp(e.op, burst)
          && (at < e.op.now ==> FleetRate(fleet) <= limit)
          && FleetRun(FleetAfter(fleet, e), e.op.now, events[1..], burst, limit))
  }

  function FleetAdmits(fleet: seq<State>, at: nat, events: seq<Event>, burst: nat, limit: real): (n: nat)
    requires FleetRun(fleet, at, events, burst, limit)
    decreases |events|
  {
    if events == [] then 0
    else
      var e := events[0];
      Apply(fleet[e.node], e.op).0 + FleetAdmits(FleetAfter(fleet, e), e.op.now, events[1..], burst, limit)
  }

  /** The slack of every quota change of the run. */
  function FleetSlack(fleet: seq<State>, at: nat, events: seq<Event>, burst: nat, limit: real): (x: real)
    requires FleetRun(fleet, at, events, burst, limit)
    decreases |events|
  {
    if events == [] then 0.0
    else
      var e := events[0];
      Slack(fleet[e.node], e.op) + FleetSlack(FleetAfter(fleet, e), e.op.now, events[1..], burst, limit)
  }

  function End(at: nat, events: seq<Event>): nat {
    if events == [] then at else events[|events| - 1].op.now
  }

  lemma {:induction false} EndIsLater(fleet: seq<State>, at: nat, events: seq<Event>, burst: nat, limit: real)
    requires FleetRun(fleet, at, events, burst, limit)
    ensures at <= End(at, events)
    ensures events != [] ==> End(at, events) == End(events[0].op.now, events[1..])
    decreases |events|
  {
    if events != [] {
      EndIsLater(FleetAfter(fleet, events[0]), events[0].op.now, events[1..], burst, limit);
    }
  }

  /** Every node owes its part of `v`. */
  ghost predicate FleetOwes(fleet: seq<State>, at: nat, v: seq<real>, burst: nat) {
    && FleetOk(fleet, burst) && |v| == |fleet|
    && forall i :: 0 <= i < |v| ==> 0.0 <= v[i] <= burst as real && Owes(fleet[i], at, v[i])
  }

  lemma {:induction false} SumUpdate(v: seq<real>, i: nat, x: real)
    requires i < |v|
    ensures Sum(v[i := x]) == Sum(v) - v[i] + x
  {
    if i > 0 {
      assert v[i := x][1..] == v[1..][i - 1 := x];
      SumUpdate(v[1..], i - 1, x);
    } else {
      assert v[0 := x][1..] == v[1..];
    }
  }

  lemma {:induction false} SumAtMost(v: seq<real>, burst: nat)
    requires forall i :: 0 <= i < |v| ==> v[i] <= burst as real
    ensures Sum(v) <= Bursts(|v|, burst)
  {
    if v != [] {
      SumAtMost(v[1..], burst);
    }
  }

  /** Over `dt` a node's drain is what its rate lets pass. */
  lemma DrainIsRate(q: Quota, dt: nat)
    requires q.interval > 0
    ensures Drain(q, dt) == Passes(Rate(q), dt)
  {
    PassesIsProduct(Rate(q), dt);
    var t := q.interval as real;
    DivTimes(dt as real, t);
    DivTimes(ONE_SEC as real, t);
    assert Drain(q, dt) == dt as real * (1.0 / t);
    assert Rate(q) == ONE_SEC as real * (1.0 / t);
  }

  lemma {:induction false} PassesNothing(dt: nat)
    ensures Passes(0.0, dt) == 0.0
  {
    if dt > 0 {
      PassesNothing(dt - 1);
    }
  }

  lemma {:induction false} FleetTimePays(fleet: seq<State>, at: nat, now: nat, v: seq<real>, burst: nat)
    returns (v': seq<real>)
    requires FleetOwes(fleet, at, v, burst) && at <= now
    ensures FleetOwes(fleet, now, v', burst)
    ensures Sum(v) <= Sum(v') + Passes(FleetRate(fleet), now - at)
  {
    if fleet == [] {
      v' := [];
      PassesNothing(now - at);
    } else {
      var rest := FleetTimePays(fleet[1..], at, now, v[1..], burst);
      var first := TimePays(fleet[0], at, now, v[0]);
      v' := [first] + rest;
      assert v'[1..] == rest;
      forall i | 0 <= i < |v'| ensures 0.0 <= v'[i] <= burst as real && Owes(fleet[i], now, v'[i]) {
        if i > 0 {
          assert fleet[i] == fleet[1..][i - 1];
        }
      }
      DrainIsRate(fleet[0].quota, now - at);
      PassesAdds(Rate(fleet[0].quota), FleetRate(fleet[1..]), now - at);
    }
  }

  lemma FleetEventIsPaidFor(fleet: seq<State>, at: nat, e: Event, v: seq<real>, burst: nat, limit: real)
    returns (v': seq<real>)
    requires FleetOwes(fleet, at, v, burst) && e.node < |fleet| && at <= e.op.now && ValidOp(e.op, burst)
    requires at < e.op.now ==> FleetRate(fleet) <= limit
    ensures FleetOwes(FleetAfter(fleet, e), e.op.now, v', burst)
    ensures Sum(v) + Apply(fleet[e.node], e.op).0 as real
            <= Sum(v') + Passes(limit, e.op.now - at) + Slack(fleet[e.node], e.op)
  {
    var paid := FleetTimePays(fleet, at, e.op.now, v, burst);
    var owed := OpIsPaidFor(fleet[e.node], e.op, paid[e.node], burst);
    v' := paid[e.node := owed];
    SumUpdate(paid, e.node, owed);
    PassesGrows(FleetRate(fleet), limit, e.op.now - at);
  }

  function Bursts(n: nat, burst: nat): real {
    if n == 0 then 0.0 else Bursts(n - 1, burst) + burst as real
  }

  lemma {:induction false} BurstsIsProduct(n: nat, burst: nat)
    ensures Bursts(n, burst) == n as real * burst as real
  {
    if n > 0 {
      BurstsIsProduct(n - 1, burst);
      assert n as real * burst as real == (n - 1) as real * burst as real + burst as real;
    }
  }

  lemma {:induction false} FleetDebtBound(fleet: seq<State>, at: nat, events: seq<Event>, burst: nat, limit: real,
                                          v: seq<real>)
    requires FleetRun(fleet, at, events, burst, limit) && FleetOwes(fleet, at, v, burst)
    ensures at <= End(at, events)
    ensures Sum(v) + FleetAdmits(fleet, at, events, burst, limit) as real
            <= Bursts(|fleet|, burst) + Passes(limit, End(at, events) - at)
               + FleetSlack(fleet, at, events, burst, limit)
    decreases |events|
  {
    if events == [] {
      SumAtMost(v, burst);
    } else {
      var e := events[0];
      EndIsLater(fleet, at, events, burst, limit);
      var v' := FleetEventIsPaidFor(fleet, at, e, v, burst, limit);
      FleetDebtBound(FleetAfter(fleet, e), e.op.now, events[1..], burst, limit, v');
      PassesSplits(limit, e.op.now - at, End(at, events) - e.op.now);
    }
  }

  /** Main result for the fleet: if the quotas the nodes apply to a key add up to
      at most `limit` whenever time passes, then from any states and over any
      window the fleet admits at most limit x window + N x burst, plus the
      rounding slack of the quota changes in it. */
  lemma FleetBound(fleet: seq<State>, at: nat, events: seq<Event>, burst: nat, limit: real)
    requires FleetRun(fleet, at, events, burst, limit)
    ensures at <= End(at, events)
    ensures FleetAdmits(fleet, at, events, burst, limit) as real
            <= Passes(limit, End(at, events) - at) + Bursts(|fleet|, burst) + FleetSlack(fleet, at, events, burst,
                limit)
  {
    var none := seq(|fleet|, _ => 0.0);
    SumUpTo0(|fleet|);
    FleetDebtBound(fleet, at, events, burst, limit, none);
  }

  lemma {:induction false} SumUpTo0(n: nat)
    ensures Sum(seq(n, _ => 0.0)) == 0.0
  {
    if n > 0 {
      assert seq(n, _ => 0.0)[1..] == seq(n - 1, _ => 0.0);
      SumUpTo0(n - 1);
    }
  }
}
