/** A limit tried out beside the one that decides (rateguard-core/src/gcra.rs): a
    second pair of words that only counts, and may be off.
 */
module ShadowGcra {
  import opened Wrappers
  import opened Quotas
  import opened Gcra
  import opened AtomicGcra

  /** Off is a quota word of 0, which no quota packs to. */
  const OFF := Words(0, 0)

  function SetWords(w: Words, q: Option<Quota>, now: nat): Words
    requires w.quota != 0 ==> w.Valid() && Unpack(w.quota).value.interval > 0
    requires q.Some? ==> Made(q.value)
  {
    var packed := if q.Some? then Pack(q.value) else 0;
    if w.quota == packed then w
    else if q.Some? && w.quota != 0 then
      var was := Unpack(w.quota).value;
      Words(packed, if was == q.value then w.tat else CarryTat(w.tat, was, q.value, now))
    else Words(packed, 0)
  }

  function CheckWords(w: Words, now: nat): (Option<Decision>, Words) {
    if w.quota == 0 then (None, w) else (Some(w.Check(now).0), w.Check(now).1)
  }

  class ShadowGcra {
    var quota: nat
    var tat: nat

    function Abs(): Words
      reads this
    {
      Words(quota, tat)
    }

    constructor ()
      ensures Abs() == OFF
    {
      quota, tat := 0, 0;
    }

    method Set(q: Option<Quota>, now: nat)
      requires quota != 0 ==> Abs().Valid() && Unpack(quota).value.interval > 0
      requires q.Some? ==> Made(q.value)
      modifies this
      ensures Abs() == SetWords(old(Abs()), q, now)
    {
      var packed := if q.Some? then Pack(q.value) else 0;
      if quota == packed {
        return;
      }
      var before := quota;
      quota := packed;
      if q.Some? && before != 0 {
        var was := Unpack(before).value;
        if was != q.value {
          tat := CarryTat(tat, was, q.value, now);
        }
      } else {
        tat := 0;
      }
    }

    method Check(now: nat) returns (d: Option<Decision>)
      modifies this`tat
      ensures (d, Abs()) == CheckWords(old(Abs()), now)
    {
      if quota == 0 {
        return None;
      }
      var (t, tau) := Decode(quota);
      var (decision, next) := Step(t, tau, tat, now);
      tat := next;
      d := Some(decision);
    }

    method Reset()
      modifies this
      ensures Abs() == OFF
    {
      quota := 0;
      tat := 0;
    }
  }

  // -------------------------------------------------------- against a limiter or none

  datatype ShadowOp = Try(now: nat) | Switch(quota: Option<Quota>, now: nat)

  /** What a shadow should be: a limiter while on, nothing while off. */
  function Intended(s: Option<State>, op: ShadowOp): (Option<Decision>, Option<State>)
    requires s.Some? ==> s.value.Valid()
    requires op.Switch? && op.quota.Some? ==> InRange(op.quota.value)
  {
    match op
    case Try(now) => if s.None? then (None, None) else (Some(s.value.Check(now).0), Some(s.value.Check(now).1))
    case Switch(q, now) =>
      (None, if q.None? then None else if s.None? then Some(Fresh(q.value)) else Some(s.value.SetQuota(q.value, now)))
  }

  ghost predicate Shows(w: Words, s: Option<State>, at: nat) {
    if s.None? then w == OFF else Mirrors(w, s.value, at)
  }

  predicate Fits(op: ShadowOp, at: nat) {
    at <= op.now < CLOCK_END && (op.Switch? && op.quota.Some? ==> Made(op.quota.value))
  }

  function Actual(w: Words, op: ShadowOp): (Option<Decision>, Words)
    requires w.quota != 0 ==> w.Valid() && Unpack(w.quota).value.interval > 0
    requires op.Switch? && op.quota.Some? ==> Made(op.quota.value)
  {
    match op
    case Try(now) => CheckWords(w, now)
    case Switch(q, now) => (None, SetWords(w, q, now))
  }

  lemma ShownIsUsable(w: Words, s: Option<State>, at: nat)
    requires Shows(w, s, at)
    ensures w.quota != 0 ==> w.Valid() && Unpack(w.quota).value.interval > 0
    ensures w.quota == 0 <==> s.None?
    ensures s.Some? ==> s.value.Valid()
  {
    if s.Some? {
      MirrorIsValid(w, s.value, at);
      PackRoundTrips(s.value.quota);
    }
  }

  lemma StepShows(w: Words, s: Option<State>, at: nat, op: ShadowOp)
    requires Shows(w, s, at) && Fits(op, at)
    ensures w.quota != 0 ==> w.Valid() && Unpack(w.quota).value.interval > 0
    ensures s.Some? ==> s.value.Valid()
    ensures Actual(w, op).0 == Intended(s, op).0
    ensures Shows(Actual(w, op).1, Intended(s, op).1, op.now)
  {
    ShownIsUsable(w, s, at);
    if s.Some? {
      match op
      case Try(now) => MirrorStep(w, s.value, at, Op.Check(now));
      case Switch(q, now) =>
        if q.Some? {
          PackRoundTrips(q.value);
          MirrorStep(w, s.value, at, Op.Set(q.value, now));
        }
    } else if op.Switch? && op.quota.Some? {
      PackRoundTrips(op.quota.value);
    }
  }

  /** A run of the words beside the limiter they stand for. */
  ghost predicate Agree(w: Words, s: Option<State>, ops: seq<ShadowOp>)
    decreases |ops|
  {
    ops != [] ==>
      && (w.quota != 0 ==> w.Valid() && Unpack(w.quota).value.interval > 0)
      && (s.Some? ==> s.value.Valid())
      && (ops[0].Switch? && ops[0].quota.Some? ==> Made(ops[0].quota.value))
      && Actual(w, ops[0]).0 == Intended(s, ops[0]).0
      && Agree(Actual(w, ops[0]).1, Intended(s, ops[0]).1, ops[1..])
  }

  predicate AllFit(at: nat, ops: seq<ShadowOp>)
    decreases |ops|
  {
    ops != [] ==> Fits(ops[0], at) && AllFit(ops[0].now, ops[1..])
  }

  lemma {:induction false} ShownForGood(w: Words, s: Option<State>, at: nat, ops: seq<ShadowOp>)
    requires Shows(w, s, at) && AllFit(at, ops)
    ensures Agree(w, s, ops)
    decreases |ops|
  {
    if ops != [] {
      StepShows(w, s, at, ops[0]);
      ShownForGood(Actual(w, ops[0]).1, Intended(s, ops[0]).1, ops[0].now, ops[1..]);
    }
  }

  /** Driven by one thread, a shadow says of every request what a limiter of its own
      would, fresh each time it is switched on, and nothing while it is off; it
      never unpacks the word for off. */
  lemma ShadowSaysWhatALimiterWould(ops: seq<ShadowOp>)
    requires AllFit(0, ops)
    ensures Agree(OFF, None, ops)
  {
    ShownForGood(OFF, None, 0, ops);
  }
}
