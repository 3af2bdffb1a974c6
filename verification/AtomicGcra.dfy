/** GCRA for many threads: the TAT in one word, a decision in one
    compare-and-swap (rateguard-core/src/gcra.rs). First the words as one thread
    drives them, against `Gcra`; then the compare-and-swap loop of any number of
    threads at one quota.
 */
module AtomicGcra {
  import opened Wrappers
  import opened Quotas
  import opened Gcra

  // --------------------------------------------------------- the words, one thread

  /** The quota word and the TAT word, 0 for "never admitted". */
  datatype Words = Words(quota: nat, tat: nat) {
    predicate Valid() { Unpack(quota).Some? && tat <= U64_MAX }

    function Check(now: nat): (r: (Decision, Words)) {
      var (t, tau) := Decode(quota);
      var (d, tat') := Step(t, tau, tat, now);
      (d, this.(tat := tat'))
    }

    function SetQuota(next: Quota, now: nat): (w: Words)
      requires Valid() && Unpack(quota).value.interval > 0 && InRange(next)
    {
      if quota == Pack(next) then this
      else
        var was := Unpack(quota).value;
        Words(Pack(next), if was == next then tat else CarryTat(tat, was, next, now))
    }
  }

  class AtomicGcra {
    var quota: nat
    var tat: nat

    function Abs(): Words
      reads this
    {
      Words(quota, tat)
    }

    ghost predicate Valid()
      reads this
    {
      Abs().Valid() && Unpack(quota).value.interval > 0
    }

    constructor (q: Quota)
      requires Made(q)
      ensures Abs() == Words(Pack(q), 0) && Valid()
    {
      quota, tat := Pack(q), 0;
      new;
      PackRoundTrips(q);
    }

    method Check(now: nat) returns (d: Decision)
      requires Valid()
      modifies this`tat
      ensures (d, Abs()) == old(Abs()).Check(now)
    {
      var (t, tau) := Decode(quota);
      var seen := tat;
      var earliest := SatSub(seen, tau);
      if now < earliest {
        return Deny(earliest);
      }
      tat := SatAdd(Max(seen, now), t);
      return Allow;
    }

    method SetQuota(next: Quota, now: nat)
      requires Valid() && InRange(next)
      modifies this
      ensures Abs() == old(Abs()).SetQuota(next, now)
    {
      if quota == Pack(next) {
        return;
      }
      var was := Unpack(quota).value;
      quota := Pack(next);
      if was != next {
        tat := CarryTat(tat, was, next, now);
      }
    }

    /** Back to a fresh limiter, for a slot handed to another key. */
    method Reset(q: Quota)
      requires InRange(q)
      modifies this
      ensures Abs() == Words(Pack(q), 0)
    {
      quota := Pack(q);
      tat := 0;
    }
  }

  /** Two limiters that no request and no change of quota at `at` or later can
      tell apart: their TATs agree, or neither is ahead of the clock. */
  predicate Alike(s: State, t: State, at: nat) {
    && s.Valid() && t.Valid() && s.quota == t.quota
    && (s.tat == t.tat || (Word(s.tat) <= at && Word(t.tat) <= at))
  }

  /** The atomic form's words as a state of the plain one. */
  predicate Mirrors(w: Words, s: State, at: nat) {
    && s.Valid() && Made(s.quota) && w.quota == Pack(s.quota) && w.tat <= U64_MAX
    && (w.tat == Word(s.tat) || (w.tat <= at && Word(s.tat) <= at))
  }

  lemma CarryingNoDebt(tat: nat, q: Quota, next: Quota, now: nat)
    requires q.interval > 0 && tat <= now < CLOCK_END
    ensures CarryTat(tat, q, next, now) == now
  {
    var d := DebtSlots(tat, q, next, now);
    assert d == 0.0 by {
      assert SatSub(tat, now) as real == 0.0;
    }
    assert d * next.interval as real == 0.0;
  }

  lemma AlikeStep(s: State, t: State, at: nat, op: Op)
    requires Alike(s, t, at) && at <= op.now < CLOCK_END && (op.Set? ==> InRange(op.quota))
    ensures Play(s, op).0 == Play(t, op).0
    ensures Alike(Play(s, op).1, Play(t, op).1, op.now)
  {
    if op.Set? && s.tat != t.tat && op.quota != s.quota {
      if s.tat.Some? {
        CarryingNoDebt(s.tat.value, s.quota, op.quota, op.now);
      }
      if t.tat.Some? {
        CarryingNoDebt(t.tat.value, t.quota, op.quota, op.now);
      }
    }
  }

  predicate Timely(at: nat, ops: seq<Op>)
    decreases |ops|
  {
    ops != [] ==>
      && at <= ops[0].now < CLOCK_END && (ops[0].Set? ==> InRange(ops[0].quota))
      && Timely(ops[0].now, ops[1..])
  }

  /** The answers of a run. */
  function Answers(s: State, at: nat, ops: seq<Op>): (r: seq<Option<Decision>>)
    requires s.Valid() && Timely(at, ops)
    decreases |ops|
  {
    if ops == [] then []
    else [Play(s, ops[0]).0] + Answers(Play(s, ops[0]).1, ops[0].now, ops[1..])
  }

  lemma {:induction false} AlikeForGood(s: State, t: State, at: nat, ops: seq<Op>)
    requires Alike(s, t, at) && Timely(at, ops)
    ensures Answers(s, at, ops) == Answers(t, at, ops)
    decreases |ops|
  {
    if ops != [] {
      AlikeStep(s, t, at, ops[0]);
      AlikeForGood(Play(s, ops[0]).1, Play(t, ops[0]).1, ops[0].now, ops[1..]);
    }
  }

  /** Forgetting a key without debt is lossless: from then on a fresh limiter
      answers every request, across every change of quota, as it would have. */
  lemma ForgettingWithoutDebtIsLossless(s: State, at: nat, ops: seq<Op>)
    requires s.Valid() && !s.HasDebt(at) && Timely(at, ops)
    ensures Answers(s, at, ops) == Answers(Fresh(s.quota), at, ops)
  {
    AlikeForGood(s, Fresh(s.quota), at, ops);
  }

  function PlayWords(w: Words, op: Op): (r: (Option<Decision>, Words))
    requires w.Valid() && Unpack(w.quota).value.interval > 0 && (op.Set? ==> InRange(op.quota))
  {
    match op
    case Check(now) => (Some(w.Check(now).0), w.Check(now).1)
    case Set(q, now) => (None, w.SetQuota(q, now))
  }

  predicate TimelyMade(at: nat, ops: seq<Op>) {
    Timely(at, ops) && forall i :: 0 <= i < |ops| ==> ops[i].Set? ==> Made(ops[i].quota)
  }

  lemma MirrorIsValid(w: Words, s: State, at: nat)
    requires Mirrors(w, s, at)
    ensures w.Valid() && Unpack(w.quota) == Some(s.quota)
    ensures Decode(w.quota) == (s.quota.interval, Tau(s.quota.interval, s.quota.burst))
  {
    PackRoundTrips(s.quota);
  }

  lemma MirrorStep(w: Words, s: State, at: nat, op: Op)
    requires Mirrors(w, s, at) && at <= op.now < CLOCK_END && (op.Set? ==> Made(op.quota))
    ensures w.Valid() && Unpack(w.quota).value.interval > 0
    ensures PlayWords(w, op).0 == Play(s, op).0
    ensures Mirrors(PlayWords(w, op).1, Play(s, op).1, op.now)
  {
    MirrorIsValid(w, s, at);
    match op
    case Check(now) => CheckIsStep(s, now);
    case Set(q, now) =>
      if q != s.quota {
        if Pack(q) == Pack(s.quota) {
          PackIsInjective(q, s.quota);
        }
        MirrorSet(w, s, at, q, now);
      }
  }

  lemma MirrorSet(w: Words, s: State, at: nat, q: Quota, now: nat)
    requires Mirrors(w, s, at) && at <= now < CLOCK_END && Made(q) && q != s.quota && Pack(q) != w.quota
    requires w.Valid() && Unpack(w.quota) == Some(s.quota)
    ensures Mirrors(w.SetQuota(q, now), s.SetQuota(q, now), now)
  {
    if w.tat <= now {
      CarryingNoDebt(w.tat, s.quota, q, now);
    }
    if s.tat.Some? && s.tat.value <= now {
      CarryingNoDebt(s.tat.value, s.quota, q, now);
    }
  }

  /** The answers of the atomic form, as long as its quota word holds a quota. */
  ghost predicate AnswersWords(w: Words, ops: seq<Op>, answers: seq<Option<Decision>>)
    decreases |ops|
  {
    if ops == [] then answers == []
    else
      && w.Valid() && Unpack(w.quota).value.interval > 0 && (ops[0].Set? ==> InRange(ops[0].quota))
      && |answers| > 0 && answers[0] == PlayWords(w, ops[0]).0
      && AnswersWords(PlayWords(w, ops[0]).1, ops[1..], answers[1..])
  }

  lemma {:induction false} MirrorForGood(w: Words, s: State, at: nat, ops: seq<Op>)
    requires Mirrors(w, s, at) && TimelyMade(at, ops)
    ensures AnswersWords(w, ops, Answers(s, at, ops))
    decreases |ops|
  {
    if ops != [] {
      MirrorStep(w, s, at, ops[0]);
      MirrorForGood(PlayWords(w, ops[0]).1, Play(s, ops[0]).1, ops[0].now, ops[1..]);
    }
  }

  /** Driven by one thread, the atomic form and the plain one give the same
      answers to every run of checks and quota changes, and the word always
      unpacks. */
  lemma AtomicAnswersAsPlain(q: Quota, ops: seq<Op>)
    requires Made(q) && TimelyMade(0, ops)
    ensures AnswersWords(Words(Pack(q), 0), ops, Answers(Fresh(q), 0, ops))
  {
    MirrorForGood(Words(Pack(q), 0), Fresh(q), 0, ops);
  }

  // ------------------------------------------------- the loop, any number of threads

  /** A thread of `step` between two accesses of the TAT word. */
  datatype Pc =
    | Idle
    | Load(now: nat)
    | Swap(now: nat, seen: nat)

  /** The word, the threads, and the calls decided so far in the order of their
      deciding accesses. */
  datatype Shared = Shared(tat: nat, threads: seq<Pc>, decided: seq<(nat, Decision)>)

  /** What a thread does next: it starts a call, or makes its next access, which
      may fail for no reason if it is a weak compare-and-swap. */
  datatype Move = Call(now: nat) | Access(spurious: bool)

  /** What a thread does with a value of the word just read. */
  function Read(sh: Shared, t: nat, now: nat, tau: nat): Shared
    requires t < |sh.threads|
  {
    var earliest := SatSub(sh.tat, tau);
    if now < earliest then Shared(sh.tat, sh.threads[t := Idle], sh.decided + [(now, Deny(earliest))])
    else Shared(sh.tat, sh.threads[t := Swap(now, sh.tat)], sh.decided)
  }

  function Next(sh: Shared, t: nat, move: Move, interval: nat, tau: nat): Shared
    requires t < |sh.threads|
  {
    match (sh.threads[t], move)
    case (Idle, Call(now)) => Shared(sh.tat, sh.threads[t := Load(now)], sh.decided)
    case (Load(now), Access(_)) => Read(sh, t, now, tau)
    case (Swap(now, seen), Access(spurious)) =>
      if sh.tat == seen && !spurious then
        Shared(SatAdd(Max(seen, now), interval), sh.threads[t := Idle], sh.decided + [(now, Allow)])
      else Read(sh, t, now, tau)
    case _ => sh
  }

  ghost predicate Interleaving(trace: seq<Shared>, moves: seq<(nat, Move)>, interval: nat, tau: nat) {
    && |trace| == |moves| + 1
    && forall i :: 0 <= i < |moves| ==>
         moves[i].0 < |trace[i].threads| && trace[i + 1] == Next(trace[i], moves[i].0, moves[i].1, interval, tau)
  }

  function Times(decided: seq<(nat, Decision)>): (r: seq<nat>)
    ensures |r| == |decided|
  {
    seq(|decided|, i requires 0 <= i < |decided| => decided[i].0)
  }

  /** The calls decided, made one after the other by one thread, get the same
      answers and leave the same TAT. */
  ghost predicate Linear(sh: Shared, tat0: nat, interval: nat, tau: nat) {
    && sh.tat == TatAfter(interval, tau, tat0, Times(sh.decided))
    && forall i :: 0 <= i < |sh.decided| ==> DecidedRight(sh.decided, i, tat0, interval, tau)
  }

  ghost predicate DecidedRight(decided: seq<(nat, Decision)>, i: nat, tat0: nat, interval: nat, tau: nat)
    requires i < |decided|
  {
    decided[i].1 == Step(interval, tau, TatAfter(interval, tau, tat0, Times(decided[..i])), decided[i].0).0
  }

  /** A thread about to swap saw a word at which its call is allowed. */
  ghost predicate Poised(sh: Shared, tau: nat) {
    forall t :: 0 <= t < |sh.threads| && sh.threads[t].Swap? ==> sh.threads[t].now >= SatSub(sh.threads[t].seen, tau)
  }

  lemma Decides(sh: Shared, now: nat, tat0: nat, interval: nat, tau: nat)
    requires Linear(sh, tat0, interval, tau)
    ensures
      var (d, tat) := Step(interval, tau, sh.tat, now);
      Linear(Shared(tat, sh.threads, sh.decided + [(now, d)]), tat0, interval, tau)
  {
    var (d, tat) := Step(interval, tau, sh.tat, now);
    var decided := sh.decided + [(now, d)];
    var times := Times(decided);
    assert times[..|times| - 1] == Times(sh.decided);
    forall i | 0 <= i < |decided| ensures DecidedRight(decided, i, tat0, interval, tau) {
      if i < |sh.decided| {
        assert DecidedRight(sh.decided, i, tat0, interval, tau);
        assert decided[..i] == sh.decided[..i];
      } else {
        assert decided[..i] == sh.decided;
      }
    }
  }

  lemma NextIsLinear(sh: Shared, t: nat, move: Move, tat0: nat, interval: nat, tau: nat)
    requires t < |sh.threads| && Linear(sh, tat0, interval, tau) && Poised(sh, tau)
    ensures Linear(Next(sh, t, move, interval, tau), tat0, interval, tau)
        && Poised(Next(sh, t, move, interval, tau), tau)
    ensures sh.decided <= Next(sh, t, move, interval, tau).decided
    ensures |Next(sh, t, move, interval, tau).threads| == |sh.threads|
  {
    if !sh.threads[t].Idle? {
      Decides(sh, sh.threads[t].now, tat0, interval, tau);
    }
  }

  /** Main result for the loop: every interleaving of any number of threads
      linearises. The calls decided so far, taken one by one in the order of
      their deciding accesses, get the very answers they got, and leave the TAT
      as it is. */
  lemma {:induction false} LoopLinearises(trace: seq<Shared>, moves: seq<(nat, Move)>, interval: nat, tau: nat, i: nat)
    requires Interleaving(trace, moves, interval, tau) && i < |trace|
    requires trace[0].decided == [] && forall t :: 0 <= t < |trace[0].threads| ==> trace[0].threads[t].Idle?
    ensures Linear(trace[i], trace[0].tat, interval, tau) && Poised(trace[i], tau)
  {
    if i > 0 {
      LoopLinearises(trace, moves, interval, tau, i - 1);
      NextIsLinear(trace[i - 1], moves[i - 1].0, moves[i - 1].1, trace[0].tat, interval, tau);
    }
  }

  /** How many calls with a clock within [from, to] were admitted. */
  function Allowed(decided: seq<(nat, Decision)>, from: nat, to: nat): nat {
    if decided == [] then 0
    else
      var (now, d) := decided[|decided| - 1];
      Allowed(decided[..|decided| - 1], from, to) + if d.Allow? && from <= now <= to then 1 else 0
  }

  lemma {:induction false} AllowedIsAdmitted(decided: seq<(nat, Decision)>, tat0: nat, interval: nat, tau: nat,
                                             from: nat, to: nat)
    requires forall i :: 0 <= i < |decided| ==> DecidedRight(decided, i, tat0, interval, tau)
    ensures Allowed(decided, from, to) == Admitted(interval, tau, tat0, Times(decided), from, to)
  {
    if decided != [] {
      var n := |decided| - 1;
      var init, times := decided[..n], Times(decided);
      forall i | 0 <= i < n ensures DecidedRight(init, i, tat0, interval, tau) {
        assert DecidedRight(decided, i, tat0, interval, tau);
        assert init[..i] == decided[..i];
      }
      AllowedIsAdmitted(init, tat0, interval, tau, from, to);
      assert times[..n] == Times(init);
      assert DecidedRight(decided, n, tat0, interval, tau);
    }
  }

  /** The window bound holds for the threads together, even when their clocks
      reach the word out of order. */
  lemma LoopWindowBound(trace: seq<Shared>, moves: seq<(nat, Move)>, interval: nat, tau: nat, i: nat, from: nat,
                        to: nat)
    requires Interleaving(trace, moves, interval, tau) && i < |trace|
    requires trace[0].decided == [] && forall t :: 0 <= t < |trace[0].threads| ==> trace[0].threads[t].Idle?
    requires 0 < interval && tau <= MAX_TAU && trace[0].tat <= U64_MAX && from <= to
    requires forall j :: 0 <= j < |trace[i].decided| ==> trace[i].decided[j].0 < CLOCK_END
    ensures Allowed(trace[i].decided, from, to) <= 1 + (to - from + tau) / interval
  {
    LoopLinearises(trace, moves, interval, tau, i);
    AllowedIsAdmitted(trace[i].decided, trace[0].tat, interval, tau, from, to);
    WindowBound(interval, tau, trace[0].tat, Times(trace[i].decided), from, to);
  }

  lemma {:induction false} DecidedGrows(trace: seq<Shared>, moves: seq<(nat, Move)>, interval: nat, tau: nat, i: nat,
                                        j: nat)
    requires Interleaving(trace, moves, interval, tau) && i <= j < |trace|
    ensures trace[i].decided <= trace[j].decided
    decreases j
  {
    if i < j {
      DecidedGrows(trace, moves, interval, tau, i, j - 1);
    }
  }

  /** Over a run of the loop the TAT never falls. */
  lemma LoopTatNeverFalls(trace: seq<Shared>, moves: seq<(nat, Move)>, interval: nat, tau: nat, i: nat, j: nat)
    requires Interleaving(trace, moves, interval, tau) && i <= j < |trace|
    requires trace[0].decided == [] && forall t :: 0 <= t < |trace[0].threads| ==> trace[0].threads[t].Idle?
    requires trace[0].tat <= U64_MAX
    ensures trace[i].tat <= trace[j].tat
  {
    LoopLinearises(trace, moves, interval, tau, i);
    LoopLinearises(trace, moves, interval, tau, j);
    DecidedGrows(trace, moves, interval, tau, i, j);
    var n := |trace[i].decided|;
    TatNeverFalls(interval, tau, trace[0].tat, Times(trace[j].decided), n);
    assert Times(trace[j].decided)[..n] == Times(trace[i].decided);
  }
}
