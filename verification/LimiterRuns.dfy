/** What one key gets over whole runs of a limiter: the answers of a single GCRA, whatever
    happens to the other keys (rateguard-core/src/limiter.rs).
 */
module LimiterRuns {
  import opened Wrappers
  import opened Quotas
  import opened Limiter
  import HotSet
  import Gcra
  import GcraRuns
  import Member

  /** The key comes in with operation `from` and is tracked up to state `end`. */
  ghost predicate Tracked(trace: seq<State>, k: nat, from: nat, end: nat) {
    from < end && Kept(trace, k, from, end) && k !in trace[from].keys
  }

  predicate Kept(trace: seq<State>, k: nat, from: nat, end: nat) {
    from <= end < |trace| && forall j :: from < j <= end ==> k in trace[j].keys
  }

  /** The operations of a key's GCRA: the checks made of it, and the quotas the ticks gave it. */
  function KeyOps(trace: seq<State>, ops: seq<Op>, k: nat, from: nat, end: nat): seq<Gcra.Op>
    requires Kept(trace, k, from, end) && end <= |ops|
    decreases end
  {
    if end == from then []
    else KeyOps(trace, ops, k, from, end - 1) + KeyOp(ops[end - 1], k, trace[end].keys[k].applied)
  }

  function KeyOp(op: Op, k: nat, given: Quota): seq<Gcra.Op> {
    match op
    case Check(key, _, now, _) => if key == k then [Gcra.Check(now)] else []
    case Count(_, _, _, _) => []
    case Hold(_) => []
    case OnTick(t, _) => [Gcra.Set(given, t.now)]
  }

  /** `answers` is what the callers of each operation of the run were told. */
  ghost predicate Answered(c: Config, trace: seq<State>, ops: seq<Op>, answers: seq<Option<Gcra.Decision>>) {
    && Run(c, trace, ops) && |answers| == |ops|
    && forall i :: 0 <= i < |answers| ==> answers[i] == Answer(c, trace[i], ops[i])
  }

  ghost function Answer(c: Config, s: State, op: Op): Option<Gcra.Decision>
    requires AllValid(s.keys) && Callable(s, op)
  {
    if op.Check? then Some(Checked(c, s, op.key, op.limit, op.now, op.n).0) else None
  }

  /** Of these, the ones about the key, in order. */
  function Given(ops: seq<Op>, answers: seq<Option<Gcra.Decision>>, k: nat, from: nat, end: nat): seq<Gcra.Decision>
    requires from <= end <= |ops| == |answers|
    decreases end
  {
    if end == from then [] else Given(ops, answers, k, from, end - 1) + About(ops[end - 1], answers[end - 1], k)
  }

  function About(op: Op, answer: Option<Gcra.Decision>, k: nat): seq<Gcra.Decision> {
    if op.Check? && op.key == k && answer.Some? then [answer.value] else []
  }

  /** The answers of one GCRA to its checks. */
  function AnswersOf(s: Gcra.State, ops: seq<Gcra.Op>): seq<Gcra.Decision>
    requires s.Valid() && GcraRuns.OpsInRange(ops)
  {
    if ops == [] then []
    else
      var init, op := ops[..|ops| - 1], ops[|ops| - 1];
      AnswersOf(s, init) + if op.Check? then [GcraRuns.After(s, init).Check(op.now).0] else []
  }

  lemma OneMoreAnswer(s: Gcra.State, ops: seq<Gcra.Op>, op: Gcra.Op)
    requires s.Valid() && GcraRuns.OpsInRange(ops) && Gcra.OpInRange(op)
    ensures GcraRuns.OpsInRange(ops + [op])
    ensures AnswersOf(s, ops + [op])
         == AnswersOf(s, ops) + if op.Check? then [GcraRuns.After(s, ops).Check(op.now).0] else []
  {
    assert (ops + [op])[..|ops|] == ops;
  }

  lemma OneAnswer(s: Gcra.State, op: Gcra.Op)
    requires s.Valid() && Gcra.OpInRange(op)
    ensures GcraRuns.OpsInRange([op]) && GcraRuns.After(s, [op]) == GcraRuns.Apply(s, op).1
    ensures AnswersOf(s, [op]) == if op.Check? then [s.Check(op.now).0] else []
  {
    OneMoreAnswer(s, [], op);
    GcraRuns.OneMore(s, [], op);
    assert [] + [op] == [op];
  }

  // ----------------------------------------------------------------------- one step

  /** An operation on a limiter that keeps a key does to its GCRA what the key's own part of
      it says, and answers as that GCRA. */
  lemma StepPlays(c: Config, s: State, op: Op, k: nat)
    requires Inv(c, s) && Callable(s, op) && k in s.keys && k in After(c, s, op).keys
    ensures var after := After(c, s, op).keys[k]; var played := KeyOp(op, k, after.applied);
            && s.keys[k].Valid() && after.Valid() && GcraRuns.OpsInRange(played)
            && after.gcra == GcraRuns.After(s.keys[k].gcra, played)
            && About(op, Answer(c, s, op), k) == AnswersOf(s.keys[k].gcra, played)
  {
    StepKeepsInv(c, s, op);
    var gcra := s.keys[k].gcra;
    assert s.keys[k].Valid();
    assert After(c, s, op).keys[k].Valid();
    match op
    case Check(key, limit, now, n) =>
      if key == k {
        OneAnswer(gcra, Gcra.Check(now));
      }
    case Count(_, _, _, _) =>
    case Hold(_) =>
    case OnTick(t, order) =>
      var q := After(c, s, op).keys[k].applied;
      TickIsPointwise(c, s, t, order, k);
      OneAnswer(gcra, Gcra.Set(q, t.now));
  }

  lemma PlayOn(s: Gcra.State, a: seq<Gcra.Op>, b: seq<Gcra.Op>)
    requires s.Valid() && GcraRuns.OpsInRange(a) && GcraRuns.OpsInRange(b) && |b| <= 1
    ensures GcraRuns.OpsInRange(a + b) && GcraRuns.After(s, a + b) == GcraRuns.After(GcraRuns.After(s, a), b)
    ensures AnswersOf(s, a + b) == AnswersOf(s, a) + AnswersOf(GcraRuns.After(s, a), b)
  {
    if b == [] {
      assert a + b == a;
    } else {
      assert b == [b[0]];
      OneMoreAnswer(s, a, b[0]);
      GcraRuns.OneMore(s, a, b[0]);
      OneAnswer(GcraRuns.After(s, a), b[0]);
    }
  }

  /** The operation a key comes in with is a check or a count of it. */
  predicate BringsIn(op: Op, k: nat) { (op.Check? || op.Count?) && op.key == k }

  /** What its GCRA starts as: fresh, at the cold quota under the cap of the moment. */
  function Start(c: Config, s: State, op: Op): (g: Gcra.State)
    requires (op.Check? || op.Count?) && op.n > 0 && op.limit.Valid()
    ensures g.Valid()
  {
    NewKeyIsWithin(c, s.cap, op.limit, op.n);
    Gcra.Fresh(ColdQuota(c, s.cap, op.limit, op.n))
  }

  lemma OnlyCallsBringIn(c: Config, s: State, op: Op, k: nat)
    requires Inv(c, s) && Callable(s, op) && k !in s.keys && k in After(c, s, op).keys
    ensures BringsIn(op, k)
  {
    if op.OnTick? {
      TickIsPointwise(c, s, op.tick, op.order, k);
    }
  }

  lemma FirstPlays(c: Config, s: State, op: Op, k: nat)
    requires Inv(c, s) && Callable(s, op) && k !in s.keys && BringsIn(op, k)
    ensures k in After(c, s, op).keys
    ensures var after := After(c, s, op).keys[k]; var played := KeyOp(op, k, after.applied);
            && after.Valid() && GcraRuns.OpsInRange(played)
            && after.gcra == GcraRuns.After(Start(c, s, op), played)
            && About(op, Answer(c, s, op), k) == AnswersOf(Start(c, s, op), played)
  {
    StepKeepsInv(c, s, op);
    if op.Check? {
      OneAnswer(Start(c, s, op), Gcra.Check(op.now));
    }
    assert After(c, s, op).keys[k].Valid();
  }

  lemma StepOfRun(c: Config, trace: seq<State>, ops: seq<Op>, i: nat)
    requires c.Valid() && Run(c, trace, ops) && i < |ops|
    ensures Inv(c, trace[i]) && Callable(trace[i], ops[i]) && trace[i + 1] == After(c, trace[i], ops[i])
  {
    HotKeysAreTracked(c, trace, ops, i);
  }

  lemma ComesInByACall(c: Config, trace: seq<State>, ops: seq<Op>, k: nat, i: nat)
    requires c.Valid() && Run(c, trace, ops) && i < |ops| && k !in trace[i].keys && k in trace[i + 1].keys
    ensures BringsIn(ops[i], k) && Callable(trace[i], ops[i])
  {
    StepOfRun(c, trace, ops, i);
    OnlyCallsBringIn(c, trace[i], ops[i], k);
  }

  /** One operation in the terms of the key's GCRA, `g` before it. */
  ghost predicate KeyStep(g: Gcra.State, op: Op, answer: Option<Gcra.Decision>, k: nat, after: KeyState) {
    var played := KeyOp(op, k, after.applied);
    && g.Valid() && GcraRuns.OpsInRange(played) && |played| <= 1
    && after.gcra == GcraRuns.After(g, played) && About(op, answer, k) == AnswersOf(g, played)
  }

  function Before(trace: seq<State>, k: nat, from: nat, i: nat, start: Gcra.State): Gcra.State
    requires from <= i < |trace| && (i > from ==> k in trace[i].keys)
  {
    if i == from then start else trace[i].keys[k].gcra
  }

  lemma StepOfKey(c: Config, trace: seq<State>, ops: seq<Op>, k: nat, from: nat, end: nat, i: nat, start: Gcra.State)
    requires c.Valid() && Run(c, trace, ops) && Tracked(trace, k, from, end) && from <= i < end <= |ops|
    requires BringsIn(ops[from], k) && Callable(trace[from], ops[from]) && start == Start(c, trace[from], ops[from])
    ensures AllValid(trace[i].keys) && Callable(trace[i], ops[i])
    ensures KeyStep(Before(trace, k, from, i, start), ops[i], Answer(c, trace[i], ops[i]), k, trace[i + 1].keys[k])
  {
    StepOfRun(c, trace, ops, i);
    if i > from {
      StepPlays(c, trace[i], ops[i], k);
    } else {
      FirstPlays(c, trace[i], ops[i], k);
    }
  }

  /** The key's GCRA and answers so far are those of `start` played. */
  ghost predicate Played(ops: seq<Gcra.Op>, answers: seq<Gcra.Decision>, start: Gcra.State, now: Gcra.State) {
    && start.Valid() && GcraRuns.OpsInRange(ops)
    && now == GcraRuns.After(start, ops) && answers == AnswersOf(start, ops)
  }

  lemma PlayedOneMore(ops: seq<Gcra.Op>, answers: seq<Gcra.Decision>, start: Gcra.State, g: Gcra.State, op: Op,
                      answer: Option<Gcra.Decision>, k: nat, after: KeyState)
    requires Played(ops, answers, start, g) && KeyStep(g, op, answer, k, after)
    ensures Played(ops + KeyOp(op, k, after.applied), answers + About(op, answer, k), start, after.gcra)
  {
    PlayOn(start, ops, KeyOp(op, k, after.applied));
  }

  /** Every operation so far is such a step. */
  ghost predicate KeySteps(trace: seq<State>, ops: seq<Op>, answers: seq<Option<Gcra.Decision>>, k: nat, from: nat,
                           end: nat, start: Gcra.State)
    requires Kept(trace, k, from, end) && end <= |ops| == |answers|
    decreases end
  {
    end > from ==>
      && KeySteps(trace, ops, answers, k, from, end - 1, start)
      && KeyStep(Before(trace, k, from, end - 1, start), ops[end - 1], answers[end - 1], k, trace[end].keys[k])
  }

  lemma {:induction false} EachIsAStep(trace: seq<State>, ops: seq<Op>, answers: seq<Option<Gcra.Decision>>, k: nat,
                                       from: nat, end: nat, start: Gcra.State)
    requires Kept(trace, k, from, end) && end <= |ops| == |answers|
    requires forall i, j :: from <= i < j <= end && j == i + 1 ==>
               KeyStep(Before(trace, k, from, i, start), ops[i], answers[i], k, trace[j].keys[k])
    ensures KeySteps(trace, ops, answers, k, from, end, start)
    decreases end
  {
    if end > from {
      EachIsAStep(trace, ops, answers, k, from, end - 1, start);
    }
  }

  lemma {:induction false} PlayedUpTo(trace: seq<State>, ops: seq<Op>, answers: seq<Option<Gcra.Decision>>, k: nat,
                                      from: nat, end: nat, start: Gcra.State)
    requires from < end && Kept(trace, k, from, end) && end <= |ops| == |answers| && start.Valid()
    requires KeySteps(trace, ops, answers, k, from, end, start)
    ensures Played(KeyOps(trace, ops, k, from, end), Given(ops, answers, k, from, end), start, trace[end].keys[k].gcra)
    decreases end
  {
    if end - 1 > from {
      PlayedUpTo(trace, ops, answers, k, from, end - 1, start);
    }
    PlayedOnce(trace, ops, answers, k, from, end, start);
  }

  lemma PlayedOnce(trace: seq<State>, ops: seq<Op>, answers: seq<Option<Gcra.Decision>>, k: nat, from: nat, end: nat,
                   start: Gcra.State)
    requires from < end && Kept(trace, k, from, end) && end <= |ops| == |answers| && start.Valid()
    requires KeyStep(Before(trace, k, from, end - 1, start), ops[end - 1], answers[end - 1], k, trace[end].keys[k])
    requires end - 1 > from ==>
               Played(KeyOps(trace, ops, k, from, end - 1), Given(ops, answers, k, from, end - 1), start,
                      trace[end - 1].keys[k].gcra)
    ensures Played(KeyOps(trace, ops, k, from, end), Given(ops, answers, k, from, end), start, trace[end].keys[k].gcra)
  {
    if end - 1 == from {
      assert KeyOps(trace, ops, k, from, from) == [] && Given(ops, answers, k, from, from) == [];
      assert Played([], [], start, start);
    }
    PlayedOneMore(KeyOps(trace, ops, k, from, end - 1), Given(ops, answers, k, from, end - 1), start,
                  Before(trace, k, from, end - 1, start), ops[end - 1], answers[end - 1], k, trace[end].keys[k]);
  }

  /** Main result: while a key is tracked its GCRA and every answer given for it are those of
      one GCRA, fresh at the cold quota it came in with and given the quotas of the ticks,
      and nothing asked of other keys shows. */
  lemma KeyIsOneGcra(c: Config, trace: seq<State>, ops: seq<Op>, answers: seq<Option<Gcra.Decision>>, k: nat,
                     from: nat, end: nat)
    requires c.Valid() && Answered(c, trace, ops, answers) && Tracked(trace, k, from, end)
    ensures BringsIn(ops[from], k)
    ensures var start, played := Start(c, trace[from], ops[from]), KeyOps(trace, ops, k, from, end);
            && GcraRuns.OpsInRange(played) && trace[end].keys[k].gcra == GcraRuns.After(start, played)
            && Given(ops, answers, k, from, end) == AnswersOf(start, played)
  {
    ComesInByACall(c, trace, ops, k, from);
    var start := Start(c, trace[from], ops[from]);
    forall i, j | from <= i < j <= end && j == i + 1
      ensures KeyStep(Before(trace, k, from, i, start), ops[i], answers[i], k, trace[j].keys[k])
    {
      StepOfKey(c, trace, ops, k, from, end, i, start);
    }
    EachIsAStep(trace, ops, answers, k, from, end, start);
    PlayedUpTo(trace, ops, answers, k, from, end, start);
  }

  // ----------------------------------------------------------------- what is admitted

  function Allowed(answers: seq<Gcra.Decision>): nat {
    if answers == [] then 0
    else Allowed(answers[..|answers| - 1]) + if answers[|answers| - 1].Allow? then 1 else 0
  }

  lemma OneMoreAllowed(answers: seq<Gcra.Decision>, d: Gcra.Decision)
    ensures Allowed(answers + [d]) == Allowed(answers) + if d.Allow? then 1 else 0
  {
    assert (answers + [d])[..|answers|] == answers;
  }

  lemma {:induction false} AllowedIsAdmits(s: Gcra.State, ops: seq<Gcra.Op>)
    requires s.Valid() && GcraRuns.OpsInRange(ops)
    ensures Allowed(AnswersOf(s, ops)) == GcraRuns.Admits(s, ops)
  {
    if ops != [] {
      var init, op := ops[..|ops| - 1], ops[|ops| - 1];
      AllowedIsAdmits(s, init);
      GcraRuns.OneMore(s, init, op);
      assert ops == init + [op];
      OneMoreAllowed(AnswersOf(s, init), GcraRuns.After(s, init).Check(op.now).0);
      assert AnswersOf(s, init) + [] == AnswersOf(s, init);
    }
  }

  /** So the bound on one limiter whose quota changes is the bound on what the callers of a
      tracked key get. */
  lemma KeyAdmitsWithin(c: Config, trace: seq<State>, ops: seq<Op>, answers: seq<Option<Gcra.Decision>>, k: nat,
                        from: nat, end: nat, at: nat)
    requires c.Valid() && Answered(c, trace, ops, answers) && Tracked(trace, k, from, end) && BringsIn(ops[from], k)
    requires var start := Start(c, trace[from], ops[from]);
             GcraRuns.Timed(start, at, KeyOps(trace, ops, k, from, end), start.quota.burst)
    ensures var start, played := Start(c, trace[from], ops[from]), KeyOps(trace, ops, k, from, end);
            && GcraRuns.OpsInRange(played)
            && Allowed(Given(ops, answers, k, from, end)) as real
               <= GcraRuns.Largest(start.quota.burst, played) as real + GcraRuns.Allowance(start, at, played)
  {
    var start, played := Start(c, trace[from], ops[from]), KeyOps(trace, ops, k, from, end);
    KeyIsOneGcra(c, trace, ops, answers, k, from, end);
    AllowedIsAdmits(start, played);
    GcraRuns.ChangingQuotaBound(start, at, played);
  }

  // ------------------------------------------------------------ what is kept of the calls

  /** The limit the last check or count of the key came with. */
  function LastLimit(ops: seq<Op>, k: nat, from: nat, end: nat): Limit
    requires from < end <= |ops| && BringsIn(ops[from], k)
    decreases end
  {
    if BringsIn(ops[end - 1], k) then ops[end - 1].limit else LastLimit(ops, k, from, end - 1)
  }

  /** Attempts made since the last tick, and what that tick left of those before. */
  function Waiting(ops: seq<Op>, k: nat, from: nat, end: nat): nat
    requires from <= end <= |ops|
    decreases end
  {
    if end == from then 0
    else if ops[end - 1].OnTick? then ops[end - 1].tick.folded(k).attempts
    else Waiting(ops, k, from, end - 1) + Attempts(ops[end - 1], k)
  }

  function Attempts(op: Op, k: nat): nat {
    if !BringsIn(op, k) then 0 else if op.Check? then 1 else op.attempts
  }

  lemma StepKeepsCalls(c: Config, s: State, op: Op, t: State, k: nat)
    requires Inv(c, s) && Callable(s, op) && t == After(c, s, op) && k in t.keys
    ensures CallStep(s, op, k, t.keys[k])
  {
    match op
    case Check(_, _, _, _) =>
    case Count(_, _, _, _) =>
    case Hold(_) =>
    case OnTick(tick, order) => TickIsPointwise(c, s, tick, order, k);
  }

  /** What one operation makes of a key's limit and of the attempts waiting. */
  predicate CallStep(s: State, op: Op, k: nat, after: KeyState) {
    && (k !in s.keys ==> BringsIn(op, k))
    && (BringsIn(op, k) ==> after.limit == op.limit)
    && (k in s.keys && !BringsIn(op, k) ==> after.limit == s.keys[k].limit)
    && after.demand.attempts == if op.OnTick? then op.tick.folded(k).attempts
                                else Attempts(op, k) + if k in s.keys then s.keys[k].demand.attempts else 0
  }

  lemma {:induction false} KeptUpTo(trace: seq<State>, ops: seq<Op>, k: nat, from: nat, end: nat)
    requires from < end <= |ops| && Tracked(trace, k, from, end)
    requires forall i, j :: from <= i < j <= end && j == i + 1 ==> CallStep(trace[i], ops[i], k, trace[j].keys[k])
    ensures BringsIn(ops[from], k)
    ensures trace[end].keys[k].limit == LastLimit(ops, k, from, end)
    ensures trace[end].keys[k].demand.attempts == Waiting(ops, k, from, end)
    decreases end
  {
    assert CallStep(trace[end - 1], ops[end - 1], k, trace[end].keys[k]);
    if end - 1 > from {
      KeptUpTo(trace, ops, k, from, end - 1);
    } else {
      assert Waiting(ops, k, from, from) == 0;
    }
  }

  /** Whatever was asked of other keys, a tracked key has the limit it last came with and
      every attempt made of it since the last tick waiting for the next. */
  lemma CallsAreKept(c: Config, trace: seq<State>, ops: seq<Op>, k: nat, from: nat, end: nat)
    requires c.Valid() && Run(c, trace, ops) && Tracked(trace, k, from, end)
    ensures BringsIn(ops[from], k)
    ensures trace[end].keys[k].limit == LastLimit(ops, k, from, end)
    ensures trace[end].keys[k].demand.attempts == Waiting(ops, k, from, end)
  {
    forall i, j | from <= i < j <= end && j == i + 1 ensures CallStep(trace[i], ops[i], k, trace[j].keys[k]) {
      StepOfRun(c, trace, ops, i);
      StepKeepsCalls(c, trace[i], ops[i], trace[j], k);
    }
    KeptUpTo(trace, ops, k, from, end);
  }

  /** Nothing but a tick forgets a key. */
  lemma OnlyTicksForget(c: Config, s: State, op: Op, k: nat)
    requires Inv(c, s) && Callable(s, op) && k in s.keys && k !in After(c, s, op).keys
    ensures op.OnTick?
  {
  }

  // ------------------------------------------------------- one burst, clocks in order

  predicate HasClock(op: Op) { op.Check? || op.OnTick? }

  function Clock(op: Op): nat
    requires HasClock(op)
  {
    if op.Check? then op.now else op.tick.now
  }

  predicate ClockedWithin(ops: seq<Op>, from: nat, end: nat, at: nat, later: nat) {
    forall i :: from <= i < end <= |ops| && HasClock(ops[i]) ==> at <= Clock(ops[i]) <= later
  }

  predicate ClocksInOrder(ops: seq<Op>, from: nat, end: nat) {
    forall i, j :: from <= i < j < end <= |ops| && HasClock(ops[i]) && HasClock(ops[j]) ==>
      Clock(ops[i]) <= Clock(ops[j])
  }

  predicate OneBurst(ops: seq<Op>, k: nat, from: nat, end: nat, burst: nat) {
    forall i :: from <= i < end <= |ops| && BringsIn(ops[i], k) ==> ops[i].limit.burst == burst
  }

  lemma {:induction false} LastLimitHasTheBurst(ops: seq<Op>, k: nat, from: nat, end: nat, burst: nat)
    requires from < end <= |ops| && BringsIn(ops[from], k) && OneBurst(ops, k, from, end, burst)
    ensures LastLimit(ops, k, from, end).burst == burst
    decreases end
  {
    if !BringsIn(ops[end - 1], k) {
      LastLimitHasTheBurst(ops, k, from, end - 1, burst);
    }
  }

  /** A GCRA's operations in order and of one burst. */
  ghost predicate InOrder(ops: seq<Gcra.Op>, at: nat, later: nat, burst: nat) {
    && (forall i :: 0 <= i < |ops| ==> at <= ops[i].now <= later && Gcra.OpInRange(ops[i]))
    && (forall i :: 0 <= i < |ops| && ops[i].Set? ==> ops[i].quota.burst == burst)
    && (forall i, j :: 0 <= i < j < |ops| ==> ops[i].now <= ops[j].now)
  }

  /** The one operation a limiter's makes of a key's GCRA, if any, is of its time and burst. */
  predicate Fits(op: Op, played: seq<Gcra.Op>, burst: nat) {
    && |played| <= 1
    && forall i :: 0 <= i < |played| ==>
         && HasClock(op) && played[i].now == Clock(op) && Gcra.OpInRange(played[i])
         && (played[i].Set? ==> played[i].quota.burst == burst)
  }

  lemma TickKeepsTheBurst(c: Config, s: State, t: Tick, order: seq<nat>, after: State, k: nat)
    requires Inv(c, s) && t.n > 0 && OrderOf(order, s.keys) && after == Ticked(c, s, t, order) && k in after.keys
    ensures k in s.keys && InRange(after.keys[k].applied) && after.keys[k].applied.burst == s.keys[k].limit.burst
  {
    TickHoldsEveryKey(c, s, t, order, k);
  }

  lemma TickOfRun(c: Config, trace: seq<State>, ops: seq<Op>, k: nat, i: nat)
    requires c.Valid() && Run(c, trace, ops) && i < |ops| && ops[i].OnTick? && k in trace[i + 1].keys
    ensures k in trace[i].keys && InRange(trace[i + 1].keys[k].applied)
    ensures trace[i + 1].keys[k].applied.burst == trace[i].keys[k].limit.burst
  {
    StepOfRun(c, trace, ops, i);
    TickKeepsTheBurst(c, trace[i], ops[i].tick, ops[i].order, trace[i + 1], k);
  }

  lemma LimitHasTheBurst(c: Config, trace: seq<State>, ops: seq<Op>, k: nat, from: nat, end: nat, burst: nat)
    requires c.Valid() && Run(c, trace, ops) && Tracked(trace, k, from, end) && OneBurst(ops, k, from, end, burst)
    ensures trace[end].keys[k].limit.burst == burst
  {
    CallsAreKept(c, trace, ops, k, from, end);
    LastLimitHasTheBurst(ops, k, from, end, burst);
  }

  lemma KeyOpFits(c: Config, trace: seq<State>, ops: seq<Op>, k: nat, from: nat, last: nat, burst: nat)
    requires c.Valid() && Run(c, trace, ops) && Tracked(trace, k, from, last + 1) && last < |ops|
    requires OneBurst(ops, k, from, last + 1, burst)
    ensures Fits(ops[last], KeyOp(ops[last], k, trace[last + 1].keys[k].applied), burst)
  {
    if ops[last].OnTick? {
      TickOfRun(c, trace, ops, k, last);
      LimitHasTheBurst(c, trace, ops, k, from, last, burst);
    }
  }

  lemma JoinInOrder(a: seq<Gcra.Op>, b: seq<Gcra.Op>, op: Op, at: nat, later: nat, burst: nat)
    requires InOrder(a, at, Until(op, later), burst) && Fits(op, b, burst) && at <= Until(op, later) <= later
    ensures InOrder(a + b, at, later, burst)
  {
  }

  function Until(op: Op, later: nat): nat { if HasClock(op) then Clock(op) else later }

  ghost predicate AllFit(trace: seq<State>, ops: seq<Op>, k: nat, from: nat, end: nat, burst: nat)
    requires Kept(trace, k, from, end) && end <= |ops|
  {
    forall i, j :: from <= i < j <= end && j == i + 1 ==>
      Fits(ops[i], KeyOp(ops[i], k, trace[j].keys[k].applied), burst)
  }

  lemma {:induction false} KeyOpsInOrder(trace: seq<State>, ops: seq<Op>, k: nat, from: nat, end: nat,
                                         at: nat, later: nat, burst: nat)
    requires Kept(trace, k, from, end) && end <= |ops| && AllFit(trace, ops, k, from, end, burst)
    requires at <= later && ClockedWithin(ops, from, end, at, later) && ClocksInOrder(ops, from, end)
    ensures InOrder(KeyOps(trace, ops, k, from, end), at, later, burst)
    decreases end
  {
    if end > from {
      var op := ops[end - 1];
      KeyOpsInOrder(trace, ops, k, from, end - 1, at, Until(op, later), burst);
      JoinInOrder(KeyOps(trace, ops, k, from, end - 1), KeyOp(op, k, trace[end].keys[k].applied), op, at, later, burst);
    }
  }

  lemma {:induction false} InOrderIsNeverLowered(ops: seq<Gcra.Op>, at: nat, later: nat, burst: nat)
    requires InOrder(ops, at, later, burst) && later < Gcra.CLOCK_END
    ensures GcraRuns.NeverLowered(at, ops, burst) && GcraRuns.Largest(burst, ops) == burst
    decreases |ops|
  {
    if ops != [] {
      InOrderIsNeverLowered(ops[1..], ops[0].now, later, burst);
    }
  }

  /** Main result for a key with one burst, on a clock that does not run backwards: whatever
      rates it is given and whatever else the limiter does, its callers get no more than the
      burst, the integral of the rate in force, and half a nanosecond's worth per change. */
  lemma KeyKeepsItsRate(c: Config, trace: seq<State>, ops: seq<Op>, answers: seq<Option<Gcra.Decision>>, k: nat,
                        from: nat, end: nat, at: nat, later: nat)
    requires c.Valid() && Answered(c, trace, ops, answers) && Tracked(trace, k, from, end) && BringsIn(ops[from], k)
    requires at <= later < Gcra.CLOCK_END && ClockedWithin(ops, from, end, at, later)
    requires ClocksInOrder(ops, from, end) && OneBurst(ops, k, from, end, ops[from].limit.burst)
    ensures var start, played := Start(c, trace[from], ops[from]), KeyOps(trace, ops, k, from, end);
            && GcraRuns.OpsInRange(played)
            && Allowed(Given(ops, answers, k, from, end)) as real
               <= ops[from].limit.burst as real + GcraRuns.Allowance(start, at, played)
  {
    var burst, start := ops[from].limit.burst, Start(c, trace[from], ops[from]);
    var played := KeyOps(trace, ops, k, from, end);
    assert start.quota.burst == burst by {
      PerSecondErrsStrict(NewKeyRate(c, trace[from].cap, ops[from].limit, ops[from].n), burst);
    }
    forall i, j | from <= i < j <= end && j == i + 1
      ensures Fits(ops[i], KeyOp(ops[i], k, trace[j].keys[k].applied), burst)
    {
      KeyOpFits(c, trace, ops, k, from, i, burst);
    }
    KeyOpsInOrder(trace, ops, k, from, end, at, later, burst);
    InOrderIsNeverLowered(played, at, later, burst);
    GcraRuns.RisingBurstsCarry(start, at, played, burst);
    KeyAdmitsWithin(c, trace, ops, answers, k, from, end, at);
  }

  // ---------------------------------------------------------------- what a tick decides

  /** `w` is one of the rates and none is below it. */
  predicate IsLeast(w: real, rates: seq<real>) {
    w in rates && forall i :: 0 <= i < |rates| ==> w <= rates[i]
  }

  /** The rates that bound a key from a tick on: its share while hot, else the cold rate and,
      if a peer holds it hot and it has any demand, the floor; and the cap if there is one. */
  function Bounds(c: Config, s: State, t: Tick, k: nat, limit: Limit, isHot: bool): seq<real>
    requires t.n > 0
  {
    var own := t.folded(k).rate;
    (if isHot then [t.share(k, own, limit.rate)]
     else if own >= SILENT_DEMAND && t.elsewhere(k) then
       [ColdRate(limit, c.alpha, t.n), FloorRate(limit, c.beta, t.n)]
     else [ColdRate(limit, c.alpha, t.n)])
    + if s.cap.Some? then [CapRate(limit, s.cap.value)] else []
  }

  /** N nodes at the cold rate take alpha R together, at the floor beta R. */
  lemma TogetherTheyTakeAPart(limit: Limit, c: Config, n: nat)
    requires n > 0
    ensures ColdRate(limit, c.alpha, n) * n as real == c.alpha * limit.rate
    ensures FloorRate(limit, c.beta, n) * n as real == c.beta * limit.rate
  {
    TimesQuotient(limit.rate, c.alpha, n as real);
    GcraRuns.DivTimes(limit.rate * c.beta, n as real);
  }

  lemma TimesQuotient(a: real, b: real, n: real)
    requires n > 0.0
    ensures a / n * b * n == b * a
  {
    var x := a / n;
    assert x * n == a;
    assert x * b * n == b * (x * n);
  }

  /** A tick gives a key the least of them, no less: with `TickHoldsEveryKey`, exactly. */
  lemma TickGivesTheLeast(c: Config, s: State, t: Tick, order: seq<nat>, k: nat) returns (w: real)
    requires Inv(c, s) && t.n > 0 && OrderOf(order, s.keys) && k in Ticked(c, s, t, order).keys
    ensures k in s.keys && s.keys[k].Valid()
    ensures var limit := s.keys[k].limit;
            && IsLeast(w, Bounds(c, s, t, k, limit, k in Ticked(c, s, t, order).hot))
            && Ticked(c, s, t, order).keys[k].applied == PerSecond(w, limit.burst)
  {
    TickIsPointwise(c, s, t, order, k);
    var limit, isHot := s.keys[k].limit, k in Ticked(c, s, t, order).hot;
    assert s.keys[k].Valid();
    w := Wanted(c, s.cap, t, k, limit, isHot);
    WantedIsLeast(c, s, t, k, limit, isHot);
  }

  lemma WantedIsLeast(c: Config, s: State, t: Tick, k: nat, limit: Limit, isHot: bool)
    requires t.n > 0
    ensures IsLeast(Wanted(c, s.cap, t, k, limit, isHot), Bounds(c, s, t, k, limit, isHot))
  {
    var bounds := Bounds(c, s, t, k, limit, isHot);
    assert bounds[0] in bounds && bounds[|bounds| - 1] in bounds;
    if |bounds| > 1 {
      assert bounds[1] in bounds;
    }
  }

  lemma NewKeyIsOneOf(c: Config, cap: Option<real>, limit: Limit, n: nat)
    requires n > 0
    ensures NewKeyRate(c, cap, limit, n) == ColdRate(limit, c.alpha, n)
            || (cap.Some? && NewKeyRate(c, cap, limit, n) == CapRate(limit, cap.value))
  {
    QuotientsCommute(limit.rate, c.alpha, n as real);
  }

  /** And a new key starts at the least of the cold rate and the cap. */
  lemma NewKeyStartsAtTheLeast(c: Config, cap: Option<real>, limit: Limit, n: nat) returns (w: real)
    requires n > 0 && limit.Valid()
    ensures ColdQuota(c, cap, limit, n) == PerSecond(w, limit.burst)
    ensures IsLeast(w, [ColdRate(limit, c.alpha, n)] + if cap.Some? then [CapRate(limit, cap.value)] else [])
  {
    w := NewKeyRate(c, cap, limit, n);
    NewKeyIsCold(c, cap, limit, n);
    NewKeyIsOneOf(c, cap, limit, n);
    var bounds := [ColdRate(limit, c.alpha, n)] + if cap.Some? then [CapRate(limit, cap.value)] else [];
    assert bounds[0] in bounds && bounds[|bounds| - 1] in bounds;
  }

  // ------------------------------------------------------------------- who is forgotten

  /** Nothing would make it hot and nothing would be lost with it. */
  predicate Unused(c: Config, s: State, t: Tick, k: nat)
    requires t.n > 0 && k in s.keys
  {
    var own := t.folded(k);
    && own.rate < SILENT_DEMAND && own.rate <= s.keys[k].limit.rate / t.n as real * c.alpha && own.attempts == 0
    && (s.keys[k].gcra.tat.None? || s.keys[k].gcra.tat.value <= t.now)
  }

  lemma VisitDropsTheUnused(c: Config, t: Tick, s: State, keys: Keys, hot: HotSet.Hot, j: nat, k: nat)
    requires t.n > 0 && k in s.keys && k !in hot && Unused(c, s, t, k) && (k in keys ==> keys[k] == s.keys[k])
    ensures var (kept, warm) := Visit(c, t, keys, hot, j);
            k !in warm && (k in kept ==> j != k && k in keys && kept[k] == s.keys[k])
  {
    if j in keys && j != k {
      HotSet.OthersOnlyMakeRoom(hot, c.hot, j, FeedOf(c, t, j, keys[j].limit), k);
    }
  }

  lemma {:induction false} FirstPassDropsTheUnused(c: Config, t: Tick, s: State, order: seq<nat>, k: nat, n: nat)
    requires c.Valid() && t.n > 0 && OrderOf(order, s.keys) && k in s.keys && k !in s.hot && n <= |order|
    requires Unused(c, s, t, k)
    ensures var (kept, hot) := FirstPass(c, t, s.keys, s.hot, order[..n]);
            k !in hot && (k in kept ==> k !in order[..n] && kept[k] == s.keys[k])
  {
    if n > 0 {
      assert order[..n][..n - 1] == order[..n - 1] && order[..n] == order[..n - 1] + [order[n - 1]];
      FirstPassDropsTheUnused(c, t, s, order, k, n - 1);
      var (kept, hot) := FirstPass(c, t, s.keys, s.hot, order[..n - 1]);
      VisitDropsTheUnused(c, t, s, kept, hot, order[n - 1], k);
    }
  }

  /** A key that is not hot, has no demand, no debt and nothing waiting is gone after a tick. */
  lemma UnusedKeysGo(c: Config, s: State, t: Tick, order: seq<nat>, k: nat)
    requires Inv(c, s) && t.n > 0 && OrderOf(order, s.keys) && k in s.keys && k !in s.hot && Unused(c, s, t, k)
    ensures k !in Ticked(c, s, t, order).keys
  {
    FirstPassDropsTheUnused(c, t, s, order, k, |order|);
    assert order[..|order|] == order && k in Member.Elements(order);
    OrderIsOfKeys(order, s.keys);
    FirstPassDropsTheIdle(c, t, s.keys, s.hot, order);
    FirstPassKeepsValid(c, t, s.keys, s.hot, order);
    var (kept, hot) := FirstPass(c, t, s.keys, s.hot, order);
    UnderCapKeepsTheHot(SecondPass(c, s.cap, t, kept, hot), hot, c.maxTracked);
  }
}
