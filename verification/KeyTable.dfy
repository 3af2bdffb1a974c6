/** The lock-free key table (rateguard/src/table.rs) as a step machine: one
    atomic load, compare-and-swap or store per step, any number of threads, any
    keys, any interleaving, under sequential consistency.

    Slots a thread works on are named by their position in its key's canonical
    candidate list, so "the same slot" is "the same position".
 */
module KeyTable {

  const BUCKET := 8
  const EMPTY := 0
  const BUSY := 0xFFFF_FFFF_FFFF_FFFF

  /** What a key hash may be: `key_hash` never yields the two reserved words. */
  predicate IsKey(k: nat) { EMPTY < k < BUSY }

  /** The slots a key may take, in their canonical order: its first bucket, then
      its second, once if they are the same. What the protocol needs of them is
      `Proper`; which ones they are is `TableLayout`'s matter. */
  datatype Layout = Layout(size: nat, candidates: nat -> seq<nat>) {
    ghost predicate Valid() {
      forall k :: Proper(candidates(k), size)
    }

    predicate Single(k: nat) { |candidates(k)| == BUCKET }
  }

  predicate Proper(c: seq<nat>, size: nat) {
    && (|c| == BUCKET || |c| == 2 * BUCKET)
    && (forall p :: 0 <= p < |c| ==> c[p] < size)
    && (forall p, q :: 0 <= p < q < |c| ==> c[p] != c[q])
  }

  lemma CandidatesDistinct(l: Layout, k: nat)
    requires l.Valid()
    ensures Proper(l.candidates(k), l.size)
  {
  }

  // ---------------------------------------------------------------- the machine

  /** Where a thread goes on after a release. */
  datatype Next =
    | Freed                                                      // the background task is done
    | Resume(key: nat, mine: nat, at: nat, winner: nat)          // `claim` freed a later copy
    | Finish(key: nat, mine: nat, winner: nat)                   // `claim` freed its own copy

  datatype Result = Nothing | Overflow | Slot(slot: nat, taken: bool)

  /** A thread between two atomic steps. */
  datatype Pc =
    | Idle(result: Result)
    | Find(key: nat, i: nat)
    | Count(key: nat, i: nat, second: nat, first: nat)
    | Look(key: nat, swapped: bool, i: nat)
    | Cas(key: nat, swapped: bool, i: nat)
    | Scan(key: nat, mine: nat, i: nat, winner: nat, mineSeen: bool)
    | Take(slot: nat, key: nat, next: Next)
    | Reset(slot: nat, next: Next)

  datatype State = State(slots: seq<nat>, threads: seq<Pc>)

  datatype Op = Claim(key: nat) | Release(slot: nat, key: nat)

  predicate ValidOp(l: Layout, op: Op) {
    IsKey(op.key) && (op.Release? ==> op.slot < l.size)
  }

  /** The candidate position of the `i`-th slot of bucket `b` of the key. */
  function Position(l: Layout, k: nat, b: nat, i: nat): nat
  {
    if b == 1 && !l.Single(k) then BUCKET + i else i
  }

  /** The `i`-th slot to be tried: the emptier bucket first. */
  function Tried(l: Layout, k: nat, swapped: bool, i: nat): nat {
    if i < BUCKET then Position(l, k, if swapped then 1 else 0, i)
    else Position(l, k, if swapped then 0 else 1, i - BUCKET)
  }

  function After(l: Layout, next: Next): Pc
    requires l.Valid()
    requires next.Finish? ==> next.winner < |l.candidates(next.key)|
  {
    match next
    case Freed => Idle(Nothing)
    case Resume(k, mine, at, winner) => Scan(k, mine, at + 1, winner, true)
    case Finish(k, _, winner) => Idle(Slot(l.candidates(k)[winner], false))
  }

  /** The next step of thread `t`: the slots it leaves behind and where it
      stands. `op` is the call it makes if it is between calls. */
  function Step(l: Layout, slots: seq<nat>, pc: Pc, op: Op): (r: (seq<nat>, Pc))
    requires l.Valid() && |slots| == l.size && PcOk(l, pc) && ValidOp(l, op)
    ensures |r.0| == |slots|
  {
    match pc
    case Idle(_) =>
      (slots, match op
      case Claim(k) => Find(k, 0)
      case Release(s, k) => Take(s, k, Freed))
    case Find(k, i) =>
      CandidatesDistinct(l, k);
      var c := l.candidates(k);
      if i == |c| then (slots, Count(k, 0, 0, 0))
      else if slots[c[i]] == k then (slots, Idle(Slot(c[i], false)))
      else (slots, Find(k, i + 1))
    case Count(k, i, second, first) =>
      CandidatesDistinct(l, k);
      var c := l.candidates(k);
      if i == 2 * BUCKET then (slots, Look(k, second < first, 0))
      else if i < BUCKET then
        var full := slots[c[Position(l, k, 1, i)]] != EMPTY;
        (slots, Count(k, i + 1, if full then second + 1 else second, first))
      else
        var full := slots[c[Position(l, k, 0, i - BUCKET)]] != EMPTY;
        (slots, Count(k, i + 1, second, if full then first + 1 else first))
    case Look(k, swapped, i) =>
      CandidatesDistinct(l, k);
      if i == 2 * BUCKET then (slots, Idle(Overflow))
      else if slots[l.candidates(k)[Tried(l, k, swapped, i)]] == EMPTY then (slots, Cas(k, swapped, i))
      else (slots, Look(k, swapped, i + 1))
    case Cas(k, swapped, i) =>
      CandidatesDistinct(l, k);
      var mine := Tried(l, k, swapped, i);
      var slot := l.candidates(k)[mine];
      if slots[slot] == EMPTY then (slots[slot := k], Scan(k, mine, 0, mine, false))
      else (slots, Look(k, swapped, i + 1))
    case Scan(k, mine, i, winner, mineSeen) =>
      CandidatesDistinct(l, k);
      var c := l.candidates(k);
      if i == |c| then
        (slots, if winner != mine then Take(c[mine], k, Finish(k, mine, winner))
        else Idle(Slot(c[mine], true)))
      else if i == mine then (slots, Scan(k, mine, i + 1, winner, true))
      else if slots[c[i]] != k then (slots, Scan(k, mine, i + 1, winner, mineSeen))
      else if mineSeen then (slots, Take(c[i], k, Resume(k, mine, i, winner)))
      else (slots, Scan(k, mine, i + 1, if winner == mine then i else winner, false))
    case Take(s, k, next) =>
      if slots[s] == k then (slots[s := BUSY], Reset(s, next))
      else (slots, After(l, next))
    case Reset(s, next) =>
      (slots[s := EMPTY], After(l, next))
  }

  function StepThread(l: Layout, st: State, t: nat, op: Op): (st': State)
    requires l.Valid() && Shaped(l, st) && t < |st.threads| && ValidOp(l, op)
    ensures |st'.slots| == |st.slots| && |st'.threads| == |st.threads|
  {
    var (slots, pc) := Step(l, st.slots, st.threads[t], op);
    State(slots, st.threads[t := pc])
  }

  // ------------------------------------------------------------ shape of a thread

  predicate NextOk(l: Layout, next: Next)
    requires l.Valid()
  {
    match next
    case Freed => true
    case Resume(k, mine, at, winner) =>
      IsKey(k) && winner <= mine < at < |l.candidates(k)|
    case Finish(k, mine, winner) =>
      IsKey(k) && winner < mine < |l.candidates(k)|
  }

  predicate PcOk(l: Layout, pc: Pc)
    requires l.Valid()
  {
    match pc
    case Idle(_) => true
    case Find(k, i) => IsKey(k) && i <= |l.candidates(k)|
    case Count(k, i, _, _) => IsKey(k) && i <= 2 * BUCKET
    case Look(k, _, i) => IsKey(k) && i <= 2 * BUCKET
    case Cas(k, _, i) => IsKey(k) && i < 2 * BUCKET
    case Scan(k, mine, i, winner, mineSeen) =>
      && IsKey(k)
      && winner <= mine < |l.candidates(k)|
      && i <= |l.candidates(k)|
      && (mineSeen <==> mine < i)
      && (winner == mine || winner < i)
    case Take(s, k, next) =>
      && IsKey(k) && s < l.size && NextOk(l, next)
      && (next.Resume? ==> k == next.key && s == l.candidates(k)[next.at])
      && (next.Finish? ==> k == next.key && s == l.candidates(k)[next.mine])
    case Reset(s, next) =>
      && s < l.size && NextOk(l, next)
      && (next.Resume? ==> s == l.candidates(next.key)[next.at])
      && (next.Finish? ==> s == l.candidates(next.key)[next.mine])
  }

  ghost predicate Shaped(l: Layout, st: State)
    requires l.Valid()
  {
    && |st.slots| == l.size
    && forall t :: 0 <= t < |st.threads| ==> PcOk(l, st.threads[t])
  }

  // -------------------------------------------------------------------- invariant

  /** The thread still owes the table a look at candidate `p`, or the return of
      its own copy at `mine`: whichever of the two copies is the later one in
      the canonical order, it will give it back. */
  predicate Owes(pc: Pc, k: nat, mine: nat, p: nat) {
    match pc
    case Scan(key, m, i, winner, _) => key == k && m == mine && (winner != m || i <= p)
    case Take(_, _, Resume(key, m, at, winner)) => key == k && m == mine && (winner != m || at <= p)
    case Reset(_, Resume(key, m, at, winner)) => key == k && m == mine && (winner != m || at < p)
    case Take(_, _, Finish(key, m, _)) => key == k && m == mine
    case _ => false
  }

  ghost predicate Owed(st: State, k: nat, p: nat, q: nat) {
    exists t :: 0 <= t < |st.threads| && (Owes(st.threads[t], k, p, q) || Owes(st.threads[t], k, q, p))
  }

  predicate Holds(l: Layout, st: State, k: nat, p: nat)
    requires l.Valid() && |st.slots| == l.size
  {
    CandidatesDistinct(l, k);
    p < |l.candidates(k)| && st.slots[l.candidates(k)[p]] == k
  }

  /** Every key sits in one of its own candidates. */
  ghost predicate Placed(l: Layout, st: State)
    requires l.Valid() && |st.slots| == l.size
  {
    forall s :: 0 <= s < |st.slots| && IsKey(st.slots[s]) ==> s in l.candidates(st.slots[s])
  }

  /** A slot is being reset by exactly one thread, or by none. */
  ghost predicate Exclusive(st: State) {
    && (forall t :: 0 <= t < |st.threads| && st.threads[t].Reset? ==>
          st.threads[t].slot < |st.slots| && st.slots[st.threads[t].slot] == BUSY)
    && (forall t, u :: 0 <= t < u < |st.threads| && st.threads[t].Reset? && st.threads[u].Reset? ==>
          st.threads[t].slot != st.threads[u].slot)
    && (forall s :: 0 <= s < |st.slots| && st.slots[s] == BUSY ==>
          exists t :: 0 <= t < |st.threads| && st.threads[t].Reset? && st.threads[t].slot == s)
  }

  /** For any two copies of one key, some claimant is not done with the pair. */
  ghost predicate Paired(l: Layout, st: State)
    requires l.Valid() && |st.slots| == l.size
  {
    forall k, p, q :: IsKey(k) && p < q && Holds(l, st, k, p) && Holds(l, st, k, q) ==> Owed(st, k, p, q)
  }

  ghost predicate Inv(l: Layout, st: State) {
    l.Valid() && Shaped(l, st) && Placed(l, st) && Exclusive(st) && Paired(l, st)
  }

  /** Between its winning compare-and-swap and its return. */
  predicate Claiming(pc: Pc) {
    || pc.Scan?
    || (pc.Take? && !pc.next.Freed?)
    || (pc.Reset? && !pc.next.Freed?)
  }

  // ------------------------------------------------------------------- the proofs

  lemma TriedInside(l: Layout, k: nat, swapped: bool, i: nat)
    requires l.Valid() && i < 2 * BUCKET
    ensures Tried(l, k, swapped, i) < |l.candidates(k)|
  {
    CandidatesDistinct(l, k);
  }

  lemma AfterIsOk(l: Layout, next: Next)
    requires l.Valid() && NextOk(l, next)
    ensures PcOk(l, After(l, next))
  {
  }

  lemma ReleaseKeepsPc(l: Layout, slots: seq<nat>, pc: Pc, op: Op)
    requires l.Valid() && |slots| == l.size && PcOk(l, pc) && ValidOp(l, op) && (pc.Take? || pc.Reset?)
    ensures PcOk(l, Step(l, slots, pc, op).1)
  {
    AfterIsOk(l, pc.next);
  }

  lemma ScanKeepsPc(l: Layout, slots: seq<nat>, pc: Pc, op: Op)
    requires l.Valid() && |slots| == l.size && PcOk(l, pc) && ValidOp(l, op) && pc.Scan?
    ensures PcOk(l, Step(l, slots, pc, op).1)
  {
    CandidatesDistinct(l, pc.key);
  }

  /** A thread's own bookkeeping stays in range, branch by branch. */
  lemma StepKeepsPc(l: Layout, slots: seq<nat>, pc: Pc, op: Op)
    requires l.Valid() && |slots| == l.size && PcOk(l, pc) && ValidOp(l, op)
    ensures PcOk(l, Step(l, slots, pc, op).1)
  {
    match pc
    case Idle(_) =>
    case Find(_, _) =>
    case Count(_, _, _, _) =>
    case Look(_, _, _) =>
    case Cas(k, swapped, i) => TriedInside(l, k, swapped, i);
    case Scan(_, _, _, _, _) => ScanKeepsPc(l, slots, pc, op);
    case Take(_, _, _) => ReleaseKeepsPc(l, slots, pc, op);
    case Reset(_, _) => ReleaseKeepsPc(l, slots, pc, op);
  }

  lemma StepKeepsShape(l: Layout, st: State, t: nat, op: Op)
    requires l.Valid() && Shaped(l, st) && t < |st.threads| && ValidOp(l, op)
    ensures Shaped(l, StepThread(l, st, t, op))
  {
    StepKeepsPc(l, st.slots, st.threads[t], op);
  }

  /** The only ways a slot changes: a free slot takes a key it is a candidate
      of, a slot holding a key starts its reset, and its reset ends. A slot
      handed to another key is never touched by a stale release. */
  lemma SlotChanges(l: Layout, st: State, t: nat, op: Op, s: nat)
    requires Inv(l, st) && t < |st.threads| && ValidOp(l, op) && s < |st.slots|
    ensures
      var was, now := st.slots[s], StepThread(l, st, t, op).slots[s];
      || now == was
      || (was == EMPTY && IsKey(now) && st.threads[t].Cas? && now == st.threads[t].key && s in l.candidates(now))
      || (IsKey(was) && now == BUSY && st.threads[t].Take? && was == st.threads[t].key && s == st.threads[t].slot)
      || (was == BUSY && now == EMPTY && st.threads[t].Reset? && s == st.threads[t].slot)
  {
    var pc := st.threads[t];
    assert PcOk(l, pc);
    if pc.Cas? {
      CandidatesDistinct(l, pc.key);
    }
  }

  lemma StepKeepsPlaced(l: Layout, st: State, t: nat, op: Op)
    requires Inv(l, st) && t < |st.threads| && ValidOp(l, op)
    ensures Placed(l, StepThread(l, st, t, op))
  {
    var st' := StepThread(l, st, t, op);
    forall s | 0 <= s < |st'.slots| && IsKey(st'.slots[s]) ensures s in l.candidates(st'.slots[s]) {
      SlotChanges(l, st, t, op, s);
    }
  }

  /** A step that leaves its thread resetting a slot has just taken it. */
  lemma ResetStarts(l: Layout, slots: seq<nat>, pc: Pc, op: Op)
    requires l.Valid() && |slots| == l.size && PcOk(l, pc) && ValidOp(l, op)
    requires Step(l, slots, pc, op).1.Reset?
    ensures pc.Take? && slots[pc.slot] == pc.key && Step(l, slots, pc, op)
        == (slots[pc.slot := BUSY], Reset(pc.slot, pc.next))
  {
    match pc
    case Idle(_) =>
    case Find(_, _) =>
    case Count(_, _, _, _) =>
    case Look(_, _, _) =>
    case Cas(_, _, _) =>
    case Scan(_, _, _, _, _) =>
    case Take(_, _, _) =>
    case Reset(_, _) =>
  }

  lemma StepKeepsExclusive(l: Layout, st: State, t: nat, op: Op)
    requires Inv(l, st) && t < |st.threads| && ValidOp(l, op)
    ensures Exclusive(StepThread(l, st, t, op))
  {
    var st' := StepThread(l, st, t, op);
    var pc := st.threads[t];
    assert PcOk(l, pc);
    if st'.threads[t].Reset? {
      ResetStarts(l, st.slots, pc, op);
    }
    forall u | 0 <= u < |st'.threads| && u != t && st'.threads[u].Reset?
      ensures st'.threads[u].slot < |st'.slots| && st'.slots[st'.threads[u].slot] == BUSY
      ensures st'.threads[t].Reset? ==> st'.threads[t].slot != st'.threads[u].slot
    {
      assert st'.threads[u] == st.threads[u];
      SlotChanges(l, st, t, op, st.threads[u].slot);
    }
    forall s | 0 <= s < |st'.slots| && st'.slots[s] == BUSY
      ensures exists u :: 0 <= u < |st'.threads| && st'.threads[u].Reset? && st'.threads[u].slot == s
    {
      StillReset(l, st, t, op, s);
    }
  }

  lemma StillReset(l: Layout, st: State, t: nat, op: Op, s: nat)
    requires Inv(l, st) && t < |st.threads| && ValidOp(l, op)
    requires s < |st.slots| && StepThread(l, st, t, op).slots[s] == BUSY
    ensures
      var st' := StepThread(l, st, t, op);
      exists u :: 0 <= u < |st'.threads| && st'.threads[u].Reset? && st'.threads[u].slot == s
  {
    var st' := StepThread(l, st, t, op);
    SlotChanges(l, st, t, op, s);
    if st.slots[s] == BUSY {
      var u :| 0 <= u < |st.threads| && st.threads[u].Reset? && st.threads[u].slot == s;
      assert u != t;
      assert st'.threads[u] == st.threads[u];
    } else {
      assert st'.threads[t].Reset? && st'.threads[t].slot == s;
    }
  }

  /** Winning a slot opens a debt towards every other copy. */
  lemma ClaimOwes(l: Layout, slots: seq<nat>, pc: Pc, op: Op, k: nat, mine: nat, p: nat)
    requires l.Valid() && |slots| == l.size && PcOk(l, pc) && ValidOp(l, op)
    requires pc.Cas? && pc.key == k && mine == Tried(l, k, pc.swapped, pc.i)
    requires mine < |l.candidates(k)| && l.candidates(k)[mine] < |slots|
    requires slots[l.candidates(k)[mine]] == EMPTY
    ensures Owes(Step(l, slots, pc, op).1, k, mine, p)
  {
  }

  /** A claimant settles its debt towards candidate `p` only when the pair is
      gone: it has seen the other copy missing, or freed one of the two. */
  lemma DebtIsPaidNotDropped(l: Layout, slots: seq<nat>, pc: Pc, op: Op, k: nat, mine: nat, p: nat)
    requires l.Valid() && |slots| == l.size && PcOk(l, pc) && ValidOp(l, op)
    requires Owes(pc, k, mine, p) && p != mine
    requires mine < |l.candidates(k)| && p < |l.candidates(k)|
    requires l.candidates(k)[mine] < l.size && l.candidates(k)[p] < l.size
    requires slots[l.candidates(k)[mine]] == k && slots[l.candidates(k)[p]] == k
    ensures
      var (slots', pc') := Step(l, slots, pc, op);
      || slots'[l.candidates(k)[mine]] != k
      || slots'[l.candidates(k)[p]] != k
      || Owes(pc', k, mine, p)
  {
    match pc
    case Scan(_, _, i, winner, mineSeen) =>
    case Take(s, _, next) =>
    case Reset(s, next) =>
  }

  /** One pair of copies after a step: the heart of the protocol. */
  lemma PairStaysOwed(l: Layout, st: State, t: nat, op: Op, k: nat, p: nat, q: nat)
    requires Inv(l, st) && t < |st.threads| && ValidOp(l, op) && IsKey(k) && p != q
    requires Holds(l, StepThread(l, st, t, op), k, p) && Holds(l, StepThread(l, st, t, op), k, q)
    ensures Owed(StepThread(l, st, t, op), k, p, q)
  {
    if !Holds(l, st, k, p) {
      NewPairIsOwed(l, st, t, op, k, p, q);
    } else if !Holds(l, st, k, q) {
      NewPairIsOwed(l, st, t, op, k, q, p);
    } else if p < q {
      OldPairIsOwed(l, st, t, op, k, p, q);
    } else {
      OldPairIsOwed(l, st, t, op, k, q, p);
    }
  }

  lemma NewPairIsOwed(l: Layout, st: State, t: nat, op: Op, k: nat, p: nat, q: nat)
    requires Inv(l, st) && t < |st.threads| && ValidOp(l, op) && IsKey(k) && p != q
    requires !Holds(l, st, k, p) && Holds(l, StepThread(l, st, t, op), k, p)
    ensures Owed(StepThread(l, st, t, op), k, p, q)
  {
    CandidatesDistinct(l, k);
    assert PcOk(l, st.threads[t]);
    NewCopy(l, st, t, op, k, p);
    ClaimOwes(l, st.slots, st.threads[t], op, k, p, q);
    assert Owes(StepThread(l, st, t, op).threads[t], k, p, q);
  }

  lemma OldPairIsOwed(l: Layout, st: State, t: nat, op: Op, k: nat, p: nat, q: nat)
    requires Inv(l, st) && t < |st.threads| && ValidOp(l, op) && IsKey(k) && p < q
    requires Holds(l, st, k, p) && Holds(l, st, k, q)
    requires Holds(l, StepThread(l, st, t, op), k, p) && Holds(l, StepThread(l, st, t, op), k, q)
    ensures Owed(StepThread(l, st, t, op), k, p, q)
  {
    var st' := StepThread(l, st, t, op);
    CandidatesDistinct(l, k);
    assert Owed(st, k, p, q);
    var u :| 0 <= u < |st.threads| && (Owes(st.threads[u], k, p, q) || Owes(st.threads[u], k, q, p));
    if u != t {
      assert st'.threads[u] == st.threads[u];
    } else {
      assert PcOk(l, st.threads[t]);
      if Owes(st.threads[t], k, p, q) {
        DebtIsPaidNotDropped(l, st.slots, st.threads[t], op, k, p, q);
      } else {
        DebtIsPaidNotDropped(l, st.slots, st.threads[t], op, k, q, p);
      }
      assert st'.threads[t] == Step(l, st.slots, st.threads[t], op).1;
    }
  }

  /** A copy appears only by a won compare-and-swap. */
  lemma NewCopy(l: Layout, st: State, t: nat, op: Op, k: nat, p: nat)
    requires Inv(l, st) && t < |st.threads| && ValidOp(l, op) && IsKey(k)
    requires !Holds(l, st, k, p) && Holds(l, StepThread(l, st, t, op), k, p)
    ensures st.threads[t].Cas? && st.threads[t].key == k && p == Tried(l, k, st.threads[t].swapped, st.threads[t].i)
    ensures st.slots[l.candidates(k)[p]] == EMPTY
  {
    CandidatesDistinct(l, k);
    SlotChanges(l, st, t, op, l.candidates(k)[p]);
  }

  lemma StepKeepsInv(l: Layout, st: State, t: nat, op: Op)
    requires Inv(l, st) && t < |st.threads| && ValidOp(l, op)
    ensures Inv(l, StepThread(l, st, t, op))
  {
    var st' := StepThread(l, st, t, op);
    StepKeepsShape(l, st, t, op);
    StepKeepsPlaced(l, st, t, op);
    StepKeepsExclusive(l, st, t, op);
    forall k, p, q | IsKey(k) && p < q && Holds(l, st', k, p) && Holds(l, st', k, q)
      ensures Owed(st', k, p, q)
    {
      PairStaysOwed(l, st, t, op, k, p, q);
    }
  }

  // ------------------------------------------------------------------- whole runs

  /** An interleaving: at each move one thread takes one step. */
  ghost predicate Run(l: Layout, trace: seq<State>, moves: seq<(nat, Op)>) {
    && l.Valid() && |trace| == |moves| + 1
    && (forall i :: 0 <= i < |trace| ==> Shaped(l, trace[i]))
    && forall i :: 0 <= i < |moves| ==>
         && moves[i].0 < |trace[i].threads| && ValidOp(l, moves[i].1)
         && trace[i + 1] == StepThread(l, trace[i], moves[i].0, moves[i].1)
  }

  function Fresh(l: Layout, threads: nat): State {
    State(seq(l.size, _ => EMPTY), seq(threads, _ => Idle(Nothing)))
  }

  lemma FreshInv(l: Layout, threads: nat)
    requires l.Valid()
    ensures Inv(l, Fresh(l, threads))
  {
    var st := Fresh(l, threads);
    forall k, p | IsKey(k) ensures !Holds(l, st, k, p) {
      CandidatesDistinct(l, k);
    }
  }

  lemma {:induction false} RunKeepsInv(l: Layout, trace: seq<State>, moves: seq<(nat, Op)>, i: nat)
    requires Run(l, trace, moves) && Inv(l, trace[0]) && i < |trace|
    ensures Inv(l, trace[i])
  {
    if i > 0 {
      RunKeepsInv(l, trace, moves, i - 1);
      StepKeepsInv(l, trace[i - 1], moves[i - 1].0, moves[i - 1].1);
    }
  }

  /** Main result. In any interleaving of any number of threads claiming and
      freeing any keys, whenever no claim is between its winning
      compare-and-swap and its return, no key is held by two slots, anywhere in
      the table. */
  lemma AtMostOneCopy(l: Layout, trace: seq<State>, moves: seq<(nat, Op)>, i: nat, s: nat, s': nat)
    requires Run(l, trace, moves) && Inv(l, trace[0]) && i < |trace|
    requires forall t :: 0 <= t < |trace[i].threads| ==> !Claiming(trace[i].threads[t])
    requires s < |trace[i].slots| && s' < |trace[i].slots|
    requires IsKey(trace[i].slots[s]) && trace[i].slots[s] == trace[i].slots[s']
    ensures s == s'
  {
    RunKeepsInv(l, trace, moves, i);
    var k, c := trace[i].slots[s], l.candidates(trace[i].slots[s]);
    CandidatesDistinct(l, k);
    var p :| 0 <= p < |c| && c[p] == s;
    var q :| 0 <= q < |c| && c[q] == s';
    assert Holds(l, trace[i], k, p) && Holds(l, trace[i], k, q);
    assert !Owed(trace[i], k, p, q) && !Owed(trace[i], k, q, p);
  }

  // --------------------------------------------------------- and at least one copy

  /** Nobody but the claims themselves is freeing slots of `k`. */
  ghost predicate Undisturbed(st: State, k: nat) {
    forall t :: 0 <= t < |st.threads| && st.threads[t].Take? && st.threads[t].next.Freed? ==> st.threads[t].key != k
  }

  /** A copy of `k` at candidate `p` or earlier. */
  ghost predicate HeldUpTo(l: Layout, st: State, k: nat, p: nat)
    requires l.Valid() && |st.slots| == l.size
  {
    exists q :: 0 <= q <= p && Holds(l, st, k, q)
  }

  /** The winner a claim of `k` has in mind. */
  predicate Aims(pc: Pc, k: nat, winner: nat) {
    match pc
    case Scan(key, _, _, w, _) => key == k && w == winner
    case Take(_, _, Resume(key, _, _, w)) => key == k && w == winner
    case Reset(_, Resume(key, _, _, w)) => key == k && w == winner
    case Take(_, _, Finish(key, _, w)) => key == k && w == winner
    case Reset(_, Finish(key, _, w)) => key == k && w == winner
    case _ => false
  }

  /** No claim aims at a winner that nothing stands for any more. */
  ghost predicate Anchored(l: Layout, st: State, k: nat)
    requires l.Valid() && |st.slots| == l.size
  {
    forall t, w :: 0 <= t < |st.threads| && Aims(st.threads[t], k, w) ==> HeldUpTo(l, st, k, w)
  }

  /** What a claim is about to free comes after the winner it aims at. */
  lemma FreesALaterCopy(l: Layout, pc: Pc, k: nat, q: nat)
    requires l.Valid() && PcOk(l, pc) && pc.Take? && pc.key == k && !pc.next.Freed?
    requires q < |l.candidates(k)| && pc.slot == l.candidates(k)[q]
    ensures pc.next.key == k && pc.next.winner < q && Aims(pc, k, pc.next.winner)
  {
    CandidatesDistinct(l, k);
    match pc.next
    case Resume(_, _, at, _) => assert at == q;
    case Finish(_, mine, _) => assert mine == q;
  }

  /** The earliest copy of a key only ever moves to an earlier slot: a copy is
      given back only while one earlier in the canonical order is held. */
  lemma EarliestOnlyMovesForward(l: Layout, st: State, t: nat, op: Op, k: nat, p: nat)
    requires Inv(l, st) && t < |st.threads| && ValidOp(l, op) && IsKey(k)
    requires Anchored(l, st, k) && Undisturbed(st, k) && HeldUpTo(l, st, k, p)
    ensures HeldUpTo(l, StepThread(l, st, t, op), k, p)
  {
    var q :| 0 <= q <= p && Holds(l, st, k, q);
    if !Holds(l, StepThread(l, st, t, op), k, q) {
      ReleaseSparesAnEarlierCopy(l, st, t, op, k, q);
    }
  }

  lemma ReleaseSparesAnEarlierCopy(l: Layout, st: State, t: nat, op: Op, k: nat, q: nat)
    requires Inv(l, st) && t < |st.threads| && ValidOp(l, op) && IsKey(k)
    requires Anchored(l, st, k) && Undisturbed(st, k)
    requires Holds(l, st, k, q) && !Holds(l, StepThread(l, st, t, op), k, q)
    ensures HeldUpTo(l, StepThread(l, st, t, op), k, q)
  {
    CandidatesDistinct(l, k);
    var c := l.candidates(k);
    SlotChanges(l, st, t, op, c[q]);
    FreesALaterCopy(l, st.threads[t], k, q);
    var w := st.threads[t].next.winner;
    assert HeldUpTo(l, st, k, w);
    var r :| 0 <= r <= w && Holds(l, st, k, r);
    SlotChanges(l, st, t, op, c[r]);
    assert Holds(l, StepThread(l, st, t, op), k, r);
  }

  /** A thread aims at a winner it has itself just seen held, or aimed at it
      before. */
  lemma AimIsSeen(l: Layout, st: State, t: nat, op: Op, k: nat, w: nat)
    requires Inv(l, st) && t < |st.threads| && ValidOp(l, op) && IsKey(k)
    requires Aims(StepThread(l, st, t, op).threads[t], k, w)
    ensures Aims(st.threads[t], k, w) || Holds(l, StepThread(l, st, t, op), k, w)
  {
    assert PcOk(l, st.threads[t]);
    CandidatesDistinct(l, k);
    match st.threads[t]
    case Idle(_) =>
    case Find(_, _) =>
    case Count(_, _, _, _) =>
    case Look(_, _, _) =>
    case Cas(_, swapped, i) => TriedInside(l, st.threads[t].key, swapped, i);
    case Scan(_, _, _, _, _) =>
    case Take(_, _, _) =>
    case Reset(_, _) =>
  }

  lemma StepKeepsAnchored(l: Layout, st: State, t: nat, op: Op, k: nat)
    requires Inv(l, st) && t < |st.threads| && ValidOp(l, op) && IsKey(k)
    requires Anchored(l, st, k) && Undisturbed(st, k)
    ensures Anchored(l, StepThread(l, st, t, op), k)
  {
    var st' := StepThread(l, st, t, op);
    forall u, w | 0 <= u < |st'.threads| && Aims(st'.threads[u], k, w) ensures HeldUpTo(l, st', k, w) {
      if u == t {
        AimIsSeen(l, st, t, op, k, w);
      } else {
        assert st'.threads[u] == st.threads[u];
      }
      if !Holds(l, st', k, w) {
        EarliestOnlyMovesForward(l, st, t, op, k, w);
      }
    }
  }

  lemma {:induction false} RunKeepsHeld(l: Layout, trace: seq<State>, moves: seq<(nat, Op)>, k: nat, i: nat, j: nat,
                                        p: nat)
    requires Run(l, trace, moves) && Inv(l, trace[0]) && IsKey(k) && Anchored(l, trace[0], k)
    requires forall n :: 0 <= n < |trace| ==> Undisturbed(trace[n], k)
    requires i <= j < |trace| && HeldUpTo(l, trace[i], k, p)
    ensures HeldUpTo(l, trace[j], k, p)
    decreases j
  {
    if i < j {
      RunKeepsHeld(l, trace, moves, k, i, j - 1, p);
      RunKeepsInv(l, trace, moves, j - 1);
      RunKeepsAnchored(l, trace, moves, k, j - 1);
      EarliestOnlyMovesForward(l, trace[j - 1], moves[j - 1].0, moves[j - 1].1, k, p);
    }
  }

  lemma {:induction false} RunKeepsAnchored(l: Layout, trace: seq<State>, moves: seq<(nat, Op)>, k: nat, i: nat)
    requires Run(l, trace, moves) && Inv(l, trace[0]) && IsKey(k) && Anchored(l, trace[0], k)
    requires forall n :: 0 <= n < |trace| ==> Undisturbed(trace[n], k)
    requires i < |trace|
    ensures Anchored(l, trace[i], k)
  {
    if i > 0 {
      RunKeepsAnchored(l, trace, moves, k, i - 1);
      RunKeepsInv(l, trace, moves, i - 1);
      StepKeepsAnchored(l, trace[i - 1], moves[i - 1].0, moves[i - 1].1, k);
    }
  }

  /** The other half: racing claims never give back every copy. In a run from a
      fresh table where only claims free slots of `k`, a key once held stays
      held, and once all claims have returned exactly one slot holds it. */
  lemma RacingClaimsLeaveExactlyOne(l: Layout, trace: seq<State>, moves: seq<(nat, Op)>, n: nat, k: nat, i: nat, p: nat)
    requires Run(l, trace, moves) && trace[0] == Fresh(l, n) && IsKey(k)
    requires forall m :: 0 <= m < |trace| ==> Undisturbed(trace[m], k)
    requires i < |trace| && Holds(l, trace[i], k, p)
    requires forall t :: 0 <= t < |trace[|moves|].threads| ==> !Claiming(trace[|moves|].threads[t])
    ensures exists s :: 0 <= s < l.size && trace[|moves|].slots[s] == k
                    && forall s' :: 0 <= s' < l.size && trace[|moves|].slots[s'] == k ==> s' == s
  {
    FreshInv(l, n);
    RunKeepsInv(l, trace, moves, i);
    RunKeepsInv(l, trace, moves, |moves|);
    assert HeldUpTo(l, trace[i], k, p);
    RunKeepsHeld(l, trace, moves, k, i, |moves|, p);
    var q :| 0 <= q <= p && Holds(l, trace[|moves|], k, q);
    CandidatesDistinct(l, k);
    var s := l.candidates(k)[q];
    forall s' | 0 <= s' < l.size && trace[|moves|].slots[s'] == k ensures s' == s {
      AtMostOneCopy(l, trace, moves, |moves|, s', s);
    }
  }
}
