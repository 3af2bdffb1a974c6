/** `claim` and `release` as the loops the source writes (rateguard/src/table.rs),
    over the slots in place. Each is proved to be the step machine's run of one
    thread, and its outcome is stated in full.
 */
module KeyTableCalls {
  import opened KeyTable

  /** One thread's steps with nobody else moving. */
  ghost predicate Linked(l: Layout, op: Op, trace: seq<(seq<nat>, Pc)>, i: nat)
    requires l.Valid() && ValidOp(l, op)
  {
    i + 1 < |trace| ==>
      && |trace[i].0| == l.size && PcOk(l, trace[i].1)
      && trace[i + 1] == Step(l, trace[i].0, trace[i].1, op)
  }

  ghost predicate Solo(l: Layout, op: Op, trace: seq<(seq<nat>, Pc)>) {
    && l.Valid() && ValidOp(l, op) && |trace| > 0
    && forall i: nat :: Linked(l, op, trace, i)
  }

  /** The machine, run from `was` by one thread making the call `op`, comes to
      stand at `pc` with the slots as given. */
  ghost predicate Reaches(l: Layout, was: seq<nat>, op: Op, slots: seq<nat>, pc: Pc) {
    && l.Valid() && ValidOp(l, op) && |slots| == l.size && PcOk(l, pc)
    && exists trace ::
         Solo(l, op, trace) && trace[0] == (was, Idle(Nothing)) && trace[|trace| - 1] == (slots, pc)
  }

  lemma Begin(l: Layout, was: seq<nat>, op: Op)
    requires l.Valid() && ValidOp(l, op) && |was| == l.size
    ensures Reaches(l, was, op, was, Idle(Nothing))
  {
    assert Solo(l, op, [(was, Idle(Nothing))]);
  }

  lemma Onward(l: Layout, was: seq<nat>, op: Op, slots: seq<nat>, pc: Pc)
    requires Reaches(l, was, op, slots, pc)
    ensures Reaches(l, was, op, Step(l, slots, pc, op).0, Step(l, slots, pc, op).1)
  {
    var trace :| Solo(l, op, trace) && trace[0] == (was, Idle(Nothing)) && trace[|trace| - 1] == (slots, pc);
    var next := trace + [Step(l, slots, pc, op)];
    StepKeepsPc(l, slots, pc, op);
    forall i: nat ensures Linked(l, op, next, i) {
      assert Linked(l, op, trace, i);
    }
    assert Solo(l, op, next);
  }

  /** One step of a claim, seen from each place it can stand. */
  lemma OnFind(l: Layout, was: seq<nat>, slots: seq<nat>, k: nat, i: nat)
    requires Reaches(l, was, Claim(k), slots, Find(k, i))
    requires forall p :: 0 <= p < |l.candidates(k)| ==> l.candidates(k)[p] < |slots|
    ensures i == |l.candidates(k)| ==> Reaches(l, was, Claim(k), slots, Count(k, 0, 0, 0))
    ensures i < |l.candidates(k)| && slots[l.candidates(k)[i]] == k ==>
              Reaches(l, was, Claim(k), slots, Idle(Slot(l.candidates(k)[i], false)))
    ensures i < |l.candidates(k)| && slots[l.candidates(k)[i]] != k ==>
              Reaches(l, was, Claim(k), slots, Find(k, i + 1))
  {
    Onward(l, was, Claim(k), slots, Find(k, i));
  }

  lemma OnCount(l: Layout, was: seq<nat>, slots: seq<nat>, k: nat, i: nat, second: nat, first: nat)
    requires Reaches(l, was, Claim(k), slots, Count(k, i, second, first))
    requires forall p :: 0 <= p < |l.candidates(k)| ==> l.candidates(k)[p] < |slots|
    requires forall j :: 0 <= j < BUCKET ==>
               Position(l, k, 0, j) < |l.candidates(k)| && Position(l, k, 1, j) < |l.candidates(k)|
    ensures i < BUCKET ==>
              Reaches(l, was, Claim(k), slots,
                      Count(k, i + 1, if slots[l.candidates(k)[Position(l, k, 1,
                          i)]] != EMPTY then second + 1 else second, first))
    ensures BUCKET <= i < 2 * BUCKET ==>
              Reaches(l, was, Claim(k), slots,
                      Count(k, i + 1, second, if slots[l.candidates(k)[Position(l, k, 0,
                          i - BUCKET)]] != EMPTY then first + 1 else first))
    ensures i == 2 * BUCKET ==> Reaches(l, was, Claim(k), slots, Look(k, second < first, 0))
  {
    Onward(l, was, Claim(k), slots, Count(k, i, second, first));
  }

  lemma OnLook(l: Layout, was: seq<nat>, slots: seq<nat>, k: nat, swapped: bool, i: nat)
    requires Reaches(l, was, Claim(k), slots, Look(k, swapped, i))
    requires forall p :: 0 <= p < |l.candidates(k)| ==> l.candidates(k)[p] < |slots|
    ensures i == 2 * BUCKET ==> Reaches(l, was, Claim(k), slots, Idle(Overflow))
    ensures i < 2 * BUCKET ==>
              var mine := Tried(l, k, swapped, i);
              && mine < |l.candidates(k)|
              && (slots[l.candidates(k)[mine]] != EMPTY ==> Reaches(l, was, Claim(k), slots, Look(k, swapped, i + 1)))
              && (slots[l.candidates(k)[mine]] == EMPTY ==>
                    Reaches(l, was, Claim(k), slots[l.candidates(k)[mine] := k], Scan(k, mine, 0, mine, false)))
  {
    Onward(l, was, Claim(k), slots, Look(k, swapped, i));
    if i < 2 * BUCKET {
      TriedInside(l, k, swapped, i);
      if slots[l.candidates(k)[Tried(l, k, swapped, i)]] == EMPTY {
        Onward(l, was, Claim(k), slots, Cas(k, swapped, i));
      }
    }
  }

  lemma OnScan(l: Layout, was: seq<nat>, slots: seq<nat>, k: nat, mine: nat, i: nat, winner: nat, mineSeen: bool)
    requires Reaches(l, was, Claim(k), slots, Scan(k, mine, i, winner, mineSeen))
    requires forall p :: 0 <= p < |l.candidates(k)| ==> l.candidates(k)[p] < |slots|
    requires mine < |l.candidates(k)|
    ensures i < |l.candidates(k)| && i == mine ==> Reaches(l, was, Claim(k), slots, Scan(k, mine, i + 1, winner, true))
    ensures i < |l.candidates(k)| && i != mine && slots[l.candidates(k)[i]] != k ==>
              Reaches(l, was, Claim(k), slots, Scan(k, mine, i + 1, winner, mineSeen))
    ensures i < |l.candidates(k)| && i != mine && slots[l.candidates(k)[i]] == k && mineSeen ==>
              Reaches(l, was, Claim(k), slots, Take(l.candidates(k)[i], k, Resume(k, mine, i, winner)))
    ensures i < |l.candidates(k)| && i != mine && slots[l.candidates(k)[i]] == k && !mineSeen ==>
              Reaches(l, was, Claim(k), slots, Scan(k, mine, i + 1, if winner == mine then i else winner, false))
    ensures i == |l.candidates(k)| && winner != mine ==>
              Reaches(l, was, Claim(k), slots, Take(l.candidates(k)[mine], k, Finish(k, mine, winner)))
    ensures i == |l.candidates(k)| && winner == mine ==>
              Reaches(l, was, Claim(k), slots, Idle(Slot(l.candidates(k)[mine], true)))
  {
    Onward(l, was, Claim(k), slots, Scan(k, mine, i, winner, mineSeen));
  }

  /** How many of the eight slots of a bucket are not free. */
  function Full(slots: seq<nat>, c: seq<nat>, from: nat, n: nat): nat
    requires from + n <= |c| && forall p :: 0 <= p < |c| ==> c[p] < |slots|
  {
    if n == 0 then 0
    else Full(slots, c, from, n - 1) + if slots[c[from + n - 1]] != EMPTY then 1 else 0
  }

  /** The first of the candidates before `n` that holds the key, or `mine`. */
  function Winner(slots: seq<nat>, c: seq<nat>, k: nat, mine: nat, n: nat): (w: nat)
    requires n <= mine < |c| && forall p :: 0 <= p < |c| ==> c[p] < |slots|
    ensures w < n || w == mine
    ensures w < n ==> slots[c[w]] == k
    ensures forall p :: 0 <= p < n && p < w ==> slots[c[p]] != k
  {
    if n == 0 then mine
    else
      var w := Winner(slots, c, k, mine, n - 1);
      if w == mine && slots[c[n - 1]] == k then n - 1 else w
  }

  /** The slots once every copy after `mine` and before `n` is freed. */
  function Later(slots: seq<nat>, c: seq<nat>, k: nat, mine: nat, n: nat): (r: seq<nat>)
    requires n <= |c| && forall p :: 0 <= p < |c| ==> c[p] < |slots|
    ensures |r| == |slots|
  {
    if n == 0 then slots
    else
      var r := Later(slots, c, k, mine, n - 1);
      if n - 1 > mine && slots[c[n - 1]] == k then r[c[n - 1] := EMPTY] else r
  }

  function Settled(slots: seq<nat>, c: seq<nat>, k: nat, mine: nat): (r: seq<nat>)
    requires mine < |c| && forall p :: 0 <= p < |c| ==> c[p] < |slots|
    ensures |r| == |slots|
  {
    var r := Later(slots, c, k, mine, |c|);
    if Winner(slots, c, k, mine, mine) != mine then r[c[mine] := EMPTY] else r
  }

  lemma {:induction false} LaterAt(slots: seq<nat>, c: seq<nat>, k: nat, mine: nat, n: nat, p: nat)
    requires n <= |c| && Proper(c, |slots|) && p < |c|
    ensures Later(slots, c, k, mine, n)[c[p]] == if mine < p < n && slots[c[p]] == k then EMPTY else slots[c[p]]
  {
    if n > 0 {
      LaterAt(slots, c, k, mine, n - 1, p);
    }
  }

  lemma {:induction false} LaterElsewhere(slots: seq<nat>, c: seq<nat>, k: nat, mine: nat, n: nat, s: nat)
    requires n <= |c| && Proper(c, |slots|) && s < |slots| && s !in c
    ensures Later(slots, c, k, mine, n)[s] == slots[s]
  {
    if n > 0 {
      LaterElsewhere(slots, c, k, mine, n - 1, s);
    }
  }

  /** After a claim's scan exactly the copies before its own are left, and its
      own if there was none. */
  lemma SettledLeavesEarlierCopies(slots: seq<nat>, c: seq<nat>, k: nat, mine: nat, p: nat)
    requires Proper(c, |slots|) && mine < |c| && p < |c| && IsKey(k) && slots[c[mine]] == k
    ensures Settled(slots, c, k, mine)[c[p]] == k <==>
              slots[c[p]] == k && (p < mine || (p == mine && forall q :: 0 <= q < mine ==> slots[c[q]] != k))
    ensures Settled(slots, c, k, mine)[c[p]] != k ==>
              Settled(slots, c, k, mine)[c[p]] == if slots[c[p]] == k then EMPTY else slots[c[p]]
  {
    LaterAt(slots, c, k, mine, |c|, p);
    LaterAt(slots, c, k, mine, |c|, mine);
  }

  /** With no other copy about, the scan changes nothing. */
  lemma SettledAlone(slots: seq<nat>, c: seq<nat>, k: nat, mine: nat)
    requires Proper(c, |slots|) && mine < |c|
    requires forall p :: 0 <= p < |c| && p != mine ==> slots[c[p]] != k
    ensures Settled(slots, c, k, mine) == slots && Winner(slots, c, k, mine, mine) == mine
  {
    var r := Later(slots, c, k, mine, |c|);
    forall s | 0 <= s < |slots| ensures r[s] == slots[s] {
      if s in c {
        var p :| 0 <= p < |c| && c[p] == s;
        LaterAt(slots, c, k, mine, |c|, p);
      } else {
        LaterElsewhere(slots, c, k, mine, |c|, s);
      }
    }
  }

  class Table {
    const l: Layout
    const slots: array<nat>

    ghost predicate Valid()
      reads this
    {
      l.Valid() && slots.Length == l.size
    }

    constructor (l: Layout)
      requires l.Valid()
      ensures Valid() && this.l == l && fresh(slots)
      ensures slots[..] == Fresh(l, 0).slots
    {
      this.l := l;
      this.slots := new nat[l.size](_ => EMPTY);
    }

    /** Frees the slot if it still holds the key, and only then. */
    method Release(slot: nat, k: nat) returns (freed: bool)
      requires Valid() && slot < l.size && IsKey(k)
      modifies slots
      ensures freed <==> old(slots[slot]) == k
      ensures slots[..] == if freed then old(slots[..])[slot := EMPTY] else old(slots[..])
      ensures Reaches(l, old(slots[..]), KeyTable.Release(slot, k), slots[..], Idle(Nothing))
    {
      ghost var op := KeyTable.Release(slot, k);
      ghost var was := slots[..];
      Begin(l, was, op);
      Onward(l, was, op, was, Idle(Nothing));
      Onward(l, was, op, was, Take(slot, k, Freed));
      if slots[slot] != k {
        return false;
      }
      slots[slot] := BUSY;
      Onward(l, was, op, slots[..], Reset(slot, Freed));
      slots[slot] := EMPTY;
      return true;
    }

    /** What `claim` does once it has won the slot at position `mine`: it looks
        at every candidate, frees each later copy, and its own if there is an
        earlier one. The copy earliest in the canonical order wins. */
    method Settle(k: nat, mine: nat, ghost was: seq<nat>) returns (winner: nat)
      requires Valid() && IsKey(k) && Proper(l.candidates(k), l.size) && mine < |l.candidates(k)|
      requires slots[l.candidates(k)[mine]] == k
      requires Reaches(l, was, Claim(k), slots[..], Scan(k, mine, 0, mine, false))
      modifies slots
      ensures winner == Winner(old(slots[..]), l.candidates(k), k, mine, mine)
      ensures slots[..] == Settled(old(slots[..]), l.candidates(k), k, mine)
      ensures Reaches(l, was, Claim(k), slots[..], Idle(Slot(l.candidates(k)[winner], winner == mine)))
    {
      ghost var won := slots[..];
      winner := LookAtAll(k, mine, was);
      var c := l.candidates(k);
      LaterAt(won, c, k, mine, |c|, mine);
      OnScan(l, was, slots[..], k, mine, |c|, winner, true);
      if winner != mine {
        FreeAt(c[mine], k, Finish(k, mine, winner), was);
      }
    }

    /** The walk over the candidates. */
    method LookAtAll(k: nat, mine: nat, ghost was: seq<nat>) returns (winner: nat)
      requires Valid() && IsKey(k) && Proper(l.candidates(k), l.size) && mine < |l.candidates(k)|
      requires slots[l.candidates(k)[mine]] == k
      requires Reaches(l, was, Claim(k), slots[..], Scan(k, mine, 0, mine, false))
      modifies slots
      ensures winner == Winner(old(slots[..]), l.candidates(k), k, mine, mine)
      ensures slots[..] == Later(old(slots[..]), l.candidates(k), k, mine, |l.candidates(k)|)
      ensures Reaches(l, was, Claim(k), slots[..], Scan(k, mine, |l.candidates(k)|, winner, true))
    {
      var c := l.candidates(k);
      ghost var won := slots[..];
      winner := mine;
      var mineSeen := false;
      var i := 0;
      while i < |c|
        invariant i <= |c| && (mineSeen <==> mine < i)
        invariant winner == Winner(won, c, k, mine, if i < mine then i else mine)
        invariant slots[..] == Later(won, c, k, mine, i)
        invariant Reaches(l, was, Claim(k), slots[..], Scan(k, mine, i, winner, mineSeen))
      {
        LaterAt(won, c, k, mine, i, i);
        OnScan(l, was, slots[..], k, mine, i, winner, mineSeen);
        if i == mine {
          mineSeen := true;
        } else if slots[c[i]] == k {
          if mineSeen {
            FreeAt(c[i], k, Resume(k, mine, i, winner), was);
          } else if winner == mine {
            winner := i;
          }
        }
        i := i + 1;
      }
    }

    /** The release inside a claim: the slot is known to hold the key. */
    method FreeAt(slot: nat, k: nat, next: Next, ghost was: seq<nat>)
      requires Valid() && slot < l.size && slots[slot] == k
      requires Reaches(l, was, Claim(k), slots[..], Take(slot, k, next))
      modifies slots
      ensures slots[..] == old(slots[..])[slot := EMPTY]
      ensures PcOk(l, Take(slot, k, next)) && Reaches(l, was, Claim(k), slots[..], After(l, next))
    {
      Onward(l, was, Claim(k), slots[..], Take(slot, k, next));
      slots[slot] := BUSY;
      Onward(l, was, Claim(k), slots[..], Reset(slot, next));
      slots[slot] := EMPTY;
    }

    /** The slot of `k`: found, newly taken in the emptier of its two buckets,
        or, both full, the shared overflow slot. */
    method ClaimKey(k: nat) returns (r: Result)
      requires Valid() && IsKey(k) && Proper(l.candidates(k), l.size)
      modifies slots
      ensures r.Slot? || r.Overflow?
      ensures r.Slot? && !r.taken ==>
                r.slot in l.candidates(k) && old(slots[..]) == slots[..] && r.slot < slots.Length && slots[r.slot] == k
      ensures r.Overflow? ==>
                && slots[..] == old(slots[..])
                && forall p :: 0 <= p < |l.candidates(k)| ==> Occupied(slots[l.candidates(k)[p]], k)
      ensures r.Slot? && r.taken ==>
                && (forall p :: 0 <= p < |l.candidates(k)| ==> old(slots[l.candidates(k)[p]]) != k)
                && exists p: nat :: Chosen(old(slots[..]), k, p) && r.slot == l.candidates(k)[p]
                               && slots[..] == old(slots[..])[r.slot := k]
      ensures Reaches(l, old(slots[..]), Claim(k), slots[..], Idle(r))
    {
      var c := l.candidates(k);
      ghost var was := slots[..];
      Begin(l, was, Claim(k));
      Onward(l, was, Claim(k), was, Idle(Nothing));
      var i := 0;
      while i < |c|
        invariant i <= |c| && slots[..] == was
        invariant Reaches(l, was, Claim(k), was, Find(k, i))
        invariant forall p :: 0 <= p < i ==> was[c[p]] != k
      {
        OnFind(l, was, was, k, i);
        if slots[c[i]] == k {
          return Slot(c[i], false);
        }
        i := i + 1;
      }
      OnFind(l, was, was, k, i);
      var swapped := Emptier(k, was);
      var found, mine := TakeFree(k, swapped, was);
      if !found {
        return Overflow;
      }
      SettledAlone(slots[..], c, k, mine);
      var winner := Settle(k, mine, was);
      return Slot(c[winner], true);
    }

    /** Tries the slots in order and takes the first that is free. */
    method TakeFree(k: nat, swapped: bool, ghost was: seq<nat>) returns (found: bool, mine: nat)
      requires Valid() && IsKey(k) && Proper(l.candidates(k), l.size) && slots[..] == was
      requires swapped <==> SecondIsEmptier(was, k)
      requires forall p :: 0 <= p < |l.candidates(k)| ==> was[l.candidates(k)[p]] != k
      requires Reaches(l, was, Claim(k), was, Look(k, swapped, 0))
      modifies slots
      ensures !found ==>
                && slots[..] == was && Reaches(l, was, Claim(k), was, Idle(Overflow))
                && forall p :: 0 <= p < |l.candidates(k)| ==> Occupied(was[l.candidates(k)[p]], k)
      ensures found ==>
                && Chosen(was, k, mine) && slots[..] == was[l.candidates(k)[mine] := k]
                && Reaches(l, was, Claim(k), slots[..], Scan(k, mine, 0, mine, false))
    {
      var c := l.candidates(k);
      found, mine := false, 0;
      var i := 0;
      while i < 2 * BUCKET
        invariant i <= 2 * BUCKET && slots[..] == was
        invariant Reaches(l, was, Claim(k), was, Look(k, swapped, i))
        invariant forall j :: 0 <= j < i ==> TriedFull(was, k, swapped, j)
      {
        OnLook(l, was, was, k, swapped, i);
        mine := Tried(l, k, swapped, i);
        if slots[c[mine]] == EMPTY {
          FirstFreeIsChosen(was, k, swapped, i);
          slots[c[mine]] := k;
          return true, mine;
        }
        assert TriedFull(was, k, swapped, i);
        i := i + 1;
      }
      OnLook(l, was, was, k, swapped, i);
      forall p | 0 <= p < |c| ensures Occupied(was[c[p]], k) {
        var j := WhenTried(k, swapped, p);
        assert TriedFull(was, k, swapped, j);
      }
    }

    predicate Occupied(slot: nat, k: nat) { slot != k && slot != EMPTY }

    ghost predicate TriedFull(was: seq<nat>, k: nat, swapped: bool, j: nat)
      reads this
    {
      var p := Tried(l, k, swapped, j);
      p < |l.candidates(k)| && l.candidates(k)[p] < |was| && was[l.candidates(k)[p]] != EMPTY
    }

    ghost predicate SecondIsEmptier(was: seq<nat>, k: nat)
      requires Proper(l.candidates(k), |was|)
      reads this
    {
      !l.Single(k) && Full(was, l.candidates(k), BUCKET, BUCKET) < Full(was, l.candidates(k), 0, BUCKET)
    }

    /** The free slot a claim takes: in the emptier bucket, the first one on a
        tie, and the first free one there. */
    ghost predicate Chosen(was: seq<nat>, k: nat, p: nat)
      requires Proper(l.candidates(k), |was|)
      reads this
    {
      var c := l.candidates(k);
      && p < |c| && was[c[p]] == EMPTY
      && (SecondIsEmptier(was, k) <==> p >= BUCKET)
      && forall q :: 0 <= q < p && (p >= BUCKET ==> q >= BUCKET) ==> was[c[q]] != EMPTY
    }

    lemma FullIsFull(was: seq<nat>, c: seq<nat>, from: nat, n: nat)
      requires from + n <= |c| && forall p :: 0 <= p < |c| ==> c[p] < |was|
      ensures Full(was, c, from, n) <= n
      ensures Full(was, c, from, n) == n <==> forall p :: from <= p < from + n ==> was[c[p]] != EMPTY
    {
    }

    lemma FirstFreeIsChosen(was: seq<nat>, k: nat, swapped: bool, i: nat)
      requires Valid() && Proper(l.candidates(k), |was|) && i < 2 * BUCKET
      requires swapped <==> SecondIsEmptier(was, k)
      requires forall j :: 0 <= j < i ==> TriedFull(was, k, swapped, j)
      requires Tried(l, k, swapped, i) < |l.candidates(k)|
      requires was[l.candidates(k)[Tried(l, k, swapped, i)]] == EMPTY
      ensures Chosen(was, k, Tried(l, k, swapped, i))
    {
      var c := l.candidates(k);
      var p := Tried(l, k, swapped, i);
      FullIsFull(was, c, 0, BUCKET);
      if !l.Single(k) {
        FullIsFull(was, c, BUCKET, BUCKET);
      }
      if i >= BUCKET {
        var from := if swapped then BUCKET else 0;
        forall q | from <= q < from + BUCKET ensures was[c[q]] != EMPTY {
          assert TriedFull(was, k, swapped, q - from);
        }
        assert false;
      }
      forall q | 0 <= q < p && (p >= BUCKET ==> q >= BUCKET) ensures was[c[q]] != EMPTY {
        assert TriedFull(was, k, swapped, if p >= BUCKET then q - BUCKET else q);
      }
    }

    /** Both orders of the buckets try every candidate. */
    lemma WhenTried(k: nat, swapped: bool, p: nat) returns (j: nat)
      requires Valid() && Proper(l.candidates(k), l.size) && p < |l.candidates(k)|
      ensures j < 2 * BUCKET && Tried(l, k, swapped, j) == p
    {
      j := if l.Single(k) || !swapped then p else if p < BUCKET then p + BUCKET else p - BUCKET;
    }

    /** Where the machine stands after `i` slots of bucket `b`, the second one
        counted before the first. */
    ghost function Counting(k: nat, b: nat, i: nat, other: nat, count: nat): Pc {
      if b == 1 then Count(k, i, count, 0) else Count(k, BUCKET + i, other, count)
    }

    function Start(k: nat, b: nat): nat
      reads this
    {
      Position(l, k, b, 0)
    }

    /** How many slots of the key's bucket `b` are taken. */
    method TakenIn(k: nat, b: nat, ghost other: nat, ghost was: seq<nat>) returns (count: nat)
      requires Valid() && IsKey(k) && Proper(l.candidates(k), l.size) && slots[..] == was && b <= 1
      requires Reaches(l, was, Claim(k), was, Counting(k, b, 0, other, 0))
      ensures count == Full(was, l.candidates(k), Start(k, b), BUCKET)
      ensures Reaches(l, was, Claim(k), was, Counting(k, b, BUCKET, other, count))
    {
      var c := l.candidates(k);
      count := 0;
      var i := 0;
      while i < BUCKET
        invariant i <= BUCKET && count == Full(was, c, Start(k, b), i)
        invariant Reaches(l, was, Claim(k), was, Counting(k, b, i, other, count))
      {
        OnCount(l, was, was, k, if b == 1 then i else BUCKET + i, if b == 1 then count else other, if b
            == 1 then 0 else count);
        if slots[c[Position(l, k, b, i)]] != EMPTY {
          count := count + 1;
        }
        i := i + 1;
      }
    }

    /** Whether the second bucket is the emptier. */
    method Emptier(k: nat, ghost was: seq<nat>) returns (swapped: bool)
      requires Valid() && IsKey(k) && Proper(l.candidates(k), l.size) && slots[..] == was
      requires Reaches(l, was, Claim(k), was, Count(k, 0, 0, 0))
      ensures swapped <==> SecondIsEmptier(was, k)
      ensures Reaches(l, was, Claim(k), was, Look(k, swapped, 0))
    {
      var second := TakenIn(k, 1, 0, was);
      var first := TakenIn(k, 0, second, was);
      OnCount(l, was, was, k, 2 * BUCKET, second, first);
      swapped := second < first;
    }
  }
}
