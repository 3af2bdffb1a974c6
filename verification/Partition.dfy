/** The cluster's size over a sliding window, edited in retrospect
    (rateguard-core/src/partition.rs).
 */
module Partition {
  import opened Quotas

  /** A majority of those known, the dead included. */
  predicate HasQuorum(alive: nat, known: nat) { 2 * alive > known }

  datatype Event = Record(at: nat, size: nat) | Forget(since: nat)

  type Log = seq<Event>

  function LastAt(log: Log): nat {
    if log == [] then 0
    else if log[|log| - 1].Record? then log[|log| - 1].at
    else LastAt(log[..|log| - 1])
  }

  /** Records come in the order of time. */
  predicate Timely(log: Log) {
    log != [] ==>
      && Timely(log[..|log| - 1])
      && (log[|log| - 1].Record? ==> log[|log| - 1].at >= LastAt(log[..|log| - 1]))
  }

  // -------------------------------------------------- what the history should return

  /** The departures after the record `i` that apply to it. */
  function Departures(log: Log, i: nat): nat
    requires i < |log| && log[i].Record?
  {
    if |log| == i + 1 then 0
    else
      var e := log[|log| - 1];
      Departures(log[..|log| - 1], i) + if e.Forget? && e.since <= log[i].at then 1 else 0
  }

  function Lowered(size: nat, departures: nat): nat {
    if departures == 0 then size else Max(SatSub(size, departures), 1)
  }

  /** The size of the record `i` as it counts now. */
  function SizeOf(log: Log, i: nat): nat
    requires i < |log| && log[i].Record?
  {
    Lowered(log[i].size, Departures(log, i))
  }

  /** Still in the window that ends at `now`. */
  predicate Recent(at: nat, window: nat, now: nat) { SatAdd(at, window) > now }

  // ------------------------------------------------------------------- the samples

  datatype Sample = Sample(at: nat, size: nat)

  function LowerOne(s: Sample, since: nat): Sample {
    if s.at >= since then s.(size := Max(SatSub(s.size, 1), 1)) else s
  }

  function LowerAll(samples: seq<Sample>, since: nat): (r: seq<Sample>)
    ensures |r| == |samples| && forall i :: 0 <= i < |r| ==> r[i] == LowerOne(samples[i], since)
  {
    seq(|samples|, i requires 0 <= i < |samples| => LowerOne(samples[i], since))
  }

  /** Every record ever made, as it counts now. */
  function Full(log: Log): seq<Sample> {
    if log == [] then []
    else match log[|log| - 1]
      case Record(at, size) => Full(log[..|log| - 1]) + [Sample(at, size)]
      case Forget(since) => LowerAll(Full(log[..|log| - 1]), since)
  }

  predicate Sorted(samples: seq<Sample>) {
    forall i, j :: 0 <= i < j < |samples| ==> samples[i].at <= samples[j].at
  }

  lemma {:induction false} FullIsSorted(log: Log)
    requires Timely(log)
    ensures Sorted(Full(log)) && forall i :: 0 <= i < |Full(log)| ==> Full(log)[i].at <= LastAt(log)
    ensures Full(log) != [] ==> Full(log)[|Full(log)| - 1].at == LastAt(log)
  {
    if log != [] {
      FullIsSorted(log[..|log| - 1]);
    }
  }

  /** How many records come before the event `i`. */
  function Position(log: Log, i: nat): nat
    requires i <= |log|
  {
    if i == 0 then 0 else Position(log, i - 1) + if log[i - 1].Record? then 1 else 0
  }

  lemma {:induction false} PositionInPrefix(log: Log, n: nat, i: nat)
    requires i <= n <= |log|
    ensures Position(log[..n], i) == Position(log, i)
  {
    if i > 0 {
      PositionInPrefix(log, n, i - 1);
    }
  }

  lemma {:induction false} PositionsGrow(log: Log, i: nat, j: nat)
    requires i < j <= |log| && log[i].Record?
    ensures Position(log, i) < Position(log, j)
    decreases j
  {
    if i < j - 1 {
      PositionsGrow(log, i, j - 1);
    }
  }

  lemma {:induction false} FullLength(log: Log)
    ensures |Full(log)| == Position(log, |log|)
  {
    if log != [] {
      FullLength(log[..|log| - 1]);
      PositionInPrefix(log, |log| - 1, |log| - 1);
    }
  }

  lemma LoweredOnceMore(size: nat, departures: nat)
    ensures Max(SatSub(Lowered(size, departures), 1), 1) == Lowered(size, departures + 1)
  {
  }

  /** Editing the samples one departure at a time lowers each record by all that
      apply to it. */
  lemma {:induction false} FullHoldsSizes(log: Log, i: nat)
    requires i < |log| && log[i].Record?
    ensures Position(log, i) < |Full(log)|
    ensures Full(log)[Position(log, i)] == Sample(log[i].at, SizeOf(log, i))
  {
    var n := |log| - 1;
    var init := log[..n];
    FullLength(log);
    FullLength(init);
    PositionsGrow(log, i, |log|);
    PositionInPrefix(log, n, i);
    PositionInPrefix(log, n, n);
    if i < n {
      FullHoldsSizes(init, i);
      LoweredOnceMore(log[i].size, Departures(init, i));
    }
  }

  /** And there is nothing else in them. */
  lemma {:induction false} FullHoldsRecords(log: Log, p: nat) returns (i: nat)
    requires p < |Full(log)|
    ensures i < |log| && log[i].Record? && Position(log, i) == p
  {
    var n := |log| - 1;
    FullLength(log);
    FullLength(log[..n]);
    PositionInPrefix(log, n, n);
    if p < |Full(log[..n])| {
      i := FullHoldsRecords(log[..n], p);
      PositionInPrefix(log, n, i);
    } else {
      i := n;
    }
  }

  lemma OneMoreEvent(log: Log, e: Event)
    requires Timely(log) && (e.Record? ==> e.at >= LastAt(log))
    ensures Timely(log + [e]) && LastAt(log + [e]) == if e.Record? then e.at else LastAt(log)
    ensures Full(log + [e]) == if e.Record? then Full(log) + [Sample(e.at, e.size)] else LowerAll(Full(log), e.since)
  {
    assert (log + [e])[..|log + [e]| - 1] == log;
  }

  // ------------------------------------------------------------------- the history

  class SizeHistory {
    const window: nat
    var samples: seq<Sample>
    ghost var log: Log
    /** How many samples have been let go. */
    ghost var gone: nat

    /** The samples are the end of all that were ever made; the others are outside
        the window for good. */
    ghost predicate Valid()
      reads this
    {
      && Timely(log) && gone <= |Full(log)| && samples == Full(log)[gone..]
      && (log != [] && Full(log) != [] ==> samples != [])
      && forall i :: 0 <= i < gone ==> !Recent(Full(log)[i].at, window, LastAt(log))
    }

    constructor (window: nat)
      ensures Valid() && log == [] && this.window == window
    {
      this.window, samples, log, gone := window, [], [], 0;
    }

    /** Main result: the greatest size, as it counts now, of all ever recorded that
        the window still holds, the one just recorded whatever the window. */
    method RecordSize(now: nat, size: nat) returns (largest: nat)
      requires Valid() && now >= LastAt(log)
      modifies this
      ensures Valid() && log == old(log) + [Record(now, size)]
      ensures forall i :: 0 <= i < |log| && log[i].Record? && (i == |log| - 1 || Recent(log[i].at, window, now)) ==>
                SizeOf(log, i) <= largest
      ensures exists i :: 0 <= i < |log| && log[i].Record? && (i == |log| - 1 || Recent(log[i].at, window, now))
                && largest == SizeOf(log, i)
      ensures forall s :: s in samples ==> Recent(s.at, window, now) || s == samples[|samples| - 1]
    {
      OneMoreEvent(log, Record(now, size));
      log := log + [Record(now, size)];
      samples := samples + [Sample(now, size)];
      while |samples| > 1 && SatAdd(samples[0].at, window) <= now
        invariant log == old(log) + [Record(now, size)] && Timely(log) && LastAt(log) == now
        invariant |samples| > 0 && gone <= |Full(log)| && samples == Full(log)[gone..]
        invariant forall i :: 0 <= i < gone ==> !Recent(Full(log)[i].at, window, now)
      {
        samples := samples[1..];
        gone := gone + 1;
      }
      largest := Largest(samples);
      KeptAreInWindow(log, samples, gone, window, now);
      LargestOfTheLog(log, samples, gone, window, now, largest);
    }

    method ForgetOne(since: nat)
      requires Valid()
      modifies this
      ensures Valid() && log == old(log) + [Forget(since)]
    {
      ghost var was := log;
      OneMoreEvent(log, Forget(since));
      log := log + [Forget(since)];
      var i := 0;
      while i < |samples|
        invariant log == was + [Forget(since)] && gone == old(gone) && i <= |samples| == |old(samples)|
        invariant forall j :: 0 <= j < i ==> samples[j] == LowerOne(old(samples)[j], since)
        invariant forall j :: i <= j < |samples| ==> samples[j] == old(samples)[j]
      {
        if samples[i].at >= since {
          samples := samples[i := samples[i].(size := Max(SatSub(samples[i].size, 1), 1))];
        }
        i := i + 1;
      }
      assert samples == Full(log)[gone..];
    }
  }

  method Largest(samples: seq<Sample>) returns (largest: nat)
    requires samples != []
    ensures forall i :: 0 <= i < |samples| ==> samples[i].size <= largest
    ensures exists i :: 0 <= i < |samples| && samples[i].size == largest
  {
    largest := samples[0].size;
    var i := 1;
    while i < |samples|
      invariant 1 <= i <= |samples|
      invariant forall j :: 0 <= j < i ==> samples[j].size <= largest
      invariant exists j :: 0 <= j < i && samples[j].size == largest
    {
      largest := Max(largest, samples[i].size);
      i := i + 1;
    }
  }

  /** The front is the oldest: once it is in the window so are the rest. */
  lemma KeptAreInWindow(log: Log, samples: seq<Sample>, gone: nat, window: nat, now: nat)
    requires Timely(log) && gone <= |Full(log)| && samples == Full(log)[gone..] && |samples| > 0
    requires |samples| == 1 || Recent(samples[0].at, window, now)
    ensures forall i :: 0 <= i < |samples| ==> Recent(samples[i].at, window, now) || i == |samples| - 1
  {
    FullIsSorted(log);
    forall i | 0 <= i < |samples| ensures Recent(samples[i].at, window, now) || i == |samples| - 1 {
      assert samples[i] == Full(log)[gone + i] && samples[0] == Full(log)[gone];
    }
  }

  lemma LargestOfTheLog(log: Log, samples: seq<Sample>, gone: nat, window: nat, now: nat, largest: nat)
    requires Timely(log) && log != [] && log[|log| - 1].Record?
    requires gone <= |Full(log)| && samples == Full(log)[gone..] && |samples| > 0
    requires forall i :: 0 <= i < gone ==> !Recent(Full(log)[i].at, window, now)
    requires forall i :: 0 <= i < |samples| ==> Recent(samples[i].at, window, now) || i == |samples| - 1
    requires forall i :: 0 <= i < |samples| ==> samples[i].size <= largest
    requires exists i :: 0 <= i < |samples| && samples[i].size == largest
    ensures forall i :: 0 <= i < |log| && log[i].Record? && (i == |log| - 1 || Recent(log[i].at, window, now)) ==>
              SizeOf(log, i) <= largest
    ensures exists i :: 0 <= i < |log| && log[i].Record? && (i == |log| - 1 || Recent(log[i].at, window, now))
              && largest == SizeOf(log, i)
  {
    var last := |log| - 1;
    FullLength(log);
    forall i | 0 <= i < |log| && log[i].Record? && (i == last || Recent(log[i].at, window, now))
      ensures SizeOf(log, i) <= largest
    {
      FullHoldsSizes(log, i);
      var p := Position(log, i);
      if i == last {
        assert p == |Full(log)| - 1;
      }
      assert p >= gone;
      assert samples[p - gone] == Full(log)[p];
    }
    var q :| 0 <= q < |samples| && samples[q].size == largest;
    var i := FullHoldsRecords(log, gone + q);
    FullHoldsSizes(log, i);
    assert Full(log)[gone + q] == samples[q];
    if q == |samples| - 1 && i < last {
      PositionsGrow(log, i, last);
      FullHoldsSizes(log, last);
    }
  }
}
