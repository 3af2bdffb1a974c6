/** Two nodes that keep a key hot for one another for good, though it is in demand on
    neither: their reports arrive in pairs the wrong way round
    (rateguard-core/src/hot_set.rs, rateguard-core/src/peer_demand.rs).

    Both tick at the same times, a gap apart. The report of every odd round is a gap
    late, so it arrives behind that of the next.
 */
module KeptHot {
  import opened Wrappers
  import opened Quotas
  import opened Proto
  import HotSet
  import opened PeerDemand
  import opened Cooling

  const DEMAND := 0.5
  const THRESHOLD := 1.0

  /** The time of the tick `m`. */
  function TickTime(g: Terms, m: nat): nat { if m == 0 then g.start else TickTime(g, m - 1) + g.gap }

  /** The late report comes within the delay, and the next pair within the window. */
  predicate Suits(g: Terms, pairs: nat) {
    && 0 < g.gap <= g.delay && 2 * g.gap < g.window && g.gap < g.cooldown
    && g.start + g.gap * (2 * pairs) < U64_MAX
  }

  lemma {:induction false} TickTimeIs(g: Terms, m: nat)
    ensures TickTime(g, m) == g.start + g.gap * m
  {
    if m > 0 {
      TickTimeIs(g, m - 1);
      assert g.gap * m == g.gap * (m - 1) + g.gap;
    }
  }

  /** For as many pairs as a clock has room for. */
  lemma TermsSuit(key: nat, pairs: nat)
    requires 2 * pairs < U64_MAX
    ensures Suits(Terms(key, 0, 2, 3, 1, 1), pairs)
  {
  }

  lemma {:induction false} TicksRise(g: Terms, m: nat, n: nat)
    requires m <= n
    ensures TickTime(g, m) <= TickTime(g, n) && (m < n && g.gap > 0 ==> TickTime(g, m) < TickTime(g, n))
    decreases n
  {
    if m < n {
      TicksRise(g, m, n - 1);
    }
  }

  /** A node's entry after `m` ticks: hot by its own demand at first, then cooling, then
      secondary. */
  function EntryAfter(g: Terms, m: nat): (e: HotSet.HotEntry)
    ensures e.demand == DEMAND
  {
    if m == 0 then HotSet.HotEntry(None, DEMAND, true, 0)
    else HotSet.CooledEntry(EntryAfter(g, m - 1), g.cooldown, DEMAND, TickTime(g, m))
  }

  /** Its report of that tick. */
  function ReportOf(g: Terms, m: nat, from: nat): DemandReport {
    DemandReport(from, 0, m % ROUNDS, [KeyDemand(g.key, DEMAND, EntryAfter(g, m).primary)])
  }

  function SnapshotOf(g: Terms, m: nat): Snapshot {
    Snapshot(0, [], m % ROUNDS, TickTime(g, m), map[g.key := Word(DEMAND, EntryAfter(g, m).primary)])
  }

  /** What a node holds of the other after `n` pairs: the first late report said
      primary, and every one since renews that. */
  function ContestedAfter(g: Terms, n: nat): Contested {
    if n == 0 then map[] else map[g.key := Heard(DEMAND, true, 1, TickTime(g, 2 * n))]
  }

  function PeersAfter(g: Terms, other: nat, n: nat): Peers {
    if n == 0 then map[] else map[other := Peer(Some(SnapshotOf(g, 2 * n)), ContestedAfter(g, n), None)]
  }

  /** And between the two reports of the next pair. */
  function PeersBetween(g: Terms, other: nat, n: nat): Peers {
    map[other := Peer(Some(SnapshotOf(g, 2 * n + 2)), ContestedAfter(g, n), None)]
  }

  // -------------------------------------------------------------------------- the run

  /** The eight events of a pair: both nodes tick twice, then each hears the other's
      two reports, the later one first. */
  function Ticks(a: nat, n: nat, j: nat): nat {
    if j <= a then 2 * n else if j <= 2 + a then 2 * n + 1 else 2 * n + 2
  }

  function PeersAt(g: Terms, a: nat, n: nat, j: nat): Peers {
    var other := 1 - if a == 0 then 0 else 1;
    if j <= 4 + 2 * a then PeersAfter(g, other, n)
    else if j == 5 + 2 * a then PeersBetween(g, other, n)
    else PeersAfter(g, other, n + 1)
  }

  function ViewAt(g: Terms, a: nat, n: nat, j: nat): View {
    View(Some(EntryAfter(g, Ticks(a, n, j))), PeersAt(g, a, n, j), Ticks(a, n, j))
  }

  function ClusterAt(g: Terms, n: nat, j: nat): Cluster {
    map[0 := ViewAt(g, 0, n, j), 1 := ViewAt(g, 1, n, j)]
  }

  function EventAt(g: Terms, n: nat, j: nat): Event
    requires j < 8
  {
    if j == 0 || j == 2 then Round(0)
    else if j == 1 || j == 3 then Round(1)
    else if j == 4 then Deliver(0, ReportOf(g, 2 * n + 2, 1), Some(8 * n + 4), TickTime(g, 2 * n + 2))
    else if j == 5 then Deliver(0, ReportOf(g, 2 * n + 1, 1), Some(8 * n + 2), TickTime(g, 2 * n + 1))
    else if j == 6 then Deliver(1, ReportOf(g, 2 * n + 2, 0), Some(8 * n + 4), TickTime(g, 2 * n + 2))
    else Deliver(1, ReportOf(g, 2 * n + 1, 0), Some(8 * n + 2), TickTime(g, 2 * n + 1))
  }

  function TimeAt(g: Terms, n: nat, j: nat): nat { TickTime(g, if j <= 1 then 2 * n + 1 else 2 * n + 2) }

  function HistoryOf(g: Terms, pairs: nat): (h: History)
    ensures |h.states| == 8 * pairs + 1 && |h.events| == 8 * pairs && |h.times| == 8 * pairs
    ensures forall i :: 0 <= i <= 8 * pairs ==> h.states[i] == ClusterAt(g, i / 8, i % 8)
    ensures forall i :: 0 <= i < 8 * pairs ==> h.events[i] == EventAt(g, i / 8, i % 8)
    ensures forall i :: 0 <= i < 8 * pairs ==> h.times[i] == TimeAt(g, i / 8, i % 8)
  {
    History(seq(8 * pairs + 1, i requires 0 <= i <= 8 * pairs => ClusterAt(g, i / 8, i % 8)),
            seq(8 * pairs, i requires 0 <= i < 8 * pairs => EventAt(g, i / 8, i % 8)),
            seq(8 * pairs, i requires 0 <= i < 8 * pairs => TimeAt(g, i / 8, i % 8)))
  }

  lemma PairEnds(g: Terms, n: nat)
    ensures ClusterAt(g, n, 8) == ClusterAt(g, n + 1, 0)
  {
  }

  // ------------------------------------------------------------------------- the ticks

  lemma EntryStaysPrimary(g: Terms)
    requires g.gap < g.cooldown
    ensures EntryAfter(g, 1).primary && EntryAfter(g, 2).primary
  {
    assert EntryAfter(g, 0) == HotSet.HotEntry(None, DEMAND, true, 0);
    assert EntryAfter(g, 1) == HotSet.HotEntry(Some(TickTime(g, 1)), DEMAND, true, 0);
    assert TickTime(g, 2) == TickTime(g, 1) + g.gap;
  }

  lemma PeersAreFresh(g: Terms, other: nat, n: nat, m: nat, pairs: nat)
    requires Suits(g, pairs) && n < pairs && 2 * n < m <= 2 * n + 2
    ensures ExpireAll(PeersAfter(g, other, n), TickTime(g, m), g.window) == PeersAfter(g, other, n)
  {
    if n > 0 {
      TicksRise(g, 2 * n, m);
      TicksRise(g, m, 2 * n + 2);
      TicksRise(g, m, 2 * pairs);
      TickTimeIs(g, 2 * pairs);
      assert TickTime(g, 2 * n + 2) == TickTime(g, 2 * n) + 2 * g.gap by {
        assert TickTime(g, 2 * n + 2) == TickTime(g, 2 * n + 1) + g.gap;
      }
      var p := PeersAfter(g, other, n)[other];
      assert Fresh(TickTime(g, 2 * n), TickTime(g, m), g.window);
      assert StillFresh(p.contested, TickTime(g, m), g.window) == p.contested;
      assert Expired(p, TickTime(g, m), g.window) == Some(p);
    }
  }

  lemma OtherIsHot(g: Terms, other: nat, n: nat)
    requires n > 0
    ensures HotElsewhere(PeersAfter(g, other, n), g.key)
  {
    assert HeardOf(PeersAfter(g, other, n)[other], g.key).value.primary;
  }

  lemma TickHolds(g: Terms, other: nat, n: nat, m: nat, pairs: nat)
    requires Suits(g, pairs) && n < pairs && 2 * n < m <= 2 * n + 2
    ensures
      var peers := PeersAfter(g, other, n);
      RoundStep(g, View(Some(EntryAfter(g, m - 1)), peers, m - 1), View(Some(EntryAfter(g, m)), peers, m),
          TickTime(g, m))
  {
    var peers, at := PeersAfter(g, other, n), TickTime(g, m);
    PeersAreFresh(g, other, n, m, pairs);
    var f := HotSet.Feed(DEMAND, THRESHOLD, at, HotElsewhere(peers, g.key));
    if n == 0 {
      EntryStaysPrimary(g);
    } else {
      OtherIsHot(g, other, n);
    }
    assert NodeTick(Some(EntryAfter(g, m - 1)), Some(EntryAfter(g, m)), g.cooldown, f);
  }

  // ----------------------------------------------------------------------- the reports

  lemma KeysOfReport(g: Terms, m: nat, from: nat)
    ensures KeysOf(ReportOf(g, m, from).keys) == map[g.key := Word(DEMAND, EntryAfter(g, m).primary)]
  {
    var keys := ReportOf(g, m, from).keys;
    assert keys[..|keys| - 1] == [] && KeysOf(keys[..|keys| - 1]) == map[];
  }

  lemma RoundsOfAPair(n: nat)
    ensures RoundIsNewer((2 * n + 2) % ROUNDS, (2 * n) % ROUNDS) && Ahead((2 * n + 2) % ROUNDS, (2 * n) % ROUNDS) == 2
    ensures !RoundIsNewer((2 * n + 1) % ROUNDS, (2 * n + 2) % ROUNDS) && (2 * n + 1) % ROUNDS != (2 * n + 2) % ROUNDS
  {
    SerialNumbersCompare(2 * n + 2, 2 * n);
    SerialNumbersCompare(2 * n + 1, 2 * n + 2);
  }

  /** The later report of a pair is the peer's next, or its first. */
  lemma LaterIsTaken(g: Terms, other: nat, n: nat)
    ensures Applied(PeersAfter(g, other, n), other, ReportOf(g, 2 * n + 2, other), TickTime(g, 2 * n + 2))
         == PeersBetween(g, other, n)
  {
    var peers, r, at := PeersAfter(g, other, n), ReportOf(g, 2 * n + 2, other), TickTime(g, 2 * n + 2);
    KeysOfReport(g, 2 * n + 2, other);
    RoundsOfAPair(n);
    var p := PeerAt(peers, other);
    assert Takes(p, r) && PastEpochs(p, r) == [];
    assert n > 0 ==> SmallStep(p, r);
    assert ApplyTo(p, r, at) == PeersBetween(g, other, n)[other];
    assert peers[other := ApplyTo(p, r, at)] == PeersBetween(g, other, n);
  }

  function WordsOf(g: Terms, m: nat): map<nat, Word> { map[g.key := Word(DEMAND, EntryAfter(g, m).primary)] }

  lemma OneKeyStays(c: Contested, k: nat)
    requires c.Keys == {k}
    ensures Evict(c) == c
  {
    assert |c.Keys| == |c|;
  }

  lemma FirstIsContested(g: Terms)
    requires g.gap < g.cooldown
    ensures Merge(map[], WordsOf(g, 1), 1 % ROUNDS, TickTime(g, 2)) == ContestedAfter(g, 1)
  {
    EntryStaysPrimary(g);
  }

  lemma MergedIsRenewed(g: Terms, n: nat)
    requires n > 0
    ensures Merge(ContestedAfter(g, n), WordsOf(g, 2 * n + 1), (2 * n + 1) % ROUNDS, TickTime(g, 2 * n + 2))
         == ContestedAfter(g, n + 1)
  {
    TicksRise(g, 2 * n, 2 * n + 2);
  }

  /** The earlier one is contested, and its word stands as primary from the first on. */
  lemma EarlierIsContested(g: Terms, other: nat, n: nat)
    requires g.gap < g.cooldown
    ensures Applied(PeersBetween(g, other, n), other, ReportOf(g, 2 * n + 1, other), TickTime(g, 2 * n + 2))
         == PeersAfter(g, other, n + 1)
  {
    var peers, r, at := PeersBetween(g, other, n), ReportOf(g, 2 * n + 1, other), TickTime(g, 2 * n + 2);
    KeysOfReport(g, 2 * n + 1, other);
    RoundsOfAPair(n);
    var p := peers[other];
    assert !Takes(p, r) && !Duplicate(p, r);
    if n == 0 {
      FirstIsContested(g);
    } else {
      MergedIsRenewed(g, n);
    }
    OneKeyStays(ContestedAfter(g, n + 1), g.key);
    assert ApplyTo(p, r, at) == p.(contested := ContestedAfter(g, n + 1));
    assert peers[other := ApplyTo(p, r, at)] == PeersAfter(g, other, n + 1);
  }

  // --------------------------------------------------------------------------- the run

  lemma ViewTicks(g: Terms, a: nat, n: nat, j: nat, pairs: nat)
    requires Suits(g, pairs) && n < pairs && a < 2 && (j == a || j == a + 2)
    ensures RoundStep(g, ViewAt(g, a, n, j), ViewAt(g, a, n, j + 1), TimeAt(g, n, j))
    ensures ViewAt(g, 1 - a, n, j + 1) == ViewAt(g, 1 - a, n, j) && EventAt(g, n, j) == Round(a)
  {
    TickHolds(g, 1 - a, n, if j < 2 then 2 * n + 1 else 2 * n + 2, pairs);
  }

  lemma TickOfAPair(g: Terms, n: nat, j: nat, pairs: nat)
    requires Suits(g, pairs) && n < pairs && j < 4
    ensures Step(g, ClusterAt(g, n, j), ClusterAt(g, n, j + 1), EventAt(g, n, j), TimeAt(g, n, j))
  {
    var a := j % 2;
    ViewTicks(g, a, n, j, pairs);
    assert ClusterAt(g, n, j)[a] == ViewAt(g, a, n, j) && ClusterAt(g, n, j + 1)[a] == ViewAt(g, a, n, j + 1);
  }

  lemma LaterOfAPair(g: Terms, n: nat, j: nat)
    requires j == 4 || j == 6
    ensures Step(g, ClusterAt(g, n, j), ClusterAt(g, n, j + 1), EventAt(g, n, j), TimeAt(g, n, j))
  {
    LaterIsTaken(g, if j == 4 then 1 else 0, n);
  }

  lemma EarlierOfAPair(g: Terms, n: nat, j: nat)
    requires g.gap < g.cooldown && (j == 5 || j == 7)
    ensures Step(g, ClusterAt(g, n, j), ClusterAt(g, n, j + 1), EventAt(g, n, j), TimeAt(g, n, j))
  {
    EarlierIsContested(g, if j == 5 then 1 else 0, n);
  }

  lemma StepIsThere(g: Terms, pairs: nat, i: nat)
    requires Suits(g, pairs) && i < 8 * pairs
    ensures var h := HistoryOf(g, pairs); Step(g, h.states[i], h.states[i + 1], h.events[i], h.times[i])
  {
    var h, n, j := HistoryOf(g, pairs), i / 8, i % 8;
    assert h.states[i + 1] == ClusterAt(g, n, j + 1) by {
      if j == 7 {
        PairEnds(g, n);
        assert (i + 1) / 8 == n + 1 && (i + 1) % 8 == 0;
      } else {
        assert (i + 1) / 8 == n && (i + 1) % 8 == j + 1;
      }
    }
    if j < 4 {
      TickOfAPair(g, n, j, pairs);
    } else if j == 4 || j == 6 {
      LaterOfAPair(g, n, j);
    } else {
      EarlierOfAPair(g, n, j);
    }
  }

  lemma PlaceInPair(pairs: nat, n: nat, j: nat)
    requires n < pairs && j < 8
    ensures 8 * n + j < 8 * pairs && (8 * n + j) / 8 == n && (8 * n + j) % 8 == j
  {
  }

  /** A report of a pair: of which tick, by whom, and in which state it is sent. */
  function TickSent(n: nat, j: nat): nat { if j % 2 == 0 then 2 * n + 2 else 2 * n + 1 }
  function Sender(j: nat): nat { if j < 6 then 1 else 0 }
  function StateSent(n: nat, j: nat): nat { if j % 2 == 0 then 8 * n + 4 else 8 * n + 2 }

  lemma SentInTime(g: Terms, pairs: nat, n: nat, j: nat)
    requires Suits(g, pairs) && n < pairs && 4 <= j < 8
    ensures var h, sent := HistoryOf(g, pairs), StateSent(n, j);
            && sent <= 8 * n + j < 8 * pairs && h.states[sent] == ClusterAt(g, n, sent - 8 * n)
            && h.times[sent - 1] <= TickTime(g, TickSent(n, j)) <= h.times[sent]
            && TickTime(g, TickSent(n, j)) <= TimeAt(g, n, j) <= TickTime(g, TickSent(n, j)) + g.delay
  {
    var sent := StateSent(n, j);
    PlaceInPair(pairs, n, j);
    PlaceInPair(pairs, n, sent - 8 * n);
    PlaceInPair(pairs, n, sent - 1 - 8 * n);
    TicksRise(g, 2 * n + 1, 2 * n + 2);
    assert TickTime(g, 2 * n + 2) == TickTime(g, 2 * n + 1) + g.gap;
  }

  lemma SentAsItIs(g: Terms, n: nat, j: nat)
    requires 4 <= j < 8
    ensures var s, r := ClusterAt(g, n, StateSent(n, j) - 8 * n)[Sender(j)], ReportOf(g, TickSent(n, j), Sender(j));
            && s.round == TickSent(n, j) && s.entry == Some(EntryAfter(g, s.round))
            && KeysOf(r.keys) == map[g.key := Word(s.entry.value.demand, s.entry.value.primary)]
  {
    KeysOfReport(g, TickSent(n, j), Sender(j));
  }

  lemma EventIsThere(g: Terms, pairs: nat, i: nat)
    requires i < 8 * pairs && i % 8 >= 4
    ensures var n, j := i / 8, i % 8;
            HistoryOf(g, pairs).events[i]
            == Deliver(1 - Sender(j), ReportOf(g, TickSent(n, j), Sender(j)), Some(StateSent(n, j)), TickTime(g,
                TickSent(n, j)))
  {
  }

  lemma ReportIsHonest(g: Terms, pairs: nat, i: nat)
    requires Suits(g, pairs) && i < 8 * pairs
    ensures Honest(g, HistoryOf(g, pairs), i)
  {
    var n, j := i / 8, i % 8;
    if j >= 4 {
      EventIsThere(g, pairs, i);
      SentInTime(g, pairs, n, j);
      SentAsItIs(g, n, j);
    }
  }

  lemma ReportIsGenuine(g: Terms, pairs: nat, i: nat)
    requires Suits(g, pairs) && i < 8 * pairs
    ensures Genuine(g, HistoryOf(g, pairs), i)
  {
    var n, j := i / 8, i % 8;
    ReportIsHonest(g, pairs, i);
    if j >= 4 {
      EventIsThere(g, pairs, i);
      SentInTime(g, pairs, n, j);
      SentAsItIs(g, n, j);
    }
  }

  function TickOf(i: nat): nat { if i % 8 <= 1 then 2 * (i / 8) + 1 else 2 * (i / 8) + 2 }

  lemma TimesRise(g: Terms, pairs: nat, i: nat, k: nat)
    requires i <= k < 8 * pairs
    ensures g.start <= HistoryOf(g, pairs).times[i] <= HistoryOf(g, pairs).times[k]
  {
    assert TickOf(i) <= TickOf(k);
    TicksRise(g, 0, TickOf(i));
    TicksRise(g, TickOf(i), TickOf(k));
  }

  lemma RunsOn(g: Terms, pairs: nat)
    requires Suits(g, pairs)
    ensures Cooling.Run(g, HistoryOf(g, pairs)) && Start(g, HistoryOf(g, pairs))
  {
    var h := HistoryOf(g, pairs);
    forall i | 0 <= i < |h.times| ensures g.start <= h.times[i] {
      TimesRise(g, pairs, i, i);
    }
    forall i, k | 0 <= i <= k < |h.times| ensures h.times[i] <= h.times[k] {
      TimesRise(g, pairs, i, k);
    }
    forall i | 0 <= i < |h.events| ensures Step(g, h.states[i], h.states[i + 1], h.events[i], h.times[i]) {
      StepIsThere(g, pairs, i);
    }
    forall i | 0 <= i < |h.events| ensures Honest(g, h, i) {
      ReportIsHonest(g, pairs, i);
    }
    assert h.states[0] == ClusterAt(g, 0, 0);
  }

  /** The last tick up to `t`. */
  lemma {:induction false} LastTick(g: Terms, t: nat, n: nat) returns (m: nat)
    requires g.gap > 0 && g.start <= t < TickTime(g, n)
    ensures m < n && TickTime(g, m) <= t < TickTime(g, m + 1)
    decreases n
  {
    if t < TickTime(g, n - 1) {
      m := LastTick(g, t, n - 1);
    } else {
      m := n - 1;
    }
  }

  lemma TicksOften(g: Terms, pairs: nat, a: nat, t: nat)
    requires Suits(g, pairs) && Cooling.Run(g, HistoryOf(g, pairs)) && a < 2 && pairs > 0
    requires g.start <= t && t + g.gap <= TickTime(g, 2 * pairs)
    ensures TicksIn(g, HistoryOf(g, pairs), a, t)
  {
    var h := HistoryOf(g, pairs);
    var m := LastTick(g, t, 2 * pairs);
    var n, j := m / 2, if m % 2 == 0 then a else 2 + a;
    PlaceInPair(pairs, n, j);
    var i := 8 * n + j;
    assert h.events[i] == Round(a) && h.times[i] == TickTime(g, m + 1);
    assert t < h.times[i] <= t + g.gap;
  }

  lemma TicksRegularly(g: Terms, pairs: nat)
    requires Suits(g, pairs) && Cooling.Run(g, HistoryOf(g, pairs))
    ensures Regular(g, HistoryOf(g, pairs))
  {
    var h := HistoryOf(g, pairs);
    if pairs > 0 {
      PlaceInPair(pairs, pairs - 1, 7);
      assert h.times[|h.times| - 1] == TickTime(g, 2 * pairs);
      assert h.states[0] == ClusterAt(g, 0, 0);
      forall a: nat, t: nat | a in h.states[0] && g.start <= t && t + g.gap <= TickTime(g, 2 * pairs)
        ensures TicksIn(g, h, a, t)
      {
        TicksOften(g, pairs, a, t);
      }
    }
  }

  lemma BothHold(g: Terms, pairs: nat, i: nat, a: nat)
    requires i <= 8 * pairs && a < 2
    ensures var st := HistoryOf(g, pairs).states[i]; a in st && st[a].entry.Some?
  {
    assert HistoryOf(g, pairs).states[i] == ClusterAt(g, i / 8, i % 8);
  }

  /** Main result: for every number of pairs there is such a run, of regular ticks and of
      reports that are just what their senders made in their last round, each in time,
      in which both nodes hold the key hot in every state, though neither does by its
      own demand once the cooldown and two ticks are over. */
  lemma {:induction false} SwappedReportsKeepAKeyHot(g: Terms, pairs: nat)
    requires Suits(g, pairs)
    ensures var h := HistoryOf(g, pairs); Cooling.Run(g, h) && Start(g, h) && Regular(g, h)
    ensures forall i :: 0 <= i < 8 * pairs ==> Genuine(g, HistoryOf(g, pairs), i)
    ensures forall i, a :: 0 <= i <= 8 * pairs && 0 <= a < 2 ==>
              a in HistoryOf(g, pairs).states[i] && HistoryOf(g, pairs).states[i][a].entry.Some?
    ensures forall i, a :: 0 <= i < 8 * pairs && 0 <= a < 2 && HistoryOf(g, pairs).times[i] > Ended(g) ==>
              a in HistoryOf(g, pairs).states[i] && NotPrimary(HistoryOf(g, pairs).states[i][a].entry)
  {
    var h := HistoryOf(g, pairs);
    RunsOn(g, pairs);
    TicksRegularly(g, pairs);
    forall i | 0 <= i < 8 * pairs ensures Genuine(g, h, i) {
      ReportIsGenuine(g, pairs, i);
    }
    forall i, a | 0 <= i <= 8 * pairs && 0 <= a < 2 ensures a in h.states[i] && h.states[i][a].entry.Some? {
      BothHold(g, pairs, i, a);
    }
    forall i, a | 0 <= i < 8 * pairs && 0 <= a < 2 && h.times[i] > Ended(g)
      ensures a in h.states[i] && NotPrimary(h.states[i][a].entry)
    {
      assert h.states[0] == ClusterAt(g, 0, 0);
      PrimaryEnds(g, h, i, a);
    }
  }
}
