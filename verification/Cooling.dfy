/** How a key stops being hot across the cluster (rateguard-core/src/hot_set.rs,
    rateguard-core/src/peer_demand.rs, and the round of rateguard-core/src/node.rs):
    one key over all nodes, from the moment its demand stays at or below the
    threshold everywhere.
 */
module Cooling {
  import opened Wrappers
  import opened Quotas
  import opened Proto
  import Member
  import HotSet
  import Limiter
  import opened PeerDemand

  function EntryOf(h: HotSet.Hot, k: nat): Option<HotSet.HotEntry> {
    if k in h then Some(h[k]) else None
  }

  /** What one tick may make of a key that is not in demand: it cools, comes in as
      secondary if a peer holds it so, or is gone, other keys needing the room. */
  predicate NodeTick(before: Option<HotSet.HotEntry>, after: Option<HotSet.HotEntry>, cooldown: nat, f: HotSet.Feed) {
    || after.None?
    || (&& before.Some? && after == Some(HotSet.CooledEntry(before.value, cooldown, f.demand, f.now))
        && (after.value.primary || f.hotElsewhere))
    || (f.hotElsewhere && after == Some(HotSet.HotEntry(None, f.demand, false, f.now)))
  }

  lemma OwnUpdateIsNodeTick(h: HotSet.Hot, l: HotSet.Limits, k: nat, f: HotSet.Feed, before: Option<HotSet.HotEntry>)
    requires f.demand <= f.threshold && (EntryOf(h, k) == before || EntryOf(h, k) == None)
    ensures NodeTick(before, EntryOf(HotSet.Updated(h, l, k, f), k), l.cooldown, f)
  {
  }

  /** What part of the first pass may make of `k`, whether it has come to it or not. */
  predicate PassOn(c: Limiter.Config, t: Limiter.Tick, limit: Limiter.Limit, k: nat, seen: bool,
                   before: Option<HotSet.HotEntry>, after: Option<HotSet.HotEntry>)
    requires t.n > 0
  {
    if seen then NodeTick(before, after, c.hot.cooldown, Limiter.FeedOf(c, t, k, limit))
    else after == before || after == None
  }

  lemma VisitPassesOn(c: Limiter.Config, t: Limiter.Tick, keys: Limiter.Keys, hot: HotSet.Hot, j: nat, k: nat,
                      limit: Limiter.Limit, seen: bool, before: Option<HotSet.HotEntry>)
    requires t.n > 0 && j in keys && t.folded(k).rate <= Limiter.ColdRate(limit, c.alpha, t.n)
    requires PassOn(c, t, limit, k, seen, before, EntryOf(hot, k)) && (j == k ==> !seen && keys[k].limit == limit)
    ensures PassOn(c, t, limit, k, seen || j == k, before, EntryOf(Limiter.Visit(c, t, keys, hot, j).1, k))
  {
    var f := Limiter.FeedOf(c, t, j, keys[j].limit);
    if j == k {
      OwnUpdateIsNodeTick(hot, c.hot, k, f, before);
    } else {
      HotSet.OthersOnlyMakeRoom(hot, c.hot, j, f, k);
    }
  }

  /** So does the limiter's first pass, whatever the order of the keys. */
  lemma {:induction false} FirstPassIsNodeTick(c: Limiter.Config, t: Limiter.Tick, keys: Limiter.Keys, hot: HotSet.Hot,
                                              order: seq<nat>, k: nat)
    requires t.n > 0 && Member.Distinct(order) && forall i :: 0 <= i < |order| ==> order[i] in keys
    requires k in keys && t.folded(k).rate <= Limiter.ColdRate(keys[k].limit, c.alpha, t.n)
    ensures PassOn(c, t, keys[k].limit, k, k in order, EntryOf(hot, k), EntryOf(Limiter.FirstPass(c, t, keys, hot,
        order).1, k))
  {
    if order != [] {
      var n := |order| - 1;
      FirstPassIsNodeTick(c, t, keys, hot, order[..n], k);
      var (before, warm) := Limiter.FirstPass(c, t, keys, hot, order[..n]);
      assert order[n] !in order[..n] && order == order[..n] + [order[n]];
      Limiter.StillToCome(c, t, keys, hot, order[..n], order[n]);
      VisitPassesOn(c, t, before, warm, order[n], k, keys[k].limit, k in order[..n], EntryOf(hot, k));
    }
  }

  // ---------------------------------------------------------------------- the cluster

  /** A node's entry of the key, what the peers told it, and its round so far. */
  datatype View = View(entry: Option<HotSet.HotEntry>, peers: Peers, round: nat)

  type Cluster = map<nat, View>

  /** A delivery names the state its report was sent in, unless that was before
      the run. */
  datatype Event =
    | Round(node: nat)
    | Deliver(node: nat, report: DemandReport, sent: Option<nat>, sentAt: nat)

  /** `start`: when demand has fallen. `gap`: the longest between two ticks of a
      node. `delay`: the longest a datagram is on its way. */
  datatype Terms = Terms(key: nat, start: nat, cooldown: nat, window: nat, delay: nat, gap: nat)

  /** The limiter's tick, then the expiry. */
  ghost predicate RoundStep(g: Terms, before: View, after: View, at: nat) {
    && after.peers == ExpireAll(before.peers, at, g.window) && after.round == before.round + 1
    && exists f: HotSet.Feed ::
         && f.now == at && f.demand <= f.threshold
         && (f.hotElsewhere <==> f.demand >= Limiter.SILENT_DEMAND && HotElsewhere(before.peers, g.key))
         && NodeTick(before.entry, after.entry, g.cooldown, f)
  }

  ghost predicate Step(g: Terms, before: Cluster, after: Cluster, e: Event, at: nat) {
    && e.node in before && after.Keys == before.Keys
    && (forall n :: n in before && n != e.node ==> after[n] == before[n])
    && match e
       case Round(a) => RoundStep(g, before[a], after[a], at)
       case Deliver(a, r, _, _) => after[a] == before[a].(peers := Applied(before[a].peers, r.origin, r, at))
  }

  predicate SaysPrimary(r: DemandReport, k: nat) {
    k in KeysOf(r.keys) && KeysOf(r.keys)[k].primary
  }

  predicate NotPrimary(e: Option<HotSet.HotEntry>) { e.Some? ==> !e.value.primary }

  datatype History = History(states: seq<Cluster>, events: seq<Event>, times: seq<nat>)

  /** A report arrives within the delay and says what its sender holds. */
  ghost predicate Honest(g: Terms, h: History, i: nat)
    requires i < |h.events| && i < |h.times| && |h.states| == |h.times| + 1
  {
    h.events[i].Deliver? ==>
      var d := h.events[i];
      && d.sentAt <= h.times[i] <= d.sentAt + g.delay
      && match d.sent
         case None => d.sentAt <= g.start
         case Some(j) =>
           && j <= i && d.sentAt <= h.times[j] && (j > 0 ==> h.times[j - 1] <= d.sentAt)
           && d.report.origin in h.states[j]
           && (SaysPrimary(d.report, g.key) ==> !NotPrimary(h.states[j][d.report.origin].entry))
  }

  /** And is the very report its sender made in its last round: of its first run, of
      that round, and naming the key with its word exactly while it is hot there. */
  ghost predicate Genuine(g: Terms, h: History, i: nat)
    requires i < |h.events| && i < |h.times| && |h.states| == |h.times| + 1
  {
    h.events[i].Deliver? ==>
      var d := h.events[i];
      && Honest(g, h, i) && d.sent.Some? && d.report.origin != d.node
      && var s := h.states[d.sent.value][d.report.origin]; var keys := KeysOf(d.report.keys);
         && d.report.epoch == 0 && d.report.round == s.round % ROUNDS
         && (g.key in keys <==> s.entry.Some?)
         && (s.entry.Some? ==> keys[g.key] == Word(s.entry.value.demand, s.entry.value.primary))
  }

  ghost predicate Run(g: Terms, h: History) {
    && |h.states| == |h.events| + 1 && |h.times| == |h.events|
    && (forall i :: 0 <= i < |h.times| ==> g.start <= h.times[i])
    && (forall i, j :: 0 <= i <= j < |h.times| ==> h.times[i] <= h.times[j])
    && (forall i :: 0 <= i < |h.events| ==> Step(g, h.states[i], h.states[i + 1], h.events[i], h.times[i]))
    && (forall i :: 0 <= i < |h.events| ==> Honest(g, h, i))
  }

  /** Nothing dates from the future, and nobody has left. */
  ghost predicate Sane(v: View, at: nat) {
    && (v.entry.Some? && v.entry.value.coolingSince.Some? ==> v.entry.value.coolingSince.value <= at)
    && forall m :: m in v.peers ==> Bounded(v.peers[m], at) && v.peers[m].heldUntil.None?
  }

  ghost predicate Start(g: Terms, h: History)
    requires |h.states| > 0
  {
    forall n :: n in h.states[0] ==> Sane(h.states[0][n], g.start)
  }

  /** No node goes longer than `gap` without a tick. */
  ghost predicate Regular(g: Terms, h: History)
    requires Run(g, h)
  {
    forall a: nat, t: nat ::
      a in h.states[0] && g.start <= t && |h.times| > 0 && t + g.gap <= h.times[|h.times| - 1] ==> TicksIn(g, h, a, t)
  }

  ghost predicate TicksIn(g: Terms, h: History, a: nat, t: nat)
    requires Run(g, h)
  {
    exists i :: 0 <= i < |h.events| && h.events[i] == Round(a) && t < h.times[i] <= t + g.gap
  }

  // ------------------------------------------------------------------------- one step

  /** Primary only if it has been cooling since `due` at the latest. */
  predicate CoolingBy(e: Option<HotSet.HotEntry>, due: nat) {
    e.Some? && e.value.primary ==> e.value.coolingSince.Some? && e.value.coolingSince.value <= due
  }

  lemma EntryStep(g: Terms, before: Cluster, after: Cluster, e: Event, at: nat, a: nat, due: nat)
    requires Step(g, before, after, e, at) && a in before
    ensures NotPrimary(before[a].entry) ==> NotPrimary(after[a].entry)
    ensures CoolingBy(before[a].entry, due) ==> CoolingBy(after[a].entry, due)
    ensures e == Round(a) && Sane(before[a], at) ==> CoolingBy(after[a].entry, at)
    ensures e == Round(a) && CoolingBy(before[a].entry, due) && at >= due + g.cooldown ==> NotPrimary(after[a].entry)
  {
  }

  lemma ExpiredStaysBounded(p: Peer, was: nat, at: nat, window: nat)
    requires Bounded(p, was) && was <= at && p.heldUntil.None? && Expired(p, at, window).Some?
    ensures Bounded(Expired(p, at, window).value, at) && Expired(p, at, window).value.heldUntil.None?
  {
    var kept := Expired(p, at, window).value.contested;
    assert kept.Keys <= p.contested.Keys;
    Member.SubsetIsSmaller(kept.Keys, p.contested.Keys);
    assert |kept.Keys| == |kept| && |p.contested.Keys| == |p.contested|;
  }

  lemma SaneStep(g: Terms, before: Cluster, after: Cluster, e: Event, was: nat, at: nat, a: nat)
    requires Step(g, before, after, e, at) && a in before && Sane(before[a], was) && was <= at
    ensures Sane(after[a], at)
  {
    forall m | m in after[a].peers ensures Bounded(after[a].peers[m], at) && after[a].peers[m].heldUntil.None? {
      if e == Round(a) {
        ExpiredStaysBounded(before[a].peers[m], was, at, g.window);
      } else if a == e.node && e.report.origin == m {
        ApplyKeepsBounded(PeerAt(before[a].peers, m), e.report, was, at);
      }
    }
  }

  // ------------------------------------------------------------------- what is said

  /** Every word of `k` being primary was heard by `due`. */
  predicate SaidBy(p: Peer, k: nat, due: nat) {
    && (SnapshotWord(p, k).Some? && SnapshotWord(p, k).value.primary ==> SnapshotWord(p, k).value.heardAt <= due)
    && (ContestedWord(p, k).Some? && ContestedWord(p, k).value.primary ==> ContestedWord(p, k).value.heardAt <= due)
  }

  predicate Unsaid(p: Peer, k: nat) {
    && (SnapshotWord(p, k).Some? ==> !SnapshotWord(p, k).value.primary)
    && (ContestedWord(p, k).Some? ==> !ContestedWord(p, k).value.primary)
  }

  /** The report gives an earlier word of the key a later time. Either it is not taken,
      is no exact copy and names the key, whose contested word is primary; or it
      replaces a snapshot that is contested in turn, which names the key, and the
      word it is merged with makes a primary one. In both cases the word is not
      evicted, and its new time is past `due`. */
  predicate Renews(p: Peer, r: DemandReport, now: nat, k: nat, due: nat) {
    && k in p.contested && Spared(Pending(p, r, now), k)
    && if Takes(p, r) then
         && p.snapshot.Some? && !SmallStep(p, r) && k in p.snapshot.value.keys
         && (p.contested[k].primary || p.snapshot.value.keys[k].primary)
         && Max(p.contested[k].heardAt, p.snapshot.value.heardAt) > due
       else
         && !Duplicate(p, r) && k in KeysOf(r.keys)
         && p.contested[k].primary && Max(p.contested[k].heardAt, now) > due
  }

  lemma PendingIsLate(p: Peer, r: DemandReport, now: nat, k: nat, due: nat)
    requires SaidBy(p, k, due) && !SaysPrimary(r, k) && Spared(Pending(p, r, now), k)
    ensures Pending(p, r, now)[k].primary && Pending(p, r, now)[k].heardAt > due <==> Renews(p, r, now, k, due)
  {
  }

  /** Main result for one report that does not say primary: some word of the key being
      primary is afterwards later than `due` if and only if the report renews it. */
  lemma RenewalIsExact(p: Peer, r: DemandReport, now: nat, k: nat, due: nat)
    requires |p.contested| <= MAX_CONTESTED && SaidBy(p, k, due) && !SaysPrimary(r, k)
    ensures !SaidBy(ApplyTo(p, r, now), k, due) <==> Renews(p, r, now, k, due)
  {
    AppliedSnapshot(p, r, now, k);
    AppliedContested(p, r, now);
    EvictSparesTheLatest(Pending(p, r, now), k);
    if Spared(Pending(p, r, now), k) {
      PendingIsLate(p, r, now, k, due);
    }
    var after := ApplyTo(p, r, now);
    assert ContestedWord(after, k) == if Spared(Pending(p, r, now), k) then Some(Pending(p, r, now)[k]) else None;
  }

  lemma ApplySaysNoLater(p: Peer, r: DemandReport, was: nat, now: nat, k: nat, due: nat)
    requires Bounded(p, was) && was <= now && SaidBy(p, k, due)
    requires now <= due || (!SaysPrimary(r, k) && !Renews(p, r, now, k, due))
    ensures SaidBy(ApplyTo(p, r, now), k, due)
  {
    if now <= due {
      ApplyKeepsBounded(p, r, was, now);
    } else {
      RenewalIsExact(p, r, now, k, due);
    }
  }

  lemma PendingStaysUnsaid(p: Peer, r: DemandReport, now: nat, k: nat)
    requires Unsaid(p, k) && !SaysPrimary(r, k) && k in Pending(p, r, now)
    ensures !Pending(p, r, now)[k].primary
  {
  }

  lemma ApplyStaysUnsaid(p: Peer, r: DemandReport, was: nat, now: nat, k: nat)
    requires Bounded(p, was) && Unsaid(p, k) && !SaysPrimary(r, k)
    ensures Unsaid(ApplyTo(p, r, now), k)
  {
    AppliedSnapshot(p, r, now, k);
    AppliedContested(p, r, now);
    if k in Evict(Pending(p, r, now)) {
      PendingStaysUnsaid(p, r, now, k);
    }
    assert ContestedWord(ApplyTo(p, r, now), k).Some? ==> k in Evict(Pending(p, r, now));
  }

  lemma ExpiredIsUnsaid(p: Peer, now: nat, window: nat, k: nat, due: nat)
    requires p.heldUntil.None? && SaidBy(p, k, due) && Expired(p, now, window).Some?
    ensures SaidBy(Expired(p, now, window).value, k, due)
    ensures Unsaid(p, k) || now >= due + window ==> Unsaid(Expired(p, now, window).value, k)
  {
    OnlyTheStaleIsDropped(p, now, window, k);
  }

  lemma UnsaidIsNotHot(peers: Peers, k: nat)
    requires forall m :: m in peers ==> Unsaid(peers[m], k)
    ensures !HotElsewhere(peers, k)
  {
  }

  // ---------------------------------------------------------------------------- runs

  lemma {:induction false} StaysSane(g: Terms, h: History, i: nat, a: nat)
    requires Run(g, h) && Start(g, h) && i < |h.states| && a in h.states[0]
    ensures a in h.states[i]
    ensures Sane(h.states[i][a], if i == 0 then g.start else h.times[i - 1])
  {
    if i > 0 {
      StaysSane(g, h, i - 1, a);
      SaneStep(g, h.states[i - 1], h.states[i], h.events[i - 1], if i
          == 1 then g.start else h.times[i - 2], h.times[i - 1], a);
    }
  }

  lemma {:induction false} StaysCooling(g: Terms, h: History, i: nat, j: nat, a: nat, due: nat)
    requires Run(g, h) && i <= j < |h.states| && a in h.states[i] && CoolingBy(h.states[i][a].entry, due)
    ensures a in h.states[j] && CoolingBy(h.states[j][a].entry, due)
    decreases j
  {
    if i < j {
      StaysCooling(g, h, i, j - 1, a, due);
      EntryStep(g, h.states[j - 1], h.states[j], h.events[j - 1], h.times[j - 1], a, due);
    }
  }

  lemma {:induction false} StaysSecondary(g: Terms, h: History, i: nat, j: nat, a: nat)
    requires Run(g, h) && i <= j < |h.states| && a in h.states[i] && NotPrimary(h.states[i][a].entry)
    ensures a in h.states[j] && NotPrimary(h.states[j][a].entry)
    decreases j
  {
    if i < j {
      StaysSecondary(g, h, i, j - 1, a);
      EntryStep(g, h.states[j - 1], h.states[j], h.events[j - 1], h.times[j - 1], a, 0);
    }
  }

  /** When no node is primary any more: the cooldown and two ticks. */
  function Ended(g: Terms): nat { g.start + g.cooldown + 2 * g.gap }

  lemma NextTick(g: Terms, h: History, a: nat, t: nat) returns (i: nat)
    requires Run(g, h) && Regular(g, h) && a in h.states[0]
    requires g.start <= t && |h.times| > 0 && t + g.gap <= h.times[|h.times| - 1]
    ensures i < |h.events| && h.events[i] == Round(a) && t < h.times[i] <= t + g.gap
  {
    assert TicksIn(g, h, a, t);
    i :| 0 <= i < |h.events| && h.events[i] == Round(a) && t < h.times[i] <= t + g.gap;
  }

  lemma TickCools(g: Terms, h: History, first: nat, i: nat, a: nat)
    requires Run(g, h) && Start(g, h) && a in h.states[0] && first < i < |h.states| && h.events[first] == Round(a)
    ensures a in h.states[i] && CoolingBy(h.states[i][a].entry, h.times[first])
  {
    StaysSane(g, h, first, a);
    EntryStep(g, h.states[first], h.states[first + 1], Round(a), h.times[first], a, 0);
    StaysCooling(g, h, first + 1, i, a, h.times[first]);
  }

  /** Main result for primary keys. */
  lemma PrimaryEnds(g: Terms, h: History, i: nat, a: nat)
    requires Run(g, h) && Start(g, h) && Regular(g, h) && a in h.states[0]
    requires i < |h.times| && h.times[i] > Ended(g)
    ensures a in h.states[i] && NotPrimary(h.states[i][a].entry)
  {
    var first := NextTick(g, h, a, g.start);
    var second := NextTick(g, h, a, h.times[first] + g.cooldown);
    TickCools(g, h, first, second, a);
    EntryStep(g, h.states[second], h.states[second + 1], Round(a), h.times[second], a, h.times[first]);
    StaysSecondary(g, h, second + 1, i, a);
  }

  /** From when on every report says the key is not primary. */
  function Silent(g: Terms): nat { Ended(g) + g.delay }

  lemma NoLateReportSaysPrimary(g: Terms, h: History, i: nat)
    requires Run(g, h) && Start(g, h) && Regular(g, h) && i < |h.times| && h.times[i] > Silent(g)
    requires h.events[i].Deliver?
    ensures !SaysPrimary(h.events[i].report, g.key)
  {
    var d := h.events[i];
    assert Honest(g, h, i);
    if d.sent.Some? {
      var j := d.sent.value;
      assert h.times[j] > Ended(g);
      assert d.report.origin in h.states[0] by {
        KeysStay(g, h, j);
      }
      PrimaryEnds(g, h, j, d.report.origin);
    }
  }

  lemma {:induction false} KeysStay(g: Terms, h: History, i: nat)
    requires Run(g, h) && i < |h.states|
    ensures h.states[i].Keys == h.states[0].Keys
  {
    if i > 0 {
      KeysStay(g, h, i - 1);
    }
  }

  /** Up to the event `n`, nothing heard at the node after `due` renews a word. */
  ghost predicate NoneRenews(g: Terms, h: History, a: nat, due: nat, n: nat)
    requires Run(g, h) && n <= |h.events|
  {
    forall i :: 0 <= i < n && h.events[i].Deliver? && h.events[i].node == a && h.times[i] > due ==>
      && a in h.states[i]
      && !Renews(PeerAt(h.states[i][a].peers, h.events[i].report.origin), h.events[i].report, h.times[i], g.key, due)
  }

  ghost predicate AllSaidBy(g: Terms, v: View, due: nat) {
    forall m :: m in v.peers ==> SaidBy(v.peers[m], g.key, due)
  }

  ghost predicate AllUnsaid(g: Terms, v: View) {
    forall m :: m in v.peers ==> Unsaid(v.peers[m], g.key)
  }

  lemma SaidStep(g: Terms, before: Cluster, after: Cluster, e: Event, was: nat, at: nat, a: nat, due: nat)
    requires Step(g, before, after, e, at) && a in before && Sane(before[a], was) && was <= at
        && AllSaidBy(g, before[a], due)
    requires e.Deliver? && e.node == a && at > due ==>
               && !SaysPrimary(e.report, g.key)
               && !Renews(PeerAt(before[a].peers, e.report.origin), e.report, at, g.key, due)
    ensures AllSaidBy(g, after[a], due)
    ensures e == Round(a) && at >= due + g.window ==> AllUnsaid(g, after[a])
  {
    forall m | m in after[a].peers ensures SaidBy(after[a].peers[m], g.key, due) {
      if e == Round(a) {
        ExpiredIsUnsaid(before[a].peers[m], at, g.window, g.key, due);
      } else if a == e.node && e.report.origin == m {
        ApplySaysNoLater(PeerAt(before[a].peers, m), e.report, was, at, g.key, due);
      }
    }
    if e == Round(a) && at >= due + g.window {
      forall m | m in after[a].peers ensures Unsaid(after[a].peers[m], g.key) {
        ExpiredIsUnsaid(before[a].peers[m], at, g.window, g.key, due);
      }
    }
  }

  lemma UnsaidStep(g: Terms, before: Cluster, after: Cluster, e: Event, was: nat, at: nat, a: nat, due: nat)
    requires Step(g, before, after, e, at) && a in before && Sane(before[a], was) && was <= at
    requires AllUnsaid(g, before[a]) && AllSaidBy(g, before[a], due)
    requires e.Deliver? ==> !SaysPrimary(e.report, g.key)
    ensures AllUnsaid(g, after[a])
    ensures NotPrimary(before[a].entry) && (e == Round(a) || before[a].entry.None?) ==> after[a].entry.None?
  {
    UnsaidIsNotHot(before[a].peers, g.key);
    forall m | m in after[a].peers ensures Unsaid(after[a].peers[m], g.key) {
      if e == Round(a) {
        ExpiredIsUnsaid(before[a].peers[m], at, g.window, g.key, due);
      } else if a == e.node && e.report.origin == m {
        ApplyStaysUnsaid(PeerAt(before[a].peers, m), e.report, was, at, g.key);
      }
    }
  }

  function Before(g: Terms, h: History, i: nat): nat
    requires 0 < i <= |h.times|
  {
    if i == 1 then g.start else h.times[i - 2]
  }

  lemma {:induction false} SaidByThen(g: Terms, h: History, i: nat, a: nat, due: nat)
    requires Run(g, h) && Start(g, h) && Regular(g, h) && i < |h.states| && a in h.states[0]
    requires due >= Silent(g) && NoneRenews(g, h, a, due, i)
    ensures a in h.states[i] && AllSaidBy(g, h.states[i][a], due)
  {
    StaysSane(g, h, i, a);
    if i == 0 {
      assert Sane(h.states[0][a], g.start);
    } else {
      SaidByThen(g, h, i - 1, a, due);
      StaysSane(g, h, i - 1, a);
      if h.events[i - 1].Deliver? && h.times[i - 1] > due {
        NoLateReportSaysPrimary(g, h, i - 1);
      }
      SaidStep(g, h.states[i - 1], h.states[i], h.events[i - 1], Before(g, h, i), h.times[i - 1], a, due);
    }
  }

  lemma StepStaysUnsaid(g: Terms, h: History, j: nat, a: nat, due: nat)
    requires Run(g, h) && Start(g, h) && Regular(g, h) && a in h.states[0]
    requires 0 < j < |h.states| && due >= Silent(g) && NoneRenews(g, h, a, due, j) && h.times[j - 1] > due
    requires a in h.states[j - 1] && AllUnsaid(g, h.states[j - 1][a])
    ensures a in h.states[j] && AllUnsaid(g, h.states[j][a])
    ensures NotPrimary(h.states[j - 1][a].entry) && (h.events[j - 1] == Round(a) || h.states[j - 1][a].entry.None?) ==>
              h.states[j][a].entry.None?
  {
    StaysSane(g, h, j - 1, a);
    SaidByThen(g, h, j - 1, a, due);
    if h.events[j - 1].Deliver? {
      NoLateReportSaysPrimary(g, h, j - 1);
    }
    UnsaidStep(g, h.states[j - 1], h.states[j], h.events[j - 1], Before(g, h, j), h.times[j - 1], a, due);
  }

  /** From the tick that drops the last word on, no peer is held to say it. */
  lemma {:induction false} StaysUnsaid(g: Terms, h: History, i: nat, j: nat, a: nat, due: nat)
    requires Run(g, h) && Start(g, h) && Regular(g, h) && a in h.states[0]
    requires i < j < |h.states| && due >= Silent(g) && NoneRenews(g, h, a, due, j)
    requires h.events[i] == Round(a) && h.times[i] >= due + g.window && h.times[i] > due
    ensures a in h.states[j] && AllUnsaid(g, h.states[j][a])
    decreases j
  {
    if j == i + 1 {
      StaysSane(g, h, i, a);
      SaidByThen(g, h, i, a, due);
      SaidStep(g, h.states[i], h.states[j], Round(a), Before(g, h, j), h.times[i], a, due);
    } else {
      StaysUnsaid(g, h, i, j - 1, a, due);
      StepStaysUnsaid(g, h, j, a, due);
    }
  }

  lemma StepStaysGone(g: Terms, h: History, i: nat, j: nat, a: nat, due: nat)
    requires Run(g, h) && Start(g, h) && Regular(g, h) && a in h.states[0]
    requires i < j < |h.times| && due >= Silent(g) && NoneRenews(g, h, a, due, j + 1)
    requires h.events[i] == Round(a) && h.times[i] >= due + g.window && h.times[i] > due
    ensures a in h.states[j] && a in h.states[j + 1]
    ensures h.events[j] == Round(a) || h.states[j][a].entry.None? ==> h.states[j + 1][a].entry.None?
  {
    StaysUnsaid(g, h, i, j, a, due);
    PrimaryEnds(g, h, j, a);
    StepStaysUnsaid(g, h, j + 1, a, due);
  }

  /** And from the next tick on the key is gone. */
  lemma {:induction false} StaysGone(g: Terms, h: History, i: nat, next: nat, j: nat, a: nat, due: nat)
    requires Run(g, h) && Start(g, h) && Regular(g, h) && a in h.states[0]
    requires i < next < j < |h.states| && h.events[i] == Round(a) && h.events[next] == Round(a)
    requires due >= Silent(g) && NoneRenews(g, h, a, due, j) && h.times[i] >= due + g.window && h.times[i] > due
    ensures a in h.states[j] && h.states[j][a].entry.None?
    decreases j
  {
    if j > next + 1 {
      StaysGone(g, h, i, next, j - 1, a, due);
    }
    StepStaysGone(g, h, i, j - 1, a, due);
  }

  /** When a node is not hot any more, if nothing it heard after `due` renewed a word: a
      stale window and two ticks, for the tick that drops a word still counts it. */
  function Cold(g: Terms, due: nat): nat { due + g.window + 2 * g.gap }

  /** Main result: a key hot on no node by its own demand is gone from a node a stale
      window and two ticks after the last report that renewed a word of it there. */
  lemma HotEnds(g: Terms, h: History, i: nat, a: nat, due: nat)
    requires Run(g, h) && Start(g, h) && Regular(g, h) && a in h.states[0]
    requires i < |h.times| && due >= Silent(g) && NoneRenews(g, h, a, due, i) && h.times[i] > Cold(g, due)
    ensures a in h.states[i] && h.states[i][a].entry.None?
  {
    var first := NextTick(g, h, a, due + g.window);
    var second := NextTick(g, h, a, h.times[first]);
    StaysGone(g, h, first, second, i, a, due);
  }

  /** So a key still hot has had a word renewed since. */
  lemma HotNeedsRenewals(g: Terms, h: History, i: nat, a: nat, due: nat) returns (j: nat)
    requires Run(g, h) && Start(g, h) && Regular(g, h) && a in h.states[0]
    requires i < |h.times| && due >= Silent(g) && h.times[i] > Cold(g, due)
    requires a in h.states[i] && h.states[i][a].entry.Some?
    ensures j < i && h.events[j].Deliver? && h.events[j].node == a && h.times[j] > due && a in h.states[j]
    ensures Renews(PeerAt(h.states[j][a].peers, h.events[j].report.origin), h.events[j].report, h.times[j], g.key, due)
  {
    assert !NoneRenews(g, h, a, due, i) by {
      if NoneRenews(g, h, a, due, i) {
        HotEnds(g, h, i, a, due);
      }
    }
    j :| 0 <= j < i && h.events[j].Deliver? && h.events[j].node == a && h.times[j] > due
      && !(a in h.states[j]
           && !Renews(PeerAt(h.states[j][a].peers, h.events[j].report.origin), h.events[j].report, h.times[j], g.key,
               due));
    StaysSane(g, h, j, a);
  }

  // ----------------------------------------------------------------- while it is renewed

  /** A contested word of `m` being primary, heard at `s` or later. */
  predicate Stands(v: View, m: nat, k: nat, s: nat) {
    && m in v.peers && v.peers[m].heldUntil.None?
    && k in v.peers[m].contested && v.peers[m].contested[k].primary && v.peers[m].contested[k].heardAt >= s
  }

  lemma StandingIsHot(v: View, m: nat, k: nat, s: nat)
    requires Stands(v, m, k, s)
    ensures HotElsewhere(v.peers, k)
  {
    assert HeardOf(v.peers[m], k).value.primary;
  }

  /** What the event does to the word: an expiry in its time leaves it, and so does a
      report that does not evict it. */
  ghost predicate Spares(g: Terms, h: History, i: nat, a: nat, m: nat, s: nat)
    requires i < |h.events| && |h.times| == |h.events| && |h.states| == |h.events| + 1
  {
    && (h.events[i] == Round(a) ==> h.times[i] < s + g.window && h.times[i] < U64_MAX)
    && (h.events[i].Deliver? && h.events[i].node == a && h.events[i].report.origin == m && a in h.states[i] ==>
          Spared(Pending(PeerAt(h.states[i][a].peers, m), h.events[i].report, h.times[i]), g.key))
  }

  lemma FreshStays(p: Peer, k: nat, s: nat, at: nat, window: nat)
    requires p.heldUntil.None? && k in p.contested && p.contested[k].primary && p.contested[k].heardAt >= s
    requires at < s + window && at < U64_MAX
    ensures Expired(p, at, window).Some?
    ensures var q := Expired(p, at, window).value;
            q.heldUntil.None? && k in q.contested && q.contested[k] == p.contested[k]
  {
    assert Fresh(p.contested[k].heardAt, at, window);
    assert k in StillFresh(p.contested, at, window);
  }

  lemma SparedStays(p: Peer, r: DemandReport, was: nat, at: nat, k: nat, s: nat)
    requires Bounded(p, was) && p.heldUntil.None? && Spared(Pending(p, r, at), k)
    requires k in p.contested && p.contested[k].primary && p.contested[k].heardAt >= s
    ensures var q := ApplyTo(p, r, at);
            q.heldUntil.None? && k in q.contested && q.contested[k].primary && q.contested[k].heardAt >= s
  {
    AppliedContested(p, r, at);
    EvictSparesTheLatest(Pending(p, r, at), k);
  }

  lemma StandsOneMore(g: Terms, h: History, i: nat, a: nat, m: nat, s: nat)
    requires Run(g, h) && Start(g, h) && i < |h.events| && a in h.states[0] && a in h.states[i]
    requires Stands(h.states[i][a], m, g.key, s) && Spares(g, h, i, a, m, s)
    ensures a in h.states[i + 1] && Stands(h.states[i + 1][a], m, g.key, s)
  {
    var before, e, at := h.states[i][a], h.events[i], h.times[i];
    assert Step(g, h.states[i], h.states[i + 1], e, at);
    if e == Round(a) {
      FreshStays(before.peers[m], g.key, s, at, g.window);
    } else if e.node == a && e.report.origin == m {
      StaysSane(g, h, i, a);
      SparedStays(before.peers[m], e.report, if i == 0 then g.start else h.times[i - 1], at, g.key, s);
    }
  }

  /** The converse over runs: a word renewed keeps the key hot elsewhere until the first
      tick a stale window later, or until it is evicted. */
  lemma {:induction false} RenewedStaysHot(g: Terms, h: History, j: nat, i: nat, a: nat, m: nat, s: nat)
    requires Run(g, h) && Start(g, h) && j <= i < |h.states| && a in h.states[0] && a in h.states[j]
    requires Stands(h.states[j][a], m, g.key, s)
    requires forall l :: j <= l < i ==> Spares(g, h, l, a, m, s)
    ensures a in h.states[i] && Stands(h.states[i][a], m, g.key, s) && HotElsewhere(h.states[i][a].peers, g.key)
    decreases i
  {
    if j < i {
      RenewedStaysHot(g, h, j, i - 1, a, m, s);
      StandsOneMore(g, h, i - 1, a, m, s);
    }
    StandingIsHot(h.states[i][a], m, g.key, s);
  }

  /** And a report that renews makes the word stand, past `due`. */
  lemma RenewalStands(p: Peer, r: DemandReport, now: nat, k: nat, due: nat, v: View, m: nat)
    requires |p.contested| <= MAX_CONTESTED && p.heldUntil.None? && SaidBy(p, k, due) && !SaysPrimary(r, k)
    requires Renews(p, r, now, k, due) && m in v.peers && v.peers[m] == ApplyTo(p, r, now)
    ensures Stands(v, m, k, due + 1)
  {
    AppliedContested(p, r, now);
    EvictSparesTheLatest(Pending(p, r, now), k);
    PendingIsLate(p, r, now, k, due);
  }

  /** The tick that drops a word that ran out still counts it: were the words
      dropped first, one tick less would do. */
  lemma TheTickThatDropsItStillCounts(g: Terms, v: View, m: nat, heard: Snapshot, at: nat)
    requires v.peers == map[m := Peer(Some(heard), map[], None)] && heard.keys == map[g.key := Word(1.0, true)]
    requires at >= heard.heardAt + g.window
    requires v.entry == Some(HotSet.HotEntry(None, 0.5, false, 0))
    ensures RoundStep(g, v, View(v.entry, map[], v.round + 1), at)
  {
    var f := HotSet.Feed(0.5, 1.0, at, true);
    assert HeardOf(v.peers[m], g.key) == Some(Heard(1.0, true, heard.round, heard.heardAt));
    assert ExpireAll(v.peers, at, g.window) == map[];
    assert NodeTick(v.entry, v.entry, g.cooldown, f);
  }
}
