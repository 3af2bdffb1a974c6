/** What the peers said about their demand (rateguard-core/src/peer_demand.rs):
    the latest snapshot of each, and the reports not taken but still counted.
 */
module PeerDemand {
  import opened Wrappers
  import opened Orders
  import opened Quotas
  import opened Proto
  import Member

  const ROUNDS := 0x1_0000
  const IMPLAUSIBLE_JUMP := 0x4000
  const PAST_EPOCHS := 4
  const MAX_CONTESTED := 4 * MAX_DEMAND_KEYS

  datatype Word = Word(demand: real, primary: bool)
  datatype Heard = Heard(demand: real, primary: bool, round: nat, heardAt: nat)
  datatype Snapshot = Snapshot(epoch: nat, pastEpochs: seq<nat>, round: nat, heardAt: nat, keys: map<nat, Word>)

  type Contested = map<nat, Heard>

  datatype Peer = Peer(snapshot: Option<Snapshot>, contested: Contested, heldUntil: Option<nat>)

  /** How far round `a` is ahead of `b` around the circle. */
  function Ahead(a: nat, b: nat): nat { (a - b) % ROUNDS }

  predicate RoundIsNewer(a: nat, b: nat) { a != b && Ahead(a, b) < 0x8000 }

  /** A report's keys; of a key given twice the last word counts. */
  function KeysOf(keys: seq<KeyDemand>): (r: map<nat, Word>)
    ensures |r| <= |keys|
  {
    if keys == [] then map[]
    else
      var init, last := KeysOf(keys[..|keys| - 1]), keys[|keys| - 1];
      assert init[last.key := Word(last.demand, last.primary)].Keys == init.Keys + {last.key};
      init[last.key := Word(last.demand, last.primary)]
  }

  /** Reports name each key once. */
  predicate Distinct(keys: seq<KeyDemand>) {
    forall i, j :: 0 <= i < j < |keys| ==> keys[i].key != keys[j].key
  }

  lemma {:induction false} KeysOfDistinct(keys: seq<KeyDemand>, i: nat)
    requires Distinct(keys) && i < |keys|
    ensures keys[i].key in KeysOf(keys) && KeysOf(keys)[keys[i].key] == Word(keys[i].demand, keys[i].primary)
  {
    if i < |keys| - 1 {
      KeysOfDistinct(keys[..|keys| - 1], i);
    }
  }

  // -------------------------------------------------------------------- contesting

  /** At the maximum; how late it is heard counts whichever word is higher. */
  function Raised(e: Heard, w: Word, round: nat, at: nat): Heard {
    Heard(if w.demand > e.demand then w.demand else e.demand, e.primary || w.primary,
          if w.demand > e.demand then round else e.round, Max(e.heardAt, at))
  }

  function Entry(c: Contested, k: nat, w: Word, round: nat, at: nat): Heard {
    if k in c then Raised(c[k], w, round, at) else Heard(w.demand, w.primary, round, at)
  }

  function Merge(c: Contested, keys: map<nat, Word>, round: nat, at: nat): Contested {
    map k | k in c.Keys + keys.Keys :: if k in keys then Entry(c, k, keys[k], round, at) else c[k]
  }

  predicate Before(c: Contested, a: nat, b: nat)
    requires a in c && b in c
  {
    c[a].heardAt < c[b].heardAt || (c[a].heardAt == c[b].heardAt && a <= b)
  }

  /** Heard longest ago. */
  function Oldest(c: Contested): (f: nat)
    requires c != map[]
    ensures f in c && forall k :: k in c ==> Before(c, f, k)
  {
    assert exists f :: f in c && forall k :: k in c ==> Before(c, f, k) by {
      var f := FirstExists(c.Keys, (a: nat, b: nat) => a in c && b in c && Before(c, a, b));
    }
    var f :| f in c && forall k :: k in c ==> Before(c, f, k);
    f
  }

  function Evict(c: Contested): (r: Contested)
    ensures |r| == Min(|c|, MAX_CONTESTED) && r.Keys <= c.Keys && forall k :: k in r ==> r[k] == c[k]
    decreases |c|
  {
    if |c| <= MAX_CONTESTED then c
    else
      assert (c - {Oldest(c)}).Keys == c.Keys - {Oldest(c)};
      Evict(c - {Oldest(c)})
  }

  /** The entries that go before `k`. */
  function Elder(c: Contested, k: nat): set<nat>
    requires k in c
  {
    set j | j in c && j != k && Before(c, j, k)
  }

  /** Which keys of a table over its cap stay. */
  predicate Spared(c: Contested, k: nat) {
    k in c && |Elder(c, k)| + MAX_CONTESTED >= |c|
  }

  lemma ElderFits(c: Contested, k: nat)
    requires k in c
    ensures |Elder(c, k)| < |c|
  {
    Member.SubsetIsSmaller(Elder(c, k), c.Keys - {k});
  }

  lemma ElderWithoutOldest(c: Contested, k: nat)
    requires k in c && k != Oldest(c)
    ensures k in c - {Oldest(c)} && |Elder(c, k)| == |Elder(c - {Oldest(c)}, k)| + 1
  {
    var o := Oldest(c);
    assert Elder(c, k) == Elder(c - {o}, k) + {o};
    assert o !in Elder(c - {o}, k);
  }

  /** The evictions take the ones heard longest ago, and just as many as are over
      the cap. */
  lemma {:induction false} EvictSparesTheLatest(c: Contested, k: nat)
    ensures k in Evict(c) <==> Spared(c, k)
    decreases |c|
  {
    if |c| > MAX_CONTESTED {
      var rest := c - {Oldest(c)};
      assert rest.Keys == c.Keys - {Oldest(c)};
      assert |rest.Keys| == |rest| && |c.Keys| == |c|;
      EvictSparesTheLatest(rest, k);
      if k == Oldest(c) {
        assert Elder(c, k) == {};
      } else if k in c {
        ElderWithoutOldest(c, k);
      }
    } else if k in c {
      ElderFits(c, k);
    }
  }

  /** No more are as late as those in `latest` than there is room for. */
  lemma TheLatestAreSpared(c: Contested, latest: set<nat>, k: nat)
    requires k in latest && latest <= c.Keys && |latest| <= MAX_CONTESTED
    requires forall j :: j in c && j !in latest ==> Before(c, j, k)
    ensures Spared(c, k)
  {
    var others := c.Keys - latest;
    assert others <= Elder(c, k);
    Member.SubsetIsSmaller(others, Elder(c, k));
    assert c.Keys == others + latest;
    assert |c.Keys| == |c|;
  }

  // ------------------------------------------------------------------------ a peer

  function Contest(p: Peer, keys: map<nat, Word>, round: nat, at: nat): Peer {
    p.(contested := Evict(Merge(p.contested, keys, round, at)))
  }

  function SnapshotWord(p: Peer, k: nat): Option<Heard> {
    if p.snapshot.Some? && k in p.snapshot.value.keys then
      var s := p.snapshot.value;
      Some(Heard(s.keys[k].demand, s.keys[k].primary, s.round, s.heardAt))
    else None
  }

  function ContestedWord(p: Peer, k: nat): Option<Heard> {
    if k in p.contested then Some(p.contested[k]) else None
  }

  /** The higher of the two; primary if either holds it so. */
  function Higher(taken: Option<Heard>, contested: Option<Heard>): Option<Heard> {
    if taken.Some? && contested.Some? then
      var higher := if contested.value.demand > taken.value.demand then contested.value else taken.value;
      Some(higher.(primary := taken.value.primary || contested.value.primary))
    else if taken.Some? then taken else contested
  }

  function HeardOf(p: Peer, k: nat): Option<Heard> {
    Higher(SnapshotWord(p, k), ContestedWord(p, k))
  }

  const UNHEARD := Peer(None, map[], None)

  predicate Takes(p: Peer, r: DemandReport) {
    p.snapshot.Some? ==>
      var s := p.snapshot.value;
      r.epoch !in s.pastEpochs && (s.epoch != r.epoch || RoundIsNewer(r.round, s.round))
  }

  /** The next round of a live peer, so to say: what it no longer says is gone. */
  predicate SmallStep(p: Peer, r: DemandReport) {
    && Takes(p, r) && p.snapshot.Some? && p.snapshot.value.epoch == r.epoch
    && Ahead(r.round, p.snapshot.value.round) < IMPLAUSIBLE_JUMP
  }

  predicate Duplicate(p: Peer, r: DemandReport) {
    && p.snapshot.Some? && p.snapshot.value.epoch == r.epoch
    && p.snapshot.value.round == r.round && p.snapshot.value.keys == KeysOf(r.keys)
  }

  function PastEpochs(p: Peer, r: DemandReport): seq<nat> {
    if p.snapshot.None? then []
    else
      var s := p.snapshot.value;
      if s.epoch == r.epoch then s.pastEpochs
      else [s.epoch] + s.pastEpochs[..Min(PAST_EPOCHS - 1, |s.pastEpochs|)]
  }

  function Taken(p: Peer, r: DemandReport, now: nat): Peer {
    var q := p.(snapshot := Some(Snapshot(r.epoch, PastEpochs(p, r), r.round, now, KeysOf(r.keys))));
    var kept := if p.snapshot.Some? && !SmallStep(p, r)
                then Contest(q, p.snapshot.value.keys, p.snapshot.value.round, p.snapshot.value.heardAt) else q;
    kept.(heldUntil := None)
  }

  function ApplyTo(p: Peer, r: DemandReport, now: nat): Peer {
    if Takes(p, r) then Taken(p, r, now)
    else if Duplicate(p, r) then p
    else Contest(p, KeysOf(r.keys), r.round, now)
  }

  function Fresh(heardAt: nat, now: nat, maxAge: nat): bool { now < SatAdd(heardAt, maxAge) }

  function StillFresh(c: Contested, now: nat, maxAge: nat): Contested {
    map k | k in c && Fresh(c[k].heardAt, now, maxAge) :: c[k]
  }

  /** None once nothing is left of it. */
  function Expired(p: Peer, now: nat, maxAge: nat): Option<Peer> {
    if p.heldUntil.Some? then (if now < p.heldUntil.value then Some(p) else None)
    else
      var q := Peer(if p.snapshot.Some? && !Fresh(p.snapshot.value.heardAt, now, maxAge) then None else p.snapshot,
                    StillFresh(p.contested, now, maxAge), None);
      if q.snapshot.Some? || q.contested != map[] then Some(q) else None
  }

  // -------------------------------------------------------------------- all the peers

  type Peers = map<nat, Peer>

  function PeerAt(peers: Peers, m: nat): Peer {
    if m in peers then peers[m] else UNHEARD
  }

  function Applied(peers: Peers, from: nat, r: DemandReport, now: nat): Peers {
    if r.origin != from then peers else peers[from := ApplyTo(PeerAt(peers, from), r, now)]
  }

  function ExpireAll(peers: Peers, now: nat, maxAge: nat): Peers {
    map m | m in peers && Expired(peers[m], now, maxAge).Some? :: Expired(peers[m], now, maxAge).value
  }

  function Left(peers: Peers, m: nat, now: nat, hold: nat): Peers {
    if hold == 0 then peers - {m}
    else if m in peers then peers[m := peers[m].(heldUntil := Some(SatAdd(now, hold)))]
    else peers
  }

  function DemandAt(peers: Peers, m: nat, k: nat): real {
    var h := HeardOf(PeerAt(peers, m), k);
    if h.Some? then h.value.demand else 0.0
  }

  /** The demand of the peers in `s` together. */
  function TotalOf(peers: Peers, s: set<nat>, k: nat): real {
    if s == {} then 0.0
    else var m := Member.Least(s); DemandAt(peers, m, k) + TotalOf(peers, s - {m}, k)
  }

  function Total(peers: Peers, k: nat): real { TotalOf(peers, peers.Keys, k) }

  predicate HotElsewhere(peers: Peers, k: nat) {
    exists m :: m in peers && HeardOf(peers[m], k).Some? && HeardOf(peers[m], k).value.primary
  }

  class PeerDemand {
    var peers: Peers

    constructor ()
      ensures peers == map[]
    {
      peers := map[];
    }

    method Apply(from: nat, r: DemandReport, now: nat)
      modifies this
      ensures peers == Applied(old(peers), from, r, now)
    {
      if r.origin != from {
        return;
      }
      var keys := KeysOf(r.keys);
      var p := PeerAt(peers, from);
      ghost var was := p;
      var pastEpochs, keepReplaced := [], false;
      if p.snapshot.Some? {
        var s := p.snapshot.value;
        var sameEpoch := s.epoch == r.epoch;
        if r.epoch in s.pastEpochs || (sameEpoch && !RoundIsNewer(r.round, s.round)) {
          if !(sameEpoch && s.round == r.round && s.keys == keys) {
            p := ContestKeys(p, keys, r.round, now);
          }
          assert p == ApplyTo(was, r, now);
          peers := peers[from := p];
          return;
        }
        if sameEpoch {
          pastEpochs := s.pastEpochs;
          keepReplaced := Ahead(r.round, s.round) >= IMPLAUSIBLE_JUMP;
        } else {
          pastEpochs := [s.epoch] + s.pastEpochs[..Min(PAST_EPOCHS - 1, |s.pastEpochs|)];
          keepReplaced := true;
        }
      }
      var replaced := p.snapshot;
      p := p.(snapshot := Some(Snapshot(r.epoch, pastEpochs, r.round, now, keys)));
      if replaced.Some? && keepReplaced {
        p := ContestKeys(p, replaced.value.keys, replaced.value.round, replaced.value.heardAt);
      }
      p := p.(heldUntil := None);
      assert p == ApplyTo(was, r, now);
      peers := peers[from := p];
    }

    method Leave(m: nat, now: nat, hold: nat)
      modifies this
      ensures peers == Left(old(peers), m, now, hold)
    {
      if hold == 0 {
        peers := peers - {m};
      } else if m in peers {
        peers := peers[m := peers[m].(heldUntil := Some(SatAdd(now, hold)))];
      }
    }

    /** What counts of each peer afterwards: of a held one all of it or, its hold
        over, nothing; of any other what was heard within `maxAge`. */
    method Expire(now: nat, maxAge: nat)
      modifies this
      ensures peers == ExpireAll(old(peers), now, maxAge)
      ensures forall m, k :: SnapshotWord(PeerAt(peers, m), k)
                == Lasting(PeerAt(old(peers), m), SnapshotWord(PeerAt(old(peers), m), k), now, maxAge)
      ensures forall m, k :: ContestedWord(PeerAt(peers, m), k)
                == Lasting(PeerAt(old(peers), m), ContestedWord(PeerAt(old(peers), m), k), now, maxAge)
    {
      var left := peers.Keys;
      while left != {}
        invariant left <= peers.Keys <= old(peers.Keys)
        invariant forall m :: m in left ==> peers[m] == old(peers)[m]
        invariant forall m :: m in old(peers) && m !in left ==>
                    (m in peers <==> Expired(old(peers)[m], now, maxAge).Some?)
        invariant forall m :: m in peers && m !in left ==> Some(peers[m]) == Expired(old(peers)[m], now, maxAge)
      {
        var m :| m in left;
        var p := peers[m];
        var keep;
        if p.heldUntil.Some? {
          keep := now < p.heldUntil.value;
        } else {
          if p.snapshot.Some? && !Fresh(p.snapshot.value.heardAt, now, maxAge) {
            p := p.(snapshot := None);
          }
          p := p.(contested := StillFresh(p.contested, now, maxAge));
          keep := p.snapshot.Some? || p.contested != map[];
        }
        assert (if keep then Some(p) else None) == Expired(peers[m], now, maxAge);
        peers := if keep then peers[m := p] else peers - {m};
        left := left - {m};
      }
      assert peers == ExpireAll(old(peers), now, maxAge);
      forall m, k
        ensures SnapshotWord(PeerAt(peers, m), k)
                == Lasting(PeerAt(old(peers), m), SnapshotWord(PeerAt(old(peers), m), k), now, maxAge)
        ensures ContestedWord(PeerAt(peers, m), k)
                == Lasting(PeerAt(old(peers), m), ContestedWord(PeerAt(old(peers), m), k), now, maxAge)
      {
        WhatLasts(old(peers), now, maxAge, m, k);
      }
    }
  }

  /** What lasts of a peer's word. */
  function Lasting(p: Peer, w: Option<Heard>, now: nat, maxAge: nat): Option<Heard> {
    if p.heldUntil.Some? then (if now < p.heldUntil.value then w else None)
    else if w.Some? && Fresh(w.value.heardAt, now, maxAge) then w
    else None
  }

  /** After an expiry all that is held or heard within the window counts, and
      nothing else. */
  lemma WhatLasts(peers: Peers, now: nat, maxAge: nat, m: nat, k: nat)
    ensures var p, after := PeerAt(peers, m), PeerAt(ExpireAll(peers, now, maxAge), m);
            && SnapshotWord(after, k) == Lasting(p, SnapshotWord(p, k), now, maxAge)
            && ContestedWord(after, k) == Lasting(p, ContestedWord(p, k), now, maxAge)
  {
    var p := PeerAt(peers, m);
    if m in peers && p.heldUntil.None? {
      OnlyTheStaleIsDropped(p, now, maxAge, k);
    }
  }

  lemma MergeOne(c: Contested, keys: map<nat, Word>, round: nat, at: nat, k: nat)
    requires k in keys
    ensures Merge(c, keys, round, at) == Merge(c[k := Entry(c, k, keys[k], round, at)], keys - {k}, round, at)
  {
  }

  lemma EvictOne(c: Contested)
    requires |c| > MAX_CONTESTED
    ensures Evict(c) == Evict(c - {Oldest(c)}) && |c - {Oldest(c)}| < |c|
  {
    assert (c - {Oldest(c)}).Keys == c.Keys - {Oldest(c)};
  }

  lemma MergeNone(c: Contested, round: nat, at: nat)
    ensures Merge(c, map[], round, at) == c
  {
  }

  /** Merges the keys one by one, in no particular order. */
  method MergeKeys(was: Contested, keys: map<nat, Word>, round: nat, at: nat) returns (c: Contested)
    ensures c == Merge(was, keys, round, at)
  {
    c := was;
    var todo := keys;
    while todo != map[]
      invariant Merge(c, todo, round, at) == Merge(was, keys, round, at)
      decreases |todo|
    {
      var k :| k in todo;
      MergeOne(c, todo, round, at, k);
      c := c[k := Entry(c, k, todo[k], round, at)];
      assert (todo - {k}).Keys == todo.Keys - {k};
      todo := todo - {k};
    }
    MergeNone(c, round, at);
  }

  /** And evicts one by one while over the cap. */
  method EvictOver(was: Contested) returns (c: Contested)
    ensures c == Evict(was)
  {
    c := was;
    while |c| > MAX_CONTESTED
      invariant Evict(c) == Evict(was)
      decreases |c|
    {
      EvictOne(c);
      c := c - {Oldest(c)};
    }
  }

  method ContestKeys(p: Peer, keys: map<nat, Word>, round: nat, at: nat) returns (q: Peer)
    ensures q == Contest(p, keys, round, at)
  {
    var c := MergeKeys(p.contested, keys, round, at);
    c := EvictOver(c);
    q := p.(contested := c);
  }

  // --------------------------------------------------------- what a report counts for

  /** Whatever was heard, and replayed, before. */
  ghost predicate Bounded(p: Peer, now: nat) {
    && |p.contested| <= MAX_CONTESTED
    && (forall k :: k in p.contested ==> p.contested[k].heardAt <= now)
    && (p.snapshot.Some? ==> p.snapshot.value.heardAt <= now && |p.snapshot.value.pastEpochs| <= PAST_EPOCHS)
  }

  lemma ContestKeepsBounded(p: Peer, keys: map<nat, Word>, round: nat, at: nat, now: nat)
    requires forall k :: k in p.contested ==> p.contested[k].heardAt <= now
    requires at <= now
    ensures var c := Contest(p, keys, round, at).contested;
            |c| <= MAX_CONTESTED && forall k :: k in c ==> c[k].heardAt <= now
  {
  }

  lemma ApplyKeepsBounded(p: Peer, r: DemandReport, before: nat, now: nat)
    requires Bounded(p, before) && before <= now
    ensures Bounded(ApplyTo(p, r, now), now)
  {
    if Takes(p, r) {
      if p.snapshot.Some? && !SmallStep(p, r) {
        var q := p.(snapshot := Some(Snapshot(r.epoch, PastEpochs(p, r), r.round, now, KeysOf(r.keys))));
        ContestKeepsBounded(q, p.snapshot.value.keys, p.snapshot.value.round, p.snapshot.value.heardAt, now);
      }
    } else {
      ContestKeepsBounded(p, KeysOf(r.keys), r.round, now, now);
    }
  }

  /** A report's word survives the evictions that follow it: fewer keys are as
      late as it than there is room for. */
  lemma ContestedWordsCount(p: Peer, keys: map<nat, Word>, round: nat, now: nat, k: nat)
    requires k in keys && |keys| <= MAX_CONTESTED
    requires |p.contested| <= MAX_CONTESTED && forall j :: j in p.contested ==> p.contested[j].heardAt < now
    ensures k in Contest(p, keys, round, now).contested
    ensures var e := Contest(p, keys, round, now).contested[k];
            e.demand >= keys[k].demand && (keys[k].primary ==> e.primary)
  {
    var c := Merge(p.contested, keys, round, now);
    assert |keys.Keys| == |keys|;
    TheLatestAreSpared(c, keys.Keys, k);
    EvictSparesTheLatest(c, k);
  }

  /** The contested entries before any is evicted. */
  function Pending(p: Peer, r: DemandReport, now: nat): Contested {
    if Takes(p, r) then
      if p.snapshot.Some? && !SmallStep(p, r)
      then Merge(p.contested, p.snapshot.value.keys, p.snapshot.value.round, p.snapshot.value.heardAt)
      else p.contested
    else if Duplicate(p, r) then p.contested
    else Merge(p.contested, KeysOf(r.keys), r.round, now)
  }

  /** What the snapshot will say of `k`. */
  function NextSnapshotWord(p: Peer, r: DemandReport, now: nat, k: nat): Option<Heard> {
    if !Takes(p, r) then SnapshotWord(p, k)
    else if k in KeysOf(r.keys) then
      Some(Heard(KeysOf(r.keys)[k].demand, KeysOf(r.keys)[k].primary, r.round, now))
    else None
  }

  lemma AppliedSnapshot(p: Peer, r: DemandReport, now: nat, k: nat)
    ensures SnapshotWord(ApplyTo(p, r, now), k) == NextSnapshotWord(p, r, now, k)
  {
  }

  lemma AppliedContested(p: Peer, r: DemandReport, now: nat)
    requires |p.contested| <= MAX_CONTESTED
    ensures ApplyTo(p, r, now).contested == Evict(Pending(p, r, now))
  {
  }

  predicate Says(h: Option<Heard>, w: Word) {
    h.Some? && h.value.demand >= w.demand && (w.primary ==> h.value.primary)
  }

  lemma HigherSaysBoth(taken: Option<Heard>, contested: Option<Heard>, w: Word)
    requires Says(taken, w) || Says(contested, w)
    ensures Says(Higher(taken, contested), w)
  {
  }

  /** Main result: right after a report, later than all before it, each of its
      keys counts at no less than it says, taken or not and through every
      eviction. */
  lemma EveryReportCounts(p: Peer, r: DemandReport, before: nat, now: nat, k: nat)
    requires Bounded(p, before) && before < now && |r.keys| <= MAX_DEMAND_KEYS && k in KeysOf(r.keys)
    ensures Says(HeardOf(ApplyTo(p, r, now), k), KeysOf(r.keys)[k])
  {
    var w, after := KeysOf(r.keys)[k], ApplyTo(p, r, now);
    AppliedSnapshot(p, r, now, k);
    if !Takes(p, r) && !Duplicate(p, r) {
      ContestedWordsCount(p, KeysOf(r.keys), r.round, now, k);
      assert Says(ContestedWord(after, k), w);
    } else {
      assert Says(NextSnapshotWord(p, r, now, k), w);
    }
    HigherSaysBoth(SnapshotWord(after, k), ContestedWord(after, k), w);
  }

  lemma {:induction false} TotalWithout(peers: Peers, s: set<nat>, k: nat, m: nat)
    requires m in s
    ensures TotalOf(peers, s, k) == DemandAt(peers, m, k) + TotalOf(peers, s - {m}, k)
  {
    var l := Member.Least(s);
    if l != m {
      TotalWithout(peers, s - {l}, k, m);
      TotalWithout(peers, s - {m}, k, l);
      assert s - {l} - {m} == s - {m} - {l};
    }
  }

  ghost predicate NonNegative(peers: Peers, k: nat) {
    forall m :: m in peers ==> DemandAt(peers, m, k) >= 0.0
  }

  lemma {:induction false} TotalIsNonNegative(peers: Peers, s: set<nat>, k: nat)
    requires forall m :: m in s ==> DemandAt(peers, m, k) >= 0.0
    ensures TotalOf(peers, s, k) >= 0.0
  {
    if s != {} {
      TotalIsNonNegative(peers, s - {Member.Least(s)}, k);
    }
  }

  /** What is taken from the limit for the peers is never less than what any one
      of them just said, and a key just said to be primary is hot elsewhere. */
  lemma TotalCountsTheReport(peers: Peers, from: nat, r: DemandReport, before: nat, now: nat, k: nat)
    requires Bounded(PeerAt(peers, from), before) && before < now && |r.keys| <= MAX_DEMAND_KEYS
    requires r.origin == from && k in KeysOf(r.keys)
    requires NonNegative(Applied(peers, from, r, now), k)
    ensures Total(Applied(peers, from, r, now), k) >= KeysOf(r.keys)[k].demand
    ensures KeysOf(r.keys)[k].primary ==> HotElsewhere(Applied(peers, from, r, now), k)
  {
    var after := Applied(peers, from, r, now);
    EveryReportCounts(PeerAt(peers, from), r, before, now, k);
    TotalWithout(after, after.Keys, k, from);
    TotalIsNonNegative(after, after.Keys - {from}, k);
  }

  // ------------------------------------------------------- when a report lowers a key

  predicate Lowered(before: Option<Heard>, after: Option<Heard>) {
    before.Some? && (after.None? || after.value.demand < before.value.demand)
  }

  function PendingWord(p: Peer, r: DemandReport, now: nat, k: nat): Option<Heard> {
    if k in Pending(p, r, now) then Some(Pending(p, r, now)[k]) else None
  }

  /** Until one is evicted, the words kept are no lower than those they replace. */
  lemma PendingIsNoLower(p: Peer, r: DemandReport, now: nat, k: nat)
    requires !SmallStep(p, r)
    ensures !Lowered(ContestedWord(p, k), PendingWord(p, r, now, k))
    ensures NextSnapshotWord(p, r, now, k) == SnapshotWord(p, k)
        || !Lowered(SnapshotWord(p, k), PendingWord(p, r, now, k))
  {
  }

  lemma HigherIsNoLower(t: Option<Heard>, c: Option<Heard>, t': Option<Heard>, c': Option<Heard>)
    requires !Lowered(c, c') && (t' == t || !Lowered(t, c'))
    ensures !Lowered(Higher(t, c), Higher(t', c'))
    ensures c'.None? ==> Higher(t', None) == t'
  {
  }

  /** Main result: a report of another epoch, 0x4000 rounds ahead or more, or not
      taken lowers a key if and only if the contested entries overflow, the key's
      is among those heard longest ago, and the snapshot then says less. */
  lemma OnlyEvictionLowers(p: Peer, r: DemandReport, now: nat, k: nat)
    requires |p.contested| <= MAX_CONTESTED && !SmallStep(p, r)
    ensures Lowered(HeardOf(p, k), HeardOf(ApplyTo(p, r, now), k))
            <==> && k in Pending(p, r, now) && !Spared(Pending(p, r, now), k)
                 && Lowered(HeardOf(p, k), NextSnapshotWord(p, r, now, k))
    ensures !Takes(p, r) ==> ApplyTo(p, r, now).snapshot == p.snapshot
  {
    AppliedContested(p, r, now);
    AppliedSnapshot(p, r, now, k);
    EvictSparesTheLatest(Pending(p, r, now), k);
    PendingIsNoLower(p, r, now, k);
    HigherIsNoLower(SnapshotWord(p, k), ContestedWord(p, k), NextSnapshotWord(p, r, now, k), PendingWord(p, r, now, k));
    var after := ApplyTo(p, r, now);
    assert ContestedWord(after, k) == if Spared(Pending(p, r, now), k) then PendingWord(p, r, now, k) else None;
  }

  /** So no report but the peer's own next ones lowers a key while the contested
      table is under its cap. */
  lemma UnderTheCapNothingIsLowered(p: Peer, r: DemandReport, now: nat, k: nat)
    requires |p.contested| <= MAX_CONTESTED && |Pending(p, r, now)| <= MAX_CONTESTED
    requires Lowered(HeardOf(p, k), HeardOf(ApplyTo(p, r, now), k))
    ensures Takes(p, r) && p.snapshot.value.epoch == r.epoch
        && Ahead(r.round, p.snapshot.value.round) < IMPLAUSIBLE_JUMP
  {
    if !SmallStep(p, r) {
      OnlyEvictionLowers(p, r, now, k);
      assert false;
    }
  }

  /** Over the cap it does: a restart drops a key of the run before it at once,
      when what was contested since fills the table. */
  lemma AFullTableLosesTheOldRun(p: Peer, r: DemandReport, now: nat, k: nat)
    requires p.snapshot.Some? && p.snapshot.value.epoch != r.epoch && r.epoch !in p.snapshot.value.pastEpochs
    requires r.keys == [] && p.snapshot.value.keys.Keys == {k} && k !in p.contested
    requires |p.contested| == MAX_CONTESTED
    requires forall j :: j in p.contested ==> p.contested[j].heardAt > p.snapshot.value.heardAt
    ensures HeardOf(p, k).Some? && HeardOf(ApplyTo(p, r, now), k).None?
  {
    var c := Pending(p, r, now);
    assert c.Keys == p.contested.Keys + {k};
    assert Elder(c, k) == {};
    EvictSparesTheLatest(c, k);
    AppliedContested(p, r, now);
    AppliedSnapshot(p, r, now, k);
  }

  /** The `b`-th of some batches of 64 keys, none of them 0. */
  function Batch(b: nat): (r: seq<KeyDemand>)
    ensures |r| == MAX_DEMAND_KEYS
    ensures forall i :: 0 <= i < |r| ==> r[i] == KeyDemand(1 + MAX_DEMAND_KEYS * b + i, 1.0, false)
  {
    seq(MAX_DEMAND_KEYS, i requires 0 <= i < MAX_DEMAND_KEYS => KeyDemand(1 + MAX_DEMAND_KEYS * b + i, 1.0, false))
  }

  /** A peer's reports: round 5 names the key 0, those before it a batch each. */
  function Late(b: nat): DemandReport { DemandReport(0, 1, if b > 4 then 0 else 4 - b, Batch(b)) }

  /** Round 5 heard first, then so many of the earlier ones. */
  function Flooded(batches: nat): Peer {
    if batches == 0 then ApplyTo(UNHEARD, DemandReport(0, 1, 5, [KeyDemand(0, 1.0, true)]), 0)
    else ApplyTo(Flooded(batches - 1), Late(batches - 1), batches)
  }

  lemma {:induction false} KeysAreNamed(keys: seq<KeyDemand>)
    ensures forall k :: k in KeysOf(keys) <==> exists i :: 0 <= i < |keys| && keys[i].key == k
  {
    if keys != [] {
      var n := |keys| - 1;
      KeysAreNamed(keys[..n]);
      forall k ensures k in KeysOf(keys) <==> exists i :: 0 <= i < |keys| && keys[i].key == k {
        if k in KeysOf(keys[..n]) {
          var i :| 0 <= i < n && keys[..n][i].key == k;
          assert keys[i].key == k;
        } else if i :| 0 <= i < |keys| && keys[i].key == k {
          assert i == n || keys[..n][i].key == k;
        }
      }
    }
  }

  lemma {:induction false} DistinctKeysCount(keys: seq<KeyDemand>)
    requires Distinct(keys)
    ensures |KeysOf(keys)| == |keys|
  {
    if keys != [] {
      var n := |keys| - 1;
      DistinctKeysCount(keys[..n]);
      KeysAreNamed(keys[..n]);
      var init := KeysOf(keys[..n]);
      assert keys[n].key !in init;
      assert KeysOf(keys).Keys == init.Keys + {keys[n].key};
      assert |KeysOf(keys).Keys| == |KeysOf(keys)| && |init.Keys| == |init|;
    }
  }

  predicate InBatch(b: nat, k: nat) { MAX_DEMAND_KEYS * b < k <= MAX_DEMAND_KEYS * b + MAX_DEMAND_KEYS }

  lemma KeysOfBatch(b: nat)
    ensures |KeysOf(Batch(b))| == MAX_DEMAND_KEYS
    ensures forall k :: k in KeysOf(Batch(b)) <==> InBatch(b, k)
  {
    var keys := Batch(b);
    DistinctKeysCount(keys);
    KeysAreNamed(keys);
    forall k: nat ensures k in KeysOf(keys) <==> InBatch(b, k) {
      if InBatch(b, k) {
        assert keys[k - 1 - MAX_DEMAND_KEYS * b].key == k;
      }
    }
  }

  lemma ContestAllOf(p: Peer, keys: map<nat, Word>, round: nat, at: nat)
    requires p.contested.Keys !! keys.Keys && |p.contested| + |keys| <= MAX_CONTESTED
    requires at > 0 && forall k :: k in p.contested ==> p.contested[k].heardAt > 0
    ensures var c := Contest(p, keys, round, at).contested;
            && |c| == |p.contested| + |keys| && c.Keys == p.contested.Keys + keys.Keys
            && forall k :: k in c ==> c[k].heardAt > 0
  {
    var c := Merge(p.contested, keys, round, at);
    assert c.Keys == p.contested.Keys + keys.Keys;
    assert |c.Keys| == |c| && |p.contested.Keys| == |p.contested| && |keys.Keys| == |keys|;
  }

  /** Each batch is contested, and none evicted yet. */
  ghost predicate FloodedBy(p: Peer, batches: nat) {
    && p.snapshot == Some(Snapshot(1, [], 5, 0, map[0 := Word(1.0, true)]))
    && |p.contested| == MAX_DEMAND_KEYS * batches
    && forall k :: k in p.contested ==> 0 < k <= MAX_DEMAND_KEYS * batches && p.contested[k].heardAt > 0
  }

  lemma FloodOnce(p: Peer, b: nat)
    requires b < 4 && FloodedBy(p, b)
    ensures FloodedBy(ApplyTo(p, Late(b), b + 1), b + 1)
  {
    KeysOfBatch(b);
    LateIsContested(p, b);
    ContestAllOf(p, KeysOf(Batch(b)), Late(b).round, b + 1);
  }

  lemma LateIsContested(p: Peer, b: nat)
    requires b < 4 && p.snapshot == Some(Snapshot(1, [], 5, 0, map[0 := Word(1.0, true)]))
    ensures ApplyTo(p, Late(b), b + 1) == Contest(p, KeysOf(Batch(b)), Late(b).round, b + 1)
  {
    var r := Late(b);
    assert r.round < 5 && !RoundIsNewer(r.round, 5);
    assert !Takes(p, r) && !Duplicate(p, r);
  }

  lemma {:induction false} FloodFillsTheTable(batches: nat)
    requires batches <= 4
    ensures FloodedBy(Flooded(batches), batches)
  {
    if batches == 0 {
      var keys := [KeyDemand(0, 1.0, true)];
      assert keys[..0] == [] && KeysOf(keys) == map[0 := Word(1.0, true)];
    } else {
      FloodFillsTheTable(batches - 1);
      FloodOnce(Flooded(batches - 1), batches - 1);
    }
  }

  /** Such a table is reached from nothing heard: five reports of one run, the newest
      first, and a restart drops the key the newest named. */
  lemma AFloodThenARestartLosesAKey(now: nat)
    ensures HeardOf(Flooded(4), 0) == Some(Heard(1.0, true, 5, 0))
    ensures HeardOf(ApplyTo(Flooded(4), DemandReport(0, 2, 0, []), now), 0).None?
  {
    FloodFillsTheTable(4);
    RestartAfterAFlood(Flooded(4), DemandReport(0, 2, 0, []), now);
  }

  lemma RestartAfterAFlood(p: Peer, r: DemandReport, now: nat)
    requires FloodedBy(p, 4) && r.epoch == 2 && r.keys == []
    ensures HeardOf(p, 0) == Some(Heard(1.0, true, 5, 0)) && HeardOf(ApplyTo(p, r, now), 0).None?
  {
    assert 0 !in p.contested;
    AFullTableLosesTheOldRun(p, r, now, 0);
  }

  // ---------------------------------------------------------- rounds around the circle

  /** A report on its way, by the round its peer counts without wrapping. */
  datatype Delivery = Delivery(epoch: nat, round: nat, at: nat)

  function Report(d: Delivery, said: (nat, nat) -> seq<KeyDemand>): DemandReport {
    DemandReport(0, d.epoch, d.round % ROUNDS, said(d.epoch, d.round))
  }

  function Run(p: Peer, ds: seq<Delivery>, said: (nat, nat) -> seq<KeyDemand>): Peer {
    if ds == [] then p
    else ApplyTo(Run(p, ds[..|ds| - 1], said), Report(ds[|ds| - 1], said), ds[|ds| - 1].at)
  }

  /** The greatest of `first` and the rounds of `epoch`. */
  function Latest(first: nat, ds: seq<Delivery>, epoch: nat): (r: nat)
    ensures r >= first && forall i :: 0 <= i < |ds| && ds[i].epoch == epoch ==> r >= ds[i].round
    ensures r == first || exists i :: 0 <= i < |ds| && ds[i].epoch == epoch && ds[i].round == r
  {
    if ds == [] then first
    else
      var before, d := Latest(first, ds[..|ds| - 1], epoch), ds[|ds| - 1];
      if d.epoch == epoch && d.round > before then d.round else before
  }

  predicate Near(a: nat, b: nat) { -0x8000 < a - b < 0x8000 }

  /** Serial numbers less than half the circle apart compare as the rounds they
      stand for, half a circle apart neither is newer. */
  lemma SerialNumbersCompare(a: nat, b: nat)
    ensures Near(a, b) ==> (RoundIsNewer(a % ROUNDS, b % ROUNDS) <==> a > b)
    ensures Near(a, b) ==> (a % ROUNDS == b % ROUNDS <==> a == b)
    ensures a - b == 0x8000 ==> !RoundIsNewer(a % ROUNDS, b % ROUNDS) && !RoundIsNewer(b % ROUNDS, a % ROUNDS)
    ensures 0x8000 < a - b < ROUNDS ==> RoundIsNewer(b % ROUNDS, a % ROUNDS)
  {
  }

  ghost predicate AllNear(first: nat, ds: seq<Delivery>, epoch: nat) {
    && (forall i :: 0 <= i < |ds| && ds[i].epoch == epoch ==> Near(first, ds[i].round))
    && (forall i, j :: 0 <= i < |ds| && 0 <= j < |ds| && ds[i].epoch == epoch && ds[j].epoch == epoch ==>
          Near(ds[i].round, ds[j].round))
  }

  ghost predicate Holds(p: Peer, epoch: nat, past: seq<nat>, round: nat, said: (nat, nat) -> seq<KeyDemand>) {
    && p.snapshot.Some? && epoch !in past
    && p.snapshot.value.epoch == epoch && p.snapshot.value.pastEpochs == past
    && p.snapshot.value.round == round % ROUNDS && p.snapshot.value.keys == KeysOf(said(epoch, round))
  }

  lemma TakenIsHeld(p: Peer, d: Delivery, epoch: nat, past: seq<nat>, said: (nat, nat) -> seq<KeyDemand>)
    requires p.snapshot.Some? && p.snapshot.value.epoch == epoch && p.snapshot.value.pastEpochs == past
    requires epoch !in past && d.epoch == epoch && RoundIsNewer(d.round % ROUNDS, p.snapshot.value.round)
    ensures Holds(ApplyTo(p, Report(d, said), d.at), epoch, past, d.round, said)
  {
  }

  lemma UntakenIsKept(p: Peer, d: Delivery, epoch: nat, past: seq<nat>, round: nat, said: (nat, nat) -> seq<KeyDemand>)
    requires Holds(p, epoch, past, round, said)
    requires d.epoch in past || (d.epoch == epoch && !RoundIsNewer(d.round % ROUNDS, round % ROUNDS))
    ensures Holds(ApplyTo(p, Report(d, said), d.at), epoch, past, round, said)
  {
  }

  /** Main result: for every order of delivery and any duplication, among rounds
      less than half a circle apart and reports of past epochs, the snapshot is
      the report of the greatest round of the epoch. */
  lemma {:induction false} SnapshotIsTheLatest(p: Peer, first: nat, ds: seq<Delivery>, epoch: nat, past: seq<nat>,
                                              said: (nat, nat) -> seq<KeyDemand>)
    requires Holds(p, epoch, past, first, said) && AllNear(first, ds, epoch)
    requires forall i :: 0 <= i < |ds| ==> ds[i].epoch == epoch || ds[i].epoch in past
    ensures Holds(Run(p, ds, said), epoch, past, Latest(first, ds, epoch), said)
  {
    if ds != [] {
      var init, d := ds[..|ds| - 1], ds[|ds| - 1];
      SnapshotIsTheLatest(p, first, init, epoch, past, said);
      var latest := Latest(first, init, epoch);
      if d.epoch == epoch {
        assert Near(latest, d.round);
        SerialNumbersCompare(d.round, latest);
      }
      if d.epoch == epoch && d.round > latest {
        TakenIsHeld(Run(p, init, said), d, epoch, past, said);
      } else {
        UntakenIsKept(Run(p, init, said), d, epoch, past, latest, said);
      }
    }
  }

  /** At half a circle apart the order of delivery decides. */
  lemma HalfACircleApartTheFirstStays(p: Peer, a: Delivery, b: Delivery, epoch: nat, past: seq<nat>,
                                      said: (nat, nat) -> seq<KeyDemand>)
    requires Holds(p, epoch, past, a.round, said) && b.epoch == epoch
    requires a.round - b.round == 0x8000 || b.round - a.round == 0x8000
    ensures Holds(ApplyTo(p, Report(b, said), b.at), epoch, past, a.round, said)
  {
    if a.round > b.round {
      SerialNumbersCompare(a.round, b.round);
    } else {
      SerialNumbersCompare(b.round, a.round);
    }
    UntakenIsKept(p, b, epoch, past, a.round, said);
  }

  /** So of two rounds of one circle both orders of delivery keep the greater one if
      and only if they are less than half a circle apart. */
  lemma TheGreaterStaysExactly(p: Peer, q: Peer, a: Delivery, b: Delivery, epoch: nat, past: seq<nat>,
                               said: (nat, nat) -> seq<KeyDemand>)
    requires a.epoch == epoch && b.epoch == epoch && 0 < a.round - b.round < ROUNDS
    requires Holds(p, epoch, past, a.round, said) && Holds(q, epoch, past, b.round, said)
    ensures Holds(ApplyTo(p, Report(b, said), b.at), epoch, past, a.round, said)
            && Holds(ApplyTo(q, Report(a, said), a.at), epoch, past, a.round, said)
            <==> a.round - b.round < 0x8000
  {
    SerialNumbersCompare(a.round, b.round);
    assert a.round % ROUNDS != b.round % ROUNDS;
    if a.round - b.round < 0x8000 {
      TakenIsHeld(q, a, epoch, past, said);
      UntakenIsKept(p, b, epoch, past, a.round, said);
    } else if a.round - b.round == 0x8000 {
      HalfACircleApartTheFirstStays(q, b, a, epoch, past, said);
      HoldsOne(ApplyTo(q, Report(a, said), a.at), epoch, past, b.round, a.round, said);
    } else {
      TakenIsHeld(p, b, epoch, past, said);
      HoldsOne(ApplyTo(p, Report(b, said), b.at), epoch, past, b.round, a.round, said);
    }
  }

  lemma HoldsOne(p: Peer, epoch: nat, past: seq<nat>, x: nat, y: nat, said: (nat, nat) -> seq<KeyDemand>)
    requires Holds(p, epoch, past, x, said) && x % ROUNDS != y % ROUNDS
    ensures !Holds(p, epoch, past, y, said)
  {
  }

  // ------------------------------------------------------------------------- epochs

  /** The epochs snapshots were taken of, each once it replaced another. */
  function Epochs(p: Peer, history: seq<nat>, reports: seq<(DemandReport, nat)>): (Peer, seq<nat>) {
    if reports == [] then (p, history)
    else
      var (before, seen) := Epochs(p, history, reports[..|reports| - 1]);
      var (r, now) := reports[|reports| - 1];
      (ApplyTo(before, r, now), if Takes(before, r) then Followed(seen, r.epoch) else seen)
  }

  /** The current epoch, and the up to four before it, newest first. */
  ghost predicate Remembers(p: Peer, history: seq<nat>) {
    if history == [] then p.snapshot.None?
    else
      var n := |history|;
      && p.snapshot.Some? && p.snapshot.value.epoch == history[n - 1]
      && |p.snapshot.value.pastEpochs| == Min(n - 1, PAST_EPOCHS)
      && forall i :: 0 <= i < |p.snapshot.value.pastEpochs| ==> p.snapshot.value.pastEpochs[i] == history[n - 2 - i]
  }

  function Followed(seen: seq<nat>, epoch: nat): seq<nat> {
    if seen == [] || seen[|seen| - 1] != epoch then seen + [epoch] else seen
  }

  lemma OneMoreEpoch(p: Peer, seen: seq<nat>, r: DemandReport, now: nat)
    requires Remembers(p, seen)
    ensures Takes(p, r) ==> Remembers(ApplyTo(p, r, now), Followed(seen, r.epoch))
    ensures !Takes(p, r) ==> Remembers(ApplyTo(p, r, now), seen)
  {
    if Takes(p, r) {
      var q := ApplyTo(p, r, now);
      assert q.snapshot.value.pastEpochs == PastEpochs(p, r) && q.snapshot.value.epoch == r.epoch;
    }
  }

  lemma {:induction false} EpochsAreRemembered(p: Peer, history: seq<nat>, reports: seq<(DemandReport, nat)>)
    requires Remembers(p, history)
    ensures var (q, seen) := Epochs(p, history, reports); Remembers(q, seen)
  {
    if reports != [] {
      EpochsAreRemembered(p, history, reports[..|reports| - 1]);
      var (before, seen) := Epochs(p, history, reports[..|reports| - 1]);
      var (r, now) := reports[|reports| - 1];
      OneMoreEpoch(before, seen, r, now);
    }
  }

  /** Main result for restarts: of a peer heard without a break, no report of any
      of the four epochs before the current one replaces its snapshot. */
  lemma PastEpochsNeverReturn(reports: seq<(DemandReport, nat)>, r: DemandReport, now: nat, i: nat)
    requires var seen := Epochs(UNHEARD, [], reports).1;
             |seen| - 1 - PAST_EPOCHS <= i < |seen| - 1 && r.epoch == seen[i]
    ensures ApplyTo(Epochs(UNHEARD, [], reports).0, r, now).snapshot == Epochs(UNHEARD, [], reports).0.snapshot
  {
    EpochsAreRemembered(UNHEARD, [], reports);
    var (p, seen) := Epochs(UNHEARD, [], reports);
    assert p.snapshot.value.pastEpochs[|seen| - 2 - i] == seen[i];
  }

  // ------------------------------------------------------------- leaving and expiring

  /** What a peer that left said counts until its hold ends, then no more. */
  lemma HeldUntilTheHoldEnds(peers: Peers, m: nat, now: nat, hold: nat, later: nat, maxAge: nat)
    requires m in peers && hold > 0
    ensures m in ExpireAll(Left(peers, m, now, hold), later, maxAge) <==> later < SatAdd(now, hold)
    ensures later < SatAdd(now, hold) ==>
              forall k: nat :: HeardOf(ExpireAll(Left(peers, m, now, hold), later, maxAge)[m], k)
                  == HeardOf(peers[m], k)
  {
  }

  /** Of any other, nothing older than the stale window counts, and all that is
      younger does. */
  lemma OnlyTheStaleIsDropped(p: Peer, now: nat, maxAge: nat, k: nat)
    requires p.heldUntil.None?
    ensures
      var q := if Expired(p, now, maxAge).Some? then Expired(p, now, maxAge).value else UNHEARD;
      && SnapshotWord(q, k) == (var w := SnapshotWord(p, k); if w.Some?
          && Fresh(w.value.heardAt, now, maxAge) then w else None)
      && ContestedWord(q, k) == (var w := ContestedWord(p, k); if w.Some?
          && Fresh(w.value.heardAt, now, maxAge) then w else None)
  {
  }
}
