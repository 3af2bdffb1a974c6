/** The keys of one node that need coordination (rateguard-core/src/hot_set.rs):
    hot by their own demand (primary) or because a peer says so (secondary).
 */
module HotSet {
  import opened Wrappers
  import opened Orders
  import opened Quotas

  /** A newcomer evicts the weakest key only if it beats it by a tenth. */
  const EVICTION_MARGIN := 1.1

  datatype HotEntry = HotEntry(coolingSince: Option<nat>, demand: real, primary: bool, since: nat)

  type Hot = map<nat, HotEntry>

  datatype Limits = Limits(cooldown: nat, size: nat)

  predicate Weaker(h: Hot, a: nat, b: nat)
    requires a in h && b in h
  {
    h[a].demand < h[b].demand || (h[a].demand == h[b].demand && a <= b)
  }

  function Weakest(h: Hot): (w: nat)
    requires h != map[]
    ensures w in h && forall k :: k in h ==> Weaker(h, w, k)
  {
    assert exists w :: w in h && forall k :: k in h ==> Weaker(h, w, k) by {
      var w := FirstExists(h.Keys, (a: nat, b: nat) => a in h && b in h && Weaker(h, a, b));
    }
    var w :| w in h && forall k :: k in h ==> Weaker(h, w, k);
    w
  }

  predicate Beats(h: Hot, demand: real)
    requires h != map[]
  {
    demand > h[Weakest(h)].demand * EVICTION_MARGIN
  }

  /** Room for one more is made at the weakest's cost, or not at all. */
  function Promoted(h: Hot, size: nat, k: nat, demand: real, primary: bool, now: nat): Hot {
    var entry := HotEntry(None, demand, primary, now);
    if k in h then h[k := entry.(since := h[k].since)]
    else if |h| < size then h[k := entry]
    else if h != map[] && Beats(h, demand) then (h - {Weakest(h)})[k := entry]
    else h
  }

  /** A primary key counts down its cooldown once below the threshold. */
  function CooledEntry(e: HotEntry, cooldown: nat, demand: real, now: nat): HotEntry {
    if !e.primary then e.(demand := demand)
    else match e.coolingSince
      case None => e.(demand := demand, coolingSince := Some(now))
      case Some(since) =>
        if SatSub(now, since) >= cooldown then HotEntry(None, demand, false, e.since)
        else e.(demand := demand)
  }

  function Cooled(h: Hot, cooldown: nat, k: nat, demand: real, now: nat): Hot {
    if k in h then h[k := CooledEntry(h[k], cooldown, demand, now)] else h
  }

  /** One key's demand of one tick. */
  datatype Feed = Feed(demand: real, threshold: real, now: nat, hotElsewhere: bool)

  function Updated(h: Hot, l: Limits, k: nat, f: Feed): Hot {
    if f.demand > f.threshold then Promoted(h, l.size, k, f.demand, true, f.now)
    else
      var cooled := Cooled(h, l.cooldown, k, f.demand, f.now);
      if k in cooled then
        if cooled[k].primary || f.hotElsewhere then cooled else cooled - {k}
      else if f.hotElsewhere then Promoted(cooled, l.size, k, f.demand, false, f.now)
      else cooled
  }

  class HotSet {
    const limits: Limits
    var hot: Hot

    predicate Valid()
      reads this
    {
      limits.size > 0 && |hot| <= limits.size
    }

    constructor (limits: Limits)
      requires limits.size > 0
      ensures Valid() && hot == map[] && this.limits == limits
    {
      this.limits, hot := limits, map[];
    }

    /** Whether the key is hot afterwards. */
    method UpdateWith(k: nat, f: Feed) returns (isHot: bool)
      requires Valid()
      modifies this
      ensures Valid() && hot == Updated(old(hot), limits, k, f) && isHot == (k in hot)
    {
      UpdateStaysInSize(hot, limits, k, f);
      if f.demand > f.threshold {
        isHot := Promote(k, f.demand, true, f.now);
        return;
      }
      Cool(k, f.demand, f.now);
      if k in hot {
        if hot[k].primary || f.hotElsewhere {
          return true;
        }
        hot := hot - {k};
        return false;
      }
      isHot := false;
      if f.hotElsewhere {
        isHot := Promote(k, f.demand, false, f.now);
      }
    }

    method Promote(k: nat, demand: real, primary: bool, now: nat) returns (isHot: bool)
      requires limits.size > 0
      modifies this
      ensures hot == Promoted(old(hot), limits.size, k, demand, primary, now) && isHot == (k in hot)
    {
      if k in hot {
        hot := hot[k := HotEntry(None, demand, primary, hot[k].since)];
        return true;
      }
      if |hot| < limits.size {
        hot := hot[k := HotEntry(None, demand, primary, now)];
        return true;
      }
      var weakest := Weakest(hot);
      if demand > hot[weakest].demand * EVICTION_MARGIN {
        hot := hot - {weakest};
        hot := hot[k := HotEntry(None, demand, primary, now)];
        return true;
      }
      return false;
    }

    method Cool(k: nat, demand: real, now: nat)
      modifies this
      ensures hot == Cooled(old(hot), limits.cooldown, k, demand, now)
    {
      if k !in hot {
        return;
      }
      hot := hot[k := hot[k].(demand := demand)];
      if !hot[k].primary {
        return;
      }
      var expired := false;
      match hot[k].coolingSince {
        case None => hot := hot[k := hot[k].(coolingSince := Some(now))];
        case Some(since) => expired := SatSub(now, since) >= limits.cooldown;
      }
      if expired {
        hot := hot[k := hot[k].(primary := false, coolingSince := None)];
      }
    }
  }

  // -------------------------------------------------------------------- what changes

  lemma OneIn(h: Hot, k: nat, e: HotEntry)
    ensures |h[k := e]| == |h| + (if k in h then 0 else 1)
  {
    assert h[k := e].Keys == h.Keys + {k};
    assert |h[k := e].Keys| == |h[k := e]| && |h.Keys| == |h|;
  }

  lemma OneOut(h: Hot, k: nat)
    requires k in h
    ensures |h - {k}| == |h| - 1
  {
    assert (h - {k}).Keys == h.Keys - {k};
    assert |(h - {k}).Keys| == |h - {k}| && |h.Keys| == |h|;
  }

  lemma PromotionStaysInSize(h: Hot, size: nat, k: nat, demand: real, primary: bool, now: nat)
    requires |h| <= size && size > 0
    ensures |Promoted(h, size, k, demand, primary, now)| <= size
  {
    var entry := HotEntry(None, demand, primary, if k in h then h[k].since else now);
    OneIn(h, k, entry);
    if k !in h && h != map[] {
      OneOut(h, Weakest(h));
      OneIn(h - {Weakest(h)}, k, entry);
    }
  }

  lemma UpdateStaysInSize(h: Hot, l: Limits, k: nat, f: Feed)
    requires |h| <= l.size && l.size > 0
    ensures |Updated(h, l, k, f)| <= l.size
  {
    var cooled := Cooled(h, l.cooldown, k, f.demand, f.now);
    if k in h {
      OneIn(h, k, cooled[k]);
      OneOut(cooled, k);
    }
    PromotionStaysInSize(h, l.size, k, f.demand, true, f.now);
    PromotionStaysInSize(cooled, l.size, k, f.demand, false, f.now);
  }

  /** Another key is touched by one update only to be evicted: as the weakest of
      a full set, and by a newcomer more than a tenth busier. */
  lemma OthersOnlyMakeRoom(h: Hot, l: Limits, k: nat, f: Feed, j: nat)
    requires j != k
    ensures j in Updated(h, l, k, f) ==> j in h && Updated(h, l, k, f)[j] == h[j]
    ensures j in h && j !in Updated(h, l, k, f) ==>
              && k !in h && |h| >= l.size && j == Weakest(h) && f.demand > h[j].demand * EVICTION_MARGIN
              && k in Updated(h, l, k, f)
  {
    if k !in h {
      assert Cooled(h, l.cooldown, k, f.demand, f.now) == h;
    }
  }

  /** A primary key below the threshold still counts as one until its cooldown is over. */
  predicate StillPrimary(e: HotEntry, l: Limits, now: nat) {
    e.primary && (e.coolingSince.None? || SatSub(now, e.coolingSince.value) < l.cooldown)
  }

  /** When a key that is not hot, or cools, is hot after its update, and whether
      by its own demand. */
  lemma WhoIsHot(h: Hot, l: Limits, k: nat, f: Feed)
    requires |h| <= l.size && l.size > 0
    ensures k in Updated(h, l, k, f) <==>
              || (k in h && (f.demand > f.threshold || f.hotElsewhere || StillPrimary(h[k], l, f.now)))
              || (k !in h && (f.demand > f.threshold || f.hotElsewhere) && (|h| < l.size || Beats(h, f.demand)))
    ensures k in Updated(h, l, k, f) ==>
              (Updated(h, l, k, f)[k].primary <==>
                 f.demand > f.threshold || (k in h && StillPrimary(h[k], l, f.now)))
  {
  }

  /** What is kept of a hot key: the demand just fed, the moment it came in, and when it began
      to cool: never while it has the demand itself, else from the first time it has not. */
  lemma WhatIsKept(h: Hot, l: Limits, k: nat, f: Feed)
    requires k in Updated(h, l, k, f)
    ensures var e := Updated(h, l, k, f)[k];
            && e.demand == f.demand && e.since == (if k in h then h[k].since else f.now)
            && (e.coolingSince.Some? && k !in h ==> false)
            && (f.demand > f.threshold ==> e.coolingSince.None?)
            && (k in h && f.demand <= f.threshold && e.primary ==>
                  e.coolingSince == if h[k].coolingSince.Some? then h[k].coolingSince else Some(f.now))
  {
  }

  // ---------------------------------------------------------------------------- runs

  datatype Fed = Fed(key: nat, feed: Feed)

  /** From any set, whatever is fed of whichever keys. */
  ghost predicate Run(l: Limits, trace: seq<Hot>, ups: seq<Fed>) {
    && l.size > 0 && |trace| == |ups| + 1 && |trace[0]| <= l.size
    && forall i, j :: 0 <= i < j < |trace| && j == i + 1 ==> trace[j] == Updated(trace[i], l, ups[i].key, ups[i].feed)
  }

  predicate Above(u: Fed, k: nat) { u.key == k && u.feed.demand > u.feed.threshold }

  /** After update `j` found the key busy none did up to `i`, the first of it being `b`, and no
      busier key took its place. */
  ghost predicate CoolingFrom(trace: seq<Hot>, ups: seq<Fed>, k: nat, j: nat, b: nat, i: nat) {
    && j < b < i < |trace| == |ups| + 1 && Above(ups[j], k) && k in trace[j + 1] && ups[b].key == k
    && (forall u :: j < u < i && ups[u].key == k ==> b <= u && !Above(ups[u], k))
    && (forall u, v :: j < u < v <= i && v == u + 1 && ups[u].key != k ==> k in trace[v])
  }

  predicate WithinCooldown(l: Limits, ups: seq<Fed>, k: nat, b: nat, i: nat)
    requires b < i <= |ups|
  {
    forall u :: b < u < i && ups[u].key == k ==> SatSub(ups[u].feed.now, ups[b].feed.now) < l.cooldown
  }

  lemma OtherUpdatesKeep(l: Limits, trace: seq<Hot>, ups: seq<Fed>, k: nat, u: nat)
    requires Run(l, trace, ups) && u < |ups| && ups[u].key != k && k in trace[u + 1]
    ensures k in trace[u] && trace[u + 1][k] == trace[u][k]
  {
    assert trace[u + 1] == Updated(trace[u], l, ups[u].key, ups[u].feed);
    OthersOnlyMakeRoom(trace[u], l, ups[u].key, ups[u].feed, k);
  }

  /** Busy, and not fed since: nothing has begun to cool. */
  lemma {:induction false} NotYetCooling(l: Limits, trace: seq<Hot>, ups: seq<Fed>, k: nat, j: nat, b: nat, i: nat,
                                         n: nat)
    requires Run(l, trace, ups) && CoolingFrom(trace, ups, k, j, b, i) && j < n <= b
    ensures k in trace[n] && trace[n][k].primary && trace[n][k].coolingSince.None?
  {
    assert trace[n] == Updated(trace[n - 1], l, ups[n - 1].key, ups[n - 1].feed);
    if n > j + 1 {
      NotYetCooling(l, trace, ups, k, j, b, i, n - 1);
      OtherUpdatesKeep(l, trace, ups, k, n - 1);
    }
  }

  /** Main result for the cooldown: a key busy once stays primary until one is over that runs
      from the first update that finds it below its threshold. */
  lemma {:induction false} PrimaryForItsCooldown(l: Limits, trace: seq<Hot>, ups: seq<Fed>, k: nat, j: nat, b: nat,
                                                 i: nat)
    requires Run(l, trace, ups) && CoolingFrom(trace, ups, k, j, b, i) && WithinCooldown(l, ups, k, b, i)
    ensures k in trace[i] && trace[i][k].primary && trace[i][k].coolingSince == Some(ups[b].feed.now)
    decreases i
  {
    if i - 1 == b {
      NotYetCooling(l, trace, ups, k, j, b, i, b);
      CoolsOn(l, trace, ups, k, b, ups[b].feed.now);
    } else {
      PrimaryForItsCooldown(l, trace, ups, k, j, b, i - 1);
      if ups[i - 1].key != k {
        OtherUpdatesKeep(l, trace, ups, k, i - 1);
      } else {
        CoolsOn(l, trace, ups, k, i - 1, ups[b].feed.now);
      }
    }
  }

  lemma CoolsOn(l: Limits, trace: seq<Hot>, ups: seq<Fed>, k: nat, u: nat, start: nat)
    requires Run(l, trace, ups) && u < |ups| && ups[u].key == k && !Above(ups[u], k) && k in trace[u]
    requires trace[u][k].primary
    requires || (trace[u][k].coolingSince == Some(start) && SatSub(ups[u].feed.now, start) < l.cooldown)
             || (trace[u][k].coolingSince.None? && start == ups[u].feed.now)
    ensures k in trace[u + 1] && trace[u + 1][k].primary && trace[u + 1][k].coolingSince == Some(start)
  {
    assert trace[u + 1] == Updated(trace[u], l, ups[u].key, ups[u].feed);
  }

  /** And the first update after that takes it back: it stays at most as a peer's. */
  lemma PrimaryNoLonger(l: Limits, trace: seq<Hot>, ups: seq<Fed>, k: nat, j: nat, b: nat, i: nat)
    requires Run(l, trace, ups) && CoolingFrom(trace, ups, k, j, b, i) && WithinCooldown(l, ups, k, b, i)
    requires i < |ups| && ups[i].key == k && !Above(ups[i], k)
    requires SatSub(ups[i].feed.now, ups[b].feed.now) >= l.cooldown
    ensures k in trace[i + 1] <==> ups[i].feed.hotElsewhere
    ensures k in trace[i + 1] ==> !trace[i + 1][k].primary
  {
    PrimaryForItsCooldown(l, trace, ups, k, j, b, i);
    assert trace[i + 1] == Updated(trace[i], l, ups[i].key, ups[i].feed);
  }
}
