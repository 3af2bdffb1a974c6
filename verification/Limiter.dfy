/** Enforcement on one node: a GCRA per key on a share of the key's limit, and
    one tick a period that does everything else (rateguard-core/src/limiter.rs).
    A key's demand is whatever each tick measures.
 */
module Limiter {
  import opened Wrappers
  import opened Orders
  import opened Quotas
  import Gcra
  import AtomicGcra
  import HotSet
  import Member

  const SILENT_DEMAND := 0.001

  datatype Limit = Limit(rate: real, burst: nat) {
    predicate Valid() { rate > 0.0 && 0 < burst <= MAX_BURST }
  }

  datatype Demand = Demand(rate: real, unbiased: real, attempts: nat)

  datatype KeyState = KeyState(limit: Limit, demand: Demand, gcra: Gcra.State, applied: Quota) {
    predicate Valid() { limit.Valid() && gcra.Valid() && gcra.quota == applied }
  }

  type Keys = map<nat, KeyState>

  datatype Config = Config(alpha: real, beta: real, hot: HotSet.Limits, maxTracked: nat) {
    predicate Valid() {
      0.0 < alpha <= 1.0 && 0.0 <= beta <= 1.0 && 0 < hot.size <= maxTracked
    }
  }

  /** What a tick is given: the time, the cluster's size, each key's demand with
      this interval folded in, and what the peers say of it. */
  datatype Tick = Tick(now: nat, n: nat, folded: nat -> Demand, elsewhere: nat -> bool, share: (nat, real,
                       real) -> real)

  function CapRate(limit: Limit, cap: real): real { limit.rate * cap }

  /** No rate over `cap` times the limit, if there is a cap. */
  function Capped(rate: real, limit: Limit, cap: Option<real>): real {
    if cap.Some? then MinReal(rate, CapRate(limit, cap.value)) else rate
  }

  function ColdRate(limit: Limit, alpha: real, n: nat): real
    requires n > 0
  {
    limit.rate / n as real * alpha
  }

  function FloorRate(limit: Limit, beta: real, n: nat): real
    requires n > 0
  {
    limit.rate * beta / n as real
  }

  /** A part of R. */
  function NewKeyFactor(c: Config, cap: Option<real>, n: nat): real
    requires n > 0
  {
    if cap.Some? then MinReal(c.alpha / n as real, cap.value) else c.alpha / n as real
  }

  function NewKeyRate(c: Config, cap: Option<real>, limit: Limit, n: nat): real
    requires n > 0
  {
    limit.rate * NewKeyFactor(c, cap, n)
  }

  function ColdQuota(c: Config, cap: Option<real>, limit: Limit, n: nat): Quota
    requires n > 0 && limit.Valid()
  {
    PerSecond(NewKeyRate(c, cap, limit, n), limit.burst)
  }

  /** What the cluster holds hot and the node hears of, while there is any demand. */
  predicate HeardHot(t: Tick, k: nat) {
    t.folded(k).rate >= SILENT_DEMAND && t.elsewhere(k)
  }

  function Wanted(c: Config, cap: Option<real>, t: Tick, k: nat, limit: Limit, isHot: bool): real
    requires t.n > 0
  {
    if isHot then Capped(t.share(k, t.folded(k).rate, limit.rate), limit, cap)
    else if HeardHot(t, k) then
      Capped(MinReal(FloorRate(limit, c.beta, t.n), ColdRate(limit, c.alpha, t.n)), limit, cap)
    else Capped(ColdRate(limit, c.alpha, t.n), limit, cap)
  }

  // ----------------------------------------------------------------------- the passes

  function FeedOf(c: Config, t: Tick, k: nat, limit: Limit): HotSet.Feed
    requires t.n > 0
  {
    HotSet.Feed(t.folded(k).rate, ColdRate(limit, c.alpha, t.n), t.now, HeardHot(t, k))
  }

  /** Nothing is lost with it: no debt, no demand, no attempt waiting. */
  predicate Idle(t: Tick, k: nat, s: KeyState) {
    !s.gcra.HasDebt(t.now) && t.folded(k).rate < SILENT_DEMAND && t.folded(k).attempts == 0
  }

  function Visit(c: Config, t: Tick, keys: Keys, hot: HotSet.Hot, k: nat): (Keys, HotSet.Hot)
    requires t.n > 0
  {
    if k !in keys then (keys, hot)
    else
      var updated := HotSet.Updated(hot, c.hot, k, FeedOf(c, t, k, keys[k].limit));
      (if k in updated || !Idle(t, k, keys[k]) then keys[k := keys[k].(demand := t.folded(k))] else keys - {k}, updated)
  }

  /** The keys in any order, each once. */
  predicate OrderOf(order: seq<nat>, keys: Keys) {
    Member.Distinct(order) && Member.Elements(order) == keys.Keys
  }

  lemma OrderIsOfKeys(order: seq<nat>, keys: Keys)
    requires OrderOf(order, keys)
    ensures forall i :: 0 <= i < |order| ==> order[i] in keys
  {
    forall i | 0 <= i < |order| ensures order[i] in keys {
      assert order[i] in Member.Elements(order);
    }
  }

  function FirstPass(c: Config, t: Tick, keys: Keys, hot: HotSet.Hot, order: seq<nat>): (Keys, HotSet.Hot)
    requires t.n > 0
  {
    if order == [] then (keys, hot)
    else
      var (before, warm) := FirstPass(c, t, keys, hot, order[..|order| - 1]);
      Visit(c, t, before, warm, order[|order| - 1])
  }

  lemma {:induction false} FirstPassKeepsValid(c: Config, t: Tick, keys: Keys, hot: HotSet.Hot, order: seq<nat>)
    requires t.n > 0 && AllValid(keys)
    ensures AllValid(FirstPass(c, t, keys, hot, order).0)
  {
    if order != [] {
      FirstPassKeepsValid(c, t, keys, hot, order[..|order| - 1]);
    }
  }

  /** A key still to come is as it was. */
  lemma {:induction false} StillToCome(c: Config, t: Tick, keys: Keys, hot: HotSet.Hot, order: seq<nat>, k: nat)
    requires t.n > 0 && k !in order
    ensures var kept := FirstPass(c, t, keys, hot, order).0;
            (k in kept <==> k in keys) && (k in keys ==> kept[k] == keys[k])
  {
    if order != [] {
      StillToCome(c, t, keys, hot, order[..|order| - 1], k);
    }
  }

  lemma VisitOnce(c: Config, t: Tick, keys: Keys, hot: HotSet.Hot, order: seq<nat>, i: nat)
    requires t.n > 0 && OrderOf(order, keys) && i < |order|
    ensures order[i] in FirstPass(c, t, keys, hot, order[..i]).0
  {
    OrderIsOfKeys(order, keys);
    assert order[i] !in order[..i];
    StillToCome(c, t, keys, hot, order[..i], order[i]);
  }

  function Requoted(s: KeyState, q: Quota, now: nat): KeyState
    requires s.gcra.Valid() && InRange(q)
  {
    if s.applied == q then s else s.(gcra := s.gcra.SetQuota(q, now), applied := q)
  }

  function WantedQuota(c: Config, cap: Option<real>, t: Tick, k: nat, limit: Limit, isHot: bool): (q: Quota)
    requires t.n > 0 && limit.Valid()
    ensures InRange(q)
  {
    PerSecondErrsStrict(Wanted(c, cap, t, k, limit, isHot), limit.burst);
    PerSecond(Wanted(c, cap, t, k, limit, isHot), limit.burst)
  }

  ghost predicate AllValid(keys: Keys) {
    forall k :: k in keys ==> keys[k].Valid()
  }

  function SecondPass(c: Config, cap: Option<real>, t: Tick, keys: Keys, hot: HotSet.Hot): Keys
    requires t.n > 0 && AllValid(keys)
  {
    map k | k in keys :: Requoted(keys[k], WantedQuota(c, cap, t, k, keys[k].limit, k in hot), t.now)
  }

  // -------------------------------------------------------------------------- the cap

  predicate LessDemanded(keys: Keys, a: nat, b: nat)
    requires a in keys && b in keys
  {
    keys[a].demand.unbiased < keys[b].demand.unbiased
    || (keys[a].demand.unbiased == keys[b].demand.unbiased && a <= b)
  }

  function LeastDemanded(keys: Keys, s: set<nat>): (f: nat)
    requires s != {} && s <= keys.Keys
    ensures f in s && forall k :: k in s ==> LessDemanded(keys, f, k)
  {
    assert exists f :: f in s && forall k :: k in s ==> LessDemanded(keys, f, k) by {
      var f := FirstExists(s, (a: nat, b: nat) => a in keys && b in keys && LessDemanded(keys, a, b));
    }
    var f :| f in s && forall k :: k in s ==> LessDemanded(keys, f, k);
    f
  }

  /** In the order of demand. */
  function ByDemand(keys: Keys, s: set<nat>): (r: seq<nat>)
    requires s <= keys.Keys
    ensures |r| == |s| && Member.Elements(r) == s
    decreases |s|
  {
    if s == {} then []
    else
      var f := LeastDemanded(keys, s);
      var rest := ByDemand(keys, s - {f});
      Member.ElementsOfCons(f, rest);
      [f] + rest
  }

  lemma {:induction false} ByDemandIsSorted(keys: Keys, s: set<nat>, i: nat, j: nat)
    requires s <= keys.Keys && i < j < |s|
    ensures var r := ByDemand(keys, s); r[i] in s && r[j] in s && r[i] != r[j] && LessDemanded(keys, r[i], r[j])
    decreases |s|
  {
    var r, f := ByDemand(keys, s), LeastDemanded(keys, s);
    var rest := ByDemand(keys, s - {f});
    assert rest[j - 1] in Member.Elements(rest) && r[j] == rest[j - 1];
    if i > 0 {
      ByDemandIsSorted(keys, s - {f}, i - 1, j - 1);
    }
  }

  lemma ByDemandIsDistinct(keys: Keys, s: set<nat>)
    requires s <= keys.Keys
    ensures Member.Distinct(ByDemand(keys, s))
  {
    var r := ByDemand(keys, s);
    forall i, j | 0 <= i < j < |r| ensures r[i] != r[j] {
      ByDemandIsSorted(keys, s, i, j);
    }
  }

  function Cold(keys: Keys, hot: HotSet.Hot): set<nat> { keys.Keys - hot.Keys }

  /** The least demanded of the cold, as many as are over the cap. */
  function Victims(keys: Keys, hot: HotSet.Hot, max: nat): seq<nat> {
    if |keys| <= max then []
    else
      var ranked := ByDemand(keys, Cold(keys, hot));
      ranked[..Min(|keys| - max, |ranked|)]
  }

  function Without(keys: Keys, gone: seq<nat>): Keys {
    if gone == [] then keys else Without(keys, gone[..|gone| - 1]) - {gone[|gone| - 1]}
  }

  function UnderCap(keys: Keys, hot: HotSet.Hot, max: nat): Keys {
    Without(keys, Victims(keys, hot, max))
  }

  // ------------------------------------------------------------------------ the limiter

  datatype State = State(keys: Keys, hot: HotSet.Hot, cap: Option<real>)

  function Ticked(c: Config, s: State, t: Tick, order: seq<nat>): State
    requires t.n > 0 && OrderOf(order, s.keys) && AllValid(s.keys)
  {
    FirstPassKeepsValid(c, t, s.keys, s.hot, order);
    var (kept, hot) := FirstPass(c, t, s.keys, s.hot, order);
    var quoted := SecondPass(c, s.cap, t, kept, hot);
    State(UnderCap(quoted, hot, c.maxTracked), hot, s.cap)
  }

  function Entered(c: Config, s: State, k: nat, limit: Limit, n: nat): State
    requires n > 0 && limit.Valid()
  {
    var cold := ColdQuota(c, s.cap, limit, n);
    var known := if k in s.keys then s.keys[k] else KeyState(limit, Demand(0.0, 0.0, 0), Gcra.Fresh(cold), cold);
    s.(keys := s.keys[k := known.(limit := limit)])
  }

  /** One request more. */
  function Checked(c: Config, s: State, k: nat, limit: Limit, now: nat, n: nat): (r: (Gcra.Decision, State))
    requires n > 0 && limit.Valid() && AllValid(s.keys)
  {
    EnteredIsValid(c, s, k, limit, n);
    var entered := Entered(c, s, k, limit, n);
    var known := entered.keys[k];
    var (decision, gcra) := known.gcra.Check(now);
    (decision, entered.(keys := entered.keys[k := known.(demand := OneMore(known.demand, 1), gcra := gcra)]))
  }

  /** So many requests enforced elsewhere. */
  function Recorded(c: Config, s: State, k: nat, limit: Limit, attempts: nat, n: nat): State
    requires n > 0 && limit.Valid() && AllValid(s.keys)
  {
    var entered := Entered(c, s, k, limit, n);
    entered.(keys := entered.keys[k := entered.keys[k].(demand := OneMore(entered.keys[k].demand, attempts))])
  }

  function OneMore(d: Demand, attempts: nat): Demand { d.(attempts := d.attempts + attempts) }

  lemma EnteredIsValid(c: Config, s: State, k: nat, limit: Limit, n: nat)
    requires n > 0 && limit.Valid() && AllValid(s.keys)
    ensures AllValid(Entered(c, s, k, limit, n).keys)
  {
    PerSecondErrsStrict(NewKeyRate(c, s.cap, limit, n), limit.burst);
  }

  /** Hot keys are tracked, and no more than there is room for. */
  ghost predicate Inv(c: Config, s: State) {
    c.Valid() && s.hot.Keys <= s.keys.Keys && |s.hot| <= c.hot.size && AllValid(s.keys)
  }

  class Limiter {
    const config: Config
    const hotSet: HotSet.HotSet
    var keys: Keys
    var cap: Option<real>

    function Abs(): State
      reads this, hotSet
    {
      State(keys, hotSet.hot, cap)
    }

    ghost predicate Valid()
      reads this, hotSet
    {
      hotSet.limits == config.hot && Inv(config, Abs())
    }

    constructor (config: Config)
      requires config.Valid()
      ensures Valid() && fresh(hotSet) && Abs() == State(map[], map[], None) && this.config == config
    {
      this.config := config;
      hotSet := new HotSet.HotSet(config.hot);
      keys, cap := map[], None;
    }

    method SetCap(cap: Option<real>)
      requires Valid()
      modifies this`cap
      ensures Valid() && Abs() == old(Abs()).(cap := cap)
    {
      this.cap := cap;
    }

    method Entry(k: nat, limit: Limit, n: nat)
      requires Valid() && n > 0 && limit.Valid()
      modifies this`keys
      ensures Valid() && Abs() == Entered(config, old(Abs()), k, limit, n) && k in keys
    {
      EnteredIsValid(config, Abs(), k, limit, n);
      if k !in keys {
        var cold := ColdQuota(config, cap, limit, n);
        keys := keys[k := KeyState(limit, Demand(0.0, 0.0, 0), Gcra.Fresh(cold), cold)];
      }
      keys := keys[k := keys[k].(limit := limit)];
    }

    method CheckIn(k: nat, limit: Limit, now: nat, n: nat) returns (d: Gcra.Decision)
      requires Valid() && n > 0 && limit.Valid()
      modifies this`keys
      ensures Valid() && (d, Abs()) == Checked(config, old(Abs()), k, limit, now, n)
    {
      Entry(k, limit, n);
      var s := keys[k];
      var (decision, gcra) := s.gcra.Check(now);
      keys := keys[k := s.(demand := OneMore(s.demand, 1), gcra := gcra)];
      d := decision;
    }

    method Record(k: nat, limit: Limit, attempts: nat, n: nat)
      requires Valid() && n > 0 && limit.Valid()
      modifies this`keys
      ensures Valid() && Abs() == Recorded(config, old(Abs()), k, limit, attempts, n)
    {
      Entry(k, limit, n);
      keys := keys[k := keys[k].(demand := OneMore(keys[k].demand, attempts))];
    }

    method TickWithShares(t: Tick, order: seq<nat>)
      requires Valid() && t.n > 0 && OrderOf(order, keys)
      modifies this`keys, hotSet
      ensures Valid() && Abs() == Ticked(config, old(Abs()), t, order)
    {
      ghost var was := Abs();
      FirstPassKeepsValid(config, t, keys, hotSet.hot, order);
      UpdateHotSet(t, order);
      Requote(t);
      EnforceCap();
      assert Abs() == Ticked(config, was, t, order);
      TickKeepsInv(config, was, t, order);
    }

    /** The first pass. */
    method UpdateHotSet(t: Tick, order: seq<nat>)
      requires hotSet.Valid() && hotSet.limits == config.hot && t.n > 0 && OrderOf(order, keys)
      modifies this`keys, hotSet
      ensures hotSet.Valid()
      ensures (keys, hotSet.hot) == FirstPass(config, t, old(keys), old(hotSet.hot), order)
    {
      var i := 0;
      while i < |order|
        invariant i <= |order| && hotSet.Valid()
        invariant (keys, hotSet.hot) == FirstPass(config, t, old(keys), old(hotSet.hot), order[..i])
      {
        var k := order[i];
        assert order[..i + 1][..i] == order[..i];
        VisitOnce(config, t, old(keys), old(hotSet.hot), order, i);
        var s := keys[k];
        var isHot := hotSet.UpdateWith(k, FeedOf(config, t, k, s.limit));
        if isHot || !Idle(t, k, s) {
          keys := keys[k := s.(demand := t.folded(k))];
        } else {
          keys := keys - {k};
        }
        i := i + 1;
      }
      assert order[..i] == order;
    }

    /** The second, once the hot set is settled. */
    method Requote(t: Tick)
      requires t.n > 0 && AllValid(keys)
      modifies this`keys
      ensures keys == SecondPass(config, cap, t, old(keys), hotSet.hot)
    {
      var left := keys.Keys;
      while left != {}
        invariant left <= keys.Keys && keys.Keys == old(keys.Keys)
        invariant forall k :: k in left ==> keys[k] == old(keys)[k]
        invariant forall k :: k in keys && k !in left ==>
                    keys[k] == Requoted(old(keys)[k], WantedQuota(config, cap, t, k, old(keys)[k].limit,
                        k in hotSet.hot), t.now)
      {
        var k :| k in left;
        var s := keys[k];
        assert s.Valid();
        var wanted := WantedQuota(config, cap, t, k, s.limit, k in hotSet.hot);
        if s.applied != wanted {
          keys := keys[k := s.(gcra := s.gcra.SetQuota(wanted, t.now), applied := wanted)];
        }
        left := left - {k};
      }
    }

    method EnforceCap()
      modifies this`keys
      ensures keys == UnderCap(old(keys), hotSet.hot, config.maxTracked)
    {
      if |keys| <= config.maxTracked {
        return;
      }
      var excess := |keys| - config.maxTracked;
      var ranked := ByDemand(keys, Cold(keys, hotSet.hot));
      Drop(ranked[..Min(excess, |ranked|)]);
    }

    method Drop(gone: seq<nat>)
      modifies this`keys
      ensures keys == Without(old(keys), gone)
    {
      var i := 0;
      while i < |gone|
        invariant i <= |gone| && keys == Without(old(keys), gone[..i])
      {
        assert gone[..i + 1][..i] == gone[..i];
        keys := keys - {gone[i]};
        i := i + 1;
      }
      assert gone[..i] == gone;
    }
  }

  // ------------------------------------------------------------------- what a tick keeps

  lemma VisitDropsTheIdle(c: Config, t: Tick, keys: Keys, hot: HotSet.Hot, k: nat)
    requires t.n > 0 && k in keys && hot.Keys <= keys.Keys && |hot| <= c.hot.size && c.Valid()
    ensures var (kept, warm) := Visit(c, t, keys, hot, k);
            && warm.Keys <= kept.Keys && |warm| <= c.hot.size
            && (k in kept ==> kept[k] == keys[k].(demand := t.folded(k)))
            && (k !in kept ==> Idle(t, k, keys[k]))
            && (forall j :: j != k ==> (j in kept <==> j in keys) && (j in keys ==> kept[j] == keys[j]))
  {
    var f := FeedOf(c, t, k, keys[k].limit);
    HotSet.UpdateStaysInSize(hot, c.hot, k, f);
    forall j | j in HotSet.Updated(hot, c.hot, k, f) && j != k ensures j in hot {
      HotSet.OthersOnlyMakeRoom(hot, c.hot, k, f, j);
    }
  }

  /** Part of the first pass: of the keys come to, the idle that are not hot are
      gone and the rest keep all but their demand; no key in the hot set is lost. */
  ghost predicate PassedOver(c: Config, t: Tick, keys: Keys, seen: seq<nat>, kept: Keys, warm: HotSet.Hot) {
    && warm.Keys <= kept.Keys && |warm| <= c.hot.size
    && (forall k :: k in kept ==> k in keys)
    && (forall k :: k in kept && k in seen ==> kept[k] == keys[k].(demand := t.folded(k)))
    && (forall k :: k in keys && k !in seen ==> k in kept && kept[k] == keys[k])
    && (forall k :: k in keys && k !in kept ==> Idle(t, k, keys[k]))
  }

  lemma VisitPassesOver(c: Config, t: Tick, keys: Keys, seen: seq<nat>, kept: Keys, warm: HotSet.Hot, k: nat)
    requires c.Valid() && t.n > 0 && PassedOver(c, t, keys, seen, kept, warm) && k in keys && k !in seen
    ensures var (after, hot) := Visit(c, t, kept, warm, k); PassedOver(c, t, keys, seen + [k], after, hot)
  {
    VisitDropsTheIdle(c, t, kept, warm, k);
  }

  lemma {:induction false} FirstPassDropsTheIdle(c: Config, t: Tick, keys: Keys, hot: HotSet.Hot, order: seq<nat>)
    requires t.n > 0 && Member.Distinct(order) && forall i :: 0 <= i < |order| ==> order[i] in keys
    requires hot.Keys <= keys.Keys && |hot| <= c.hot.size && c.Valid()
    ensures var (kept, warm) := FirstPass(c, t, keys, hot, order); PassedOver(c, t, keys, order, kept, warm)
  {
    if order != [] {
      var n := |order| - 1;
      FirstPassDropsTheIdle(c, t, keys, hot, order[..n]);
      var (before, warm) := FirstPass(c, t, keys, hot, order[..n]);
      assert order[n] !in order[..n] && order == order[..n] + [order[n]];
      VisitPassesOver(c, t, keys, order[..n], before, warm, order[n]);
    }
  }

  lemma QuotedIsValid(c: Config, cap: Option<real>, t: Tick, keys: Keys, hot: HotSet.Hot)
    requires t.n > 0 && AllValid(keys)
    ensures AllValid(SecondPass(c, cap, t, keys, hot)) && SecondPass(c, cap, t, keys, hot).Keys == keys.Keys
  {
  }

  lemma UnderCapKeepsValid(keys: Keys, hot: HotSet.Hot, max: nat)
    requires AllValid(keys) && hot.Keys <= keys.Keys && |hot| <= max
    ensures AllValid(UnderCap(keys, hot, max))
  {
    UnderCapKeepsTheHot(keys, hot, max);
  }

  lemma TickKeepsInv(c: Config, s: State, t: Tick, order: seq<nat>)
    requires Inv(c, s) && t.n > 0 && OrderOf(order, s.keys)
    ensures Inv(c, Ticked(c, s, t, order))
    ensures |Ticked(c, s, t, order).keys| <= c.maxTracked
  {
    OrderIsOfKeys(order, s.keys);
    FirstPassKeepsValid(c, t, s.keys, s.hot, order);
    FirstPassDropsTheIdle(c, t, s.keys, s.hot, order);
    var (kept, hot) := FirstPass(c, t, s.keys, s.hot, order);
    QuotedIsValid(c, s.cap, t, kept, hot);
    var quoted := SecondPass(c, s.cap, t, kept, hot);
    UnderCapKeepsTheHot(quoted, hot, c.maxTracked);
    UnderCapKeepsValid(quoted, hot, c.maxTracked);
  }

  lemma ColdCount(keys: Keys, hot: HotSet.Hot)
    requires hot.Keys <= keys.Keys
    ensures |Cold(keys, hot)| == |keys| - |hot|
  {
    assert keys.Keys == Cold(keys, hot) + hot.Keys;
    assert |keys.Keys| == |keys| && |hot.Keys| == |hot|;
  }

  lemma {:induction false} WithoutIsMinus(keys: Keys, gone: seq<nat>)
    ensures Without(keys, gone) == keys - Member.Elements(gone)
  {
    if gone == [] {
      assert Member.Elements(gone) == {};
    } else {
      var n := |gone| - 1;
      WithoutIsMinus(keys, gone[..n]);
      assert gone == gone[..n] + [gone[n]];
      assert Member.Elements(gone) == Member.Elements(gone[..n]) + {gone[n]};
    }
  }

  lemma PrefixElements(s: seq<nat>, n: nat)
    requires n <= |s| && Member.Distinct(s)
    ensures |Member.Elements(s[..n])| == n && Member.Elements(s[..n]) <= Member.Elements(s)
  {
    Member.DistinctCount(s[..n]);
  }

  lemma VictimsAreCold(keys: Keys, hot: HotSet.Hot, max: nat)
    requires hot.Keys <= keys.Keys && |hot| <= max < |keys|
    ensures var gone := Member.Elements(Victims(keys, hot, max)); gone <= Cold(keys, hot) && |gone| == |keys| - max
  {
    var cold := Cold(keys, hot);
    ColdCount(keys, hot);
    ByDemandIsDistinct(keys, cold);
    var ranked, n := ByDemand(keys, cold), |keys| - max;
    PrefixElements(ranked, n);
    assert Victims(keys, hot, max) == ranked[..n];
  }

  lemma WithoutSome(keys: Keys, some: set<nat>)
    requires some <= keys.Keys
    ensures (keys - some).Keys == keys.Keys - some && |keys - some| == |keys| - |some|
  {
    assert keys.Keys == (keys.Keys - some) + some;
    assert |(keys - some).Keys| == |keys - some| && |keys.Keys| == |keys|;
  }

  /** Just as many go as are over the cap, none of them hot. */
  lemma UnderCapKeepsTheHot(keys: Keys, hot: HotSet.Hot, max: nat)
    requires hot.Keys <= keys.Keys && |hot| <= max
    ensures |UnderCap(keys, hot, max)| == Min(|keys|, max)
    ensures hot.Keys <= UnderCap(keys, hot, max).Keys
    ensures forall k :: k in UnderCap(keys, hot, max) ==> k in keys && UnderCap(keys, hot, max)[k] == keys[k]
  {
    WithoutIsMinus(keys, Victims(keys, hot, max));
    if |keys| > max {
      VictimsAreCold(keys, hot, max);
      WithoutSome(keys, Member.Elements(Victims(keys, hot, max)));
    }
  }

  /** And no cold key that stays is less demanded than one that goes. */
  lemma VictimsAreTheLeastDemanded(keys: Keys, hot: HotSet.Hot, max: nat, victim: nat, kept: nat)
    requires victim in keys && victim !in UnderCap(keys, hot, max) && kept in UnderCap(keys, hot, max) && kept !in hot
    ensures kept in keys && LessDemanded(keys, victim, kept)
  {
    var cold, victims := Cold(keys, hot), Victims(keys, hot, max);
    WithoutIsMinus(keys, victims);
    var ranked := ByDemand(keys, cold);
    var a :| 0 <= a < |victims| && victims[a] == victim;
    assert kept in Member.Elements(ranked);
    var b :| 0 <= b < |ranked| && ranked[b] == kept;
    assert b >= |victims| by {
      forall i | 0 <= i < |victims| ensures ranked[i] != kept {
        assert ranked[i] == victims[i] && victims[i] in Member.Elements(victims);
      }
    }
    ByDemandIsSorted(keys, cold, a, b);
  }

  // ------------------------------------------------------------------------------- runs

  datatype Op =
    | Check(key: nat, limit: Limit, now: nat, n: nat)
    | Count(key: nat, limit: Limit, attempts: nat, n: nat)
    | Hold(cap: Option<real>)
    | OnTick(tick: Tick, order: seq<nat>)

  /** What the callers owe: limits in range, at least one node, and for a tick
      the order the keys happen to come in. */
  ghost predicate Callable(s: State, op: Op) {
    match op
    case Check(_, limit, _, n) => n > 0 && limit.Valid()
    case Count(_, limit, _, n) => n > 0 && limit.Valid()
    case Hold(_) => true
    case OnTick(t, order) => t.n > 0 && OrderOf(order, s.keys)
  }

  function After(c: Config, s: State, op: Op): State
    requires AllValid(s.keys) && Callable(s, op)
  {
    match op
    case Check(k, limit, now, n) => Checked(c, s, k, limit, now, n).1
    case Count(k, limit, attempts, n) => Recorded(c, s, k, limit, attempts, n)
    case Hold(cap) => s.(cap := cap)
    case OnTick(t, order) => Ticked(c, s, t, order)
  }

  ghost predicate Run(c: Config, trace: seq<State>, ops: seq<Op>) {
    && |trace| == |ops| + 1 && trace[0] == State(map[], map[], None)
    && forall i :: 0 <= i < |ops| ==>
         AllValid(trace[i].keys) && Callable(trace[i], ops[i]) && trace[i + 1] == After(c, trace[i], ops[i])
  }

  lemma StepKeepsInv(c: Config, s: State, op: Op)
    requires Inv(c, s) && Callable(s, op)
    ensures Inv(c, After(c, s, op))
  {
    match op
    case Check(k, limit, _, n) => EnteredIsValid(c, s, k, limit, n);
    case Count(k, limit, _, n) => EnteredIsValid(c, s, k, limit, n);
    case Hold(_) =>
    case OnTick(t, order) => TickKeepsInv(c, s, t, order);
  }

  /** Main result: in every run hot keys are tracked and the hot set has room for
      them, and after every tick no more keys are tracked than may be. */
  lemma {:induction false} HotKeysAreTracked(c: Config, trace: seq<State>, ops: seq<Op>, i: nat)
    requires c.Valid() && Run(c, trace, ops) && i < |trace|
    ensures Inv(c, trace[i])
    ensures i > 0 && ops[i - 1].OnTick? ==> |trace[i].keys| <= c.maxTracked
  {
    if i > 0 {
      HotKeysAreTracked(c, trace, ops, i - 1);
      StepKeepsInv(c, trace[i - 1], ops[i - 1]);
      if ops[i - 1].OnTick? {
        TickKeepsInv(c, trace[i - 1], ops[i - 1].tick, ops[i - 1].order);
      }
    }
  }

  lemma TickIsPointwise(c: Config, s: State, t: Tick, order: seq<nat>, k: nat)
    requires Inv(c, s) && t.n > 0 && OrderOf(order, s.keys) && k in Ticked(c, s, t, order).keys
    ensures k in s.keys
    ensures var after := Ticked(c, s, t, order);
            after.keys[k] == Requoted(s.keys[k].(demand := t.folded(k)), WantedQuota(c, s.cap, t, k, s.keys[k].limit,
                k in after.hot), t.now)
  {
    OrderIsOfKeys(order, s.keys);
    FirstPassDropsTheIdle(c, t, s.keys, s.hot, order);
    FirstPassKeepsValid(c, t, s.keys, s.hot, order);
    var (kept, hot) := FirstPass(c, t, s.keys, s.hot, order);
    var quoted := SecondPass(c, s.cap, t, kept, hot);
    UnderCapKeepsTheHot(quoted, hot, c.maxTracked);
    assert k in quoted && k in kept;
    assert k in Member.Elements(order);
  }

  lemma TickDropsOnlyTheIdleOrVictims(c: Config, s: State, t: Tick, order: seq<nat>, k: nat, kept: Keys,
                                      hot: HotSet.Hot)
    requires Inv(c, s) && t.n > 0 && OrderOf(order, s.keys) && k in s.keys && k !in Ticked(c, s, t, order).keys
    requires !Idle(t, k, s.keys[k])
    requires (kept, hot) == FirstPass(c, t, s.keys, s.hot, order)
    ensures k in kept && hot.Keys <= kept.Keys && |hot| <= c.maxTracked
    ensures forall j :: j in kept ==> kept[j].demand == t.folded(j)
    ensures AllValid(kept) && k !in UnderCap(SecondPass(c, s.cap, t, kept, hot), hot, c.maxTracked)
  {
    OrderIsOfKeys(order, s.keys);
    FirstPassDropsTheIdle(c, t, s.keys, s.hot, order);
    FirstPassKeepsValid(c, t, s.keys, s.hot, order);
    forall j | j in kept ensures kept[j].demand == t.folded(j) {
      assert j in Member.Elements(order);
    }
  }

  predicate NoMoreDemanded(a: Demand, k: nat, b: Demand, j: nat) {
    a.unbiased < b.unbiased || (a.unbiased == b.unbiased && k <= j)
  }

  lemma VictimIsLessDemanded(c: Config, s: State, t: Tick, kept: Keys, hot: HotSet.Hot, k: nat, j: nat)
    requires t.n > 0 && AllValid(kept)
    requires var quoted := SecondPass(c, s.cap, t, kept, hot);
             && k in quoted && k !in UnderCap(quoted, hot, c.maxTracked)
             && j in UnderCap(quoted, hot, c.maxTracked) && j !in hot
    requires forall i :: i in kept ==> kept[i].demand == t.folded(i)
    ensures NoMoreDemanded(t.folded(k), k, t.folded(j), j)
  {
    VictimsAreTheLeastDemanded(SecondPass(c, s.cap, t, kept, hot), hot, c.maxTracked, k, j);
  }

  /** A tick drops no hot key: only the idle, and under pressure the least demanded
      of the cold, and then not one more than it must. */
  lemma TickDropsTheLeastDemanded(c: Config, s: State, t: Tick, order: seq<nat>, k: nat)
    requires Inv(c, s) && t.n > 0 && OrderOf(order, s.keys) && k in s.keys && k !in Ticked(c, s, t, order).keys
    ensures k !in Ticked(c, s, t, order).hot
    ensures Idle(t, k, s.keys[k]) || |Ticked(c, s, t, order).keys| == c.maxTracked
    ensures Idle(t, k, s.keys[k])
            || forall j :: j in Ticked(c, s, t, order).keys && j !in Ticked(c, s, t, order).hot ==>
                 NoMoreDemanded(t.folded(k), k, t.folded(j), j)
  {
    TickKeepsInv(c, s, t, order);
    if !Idle(t, k, s.keys[k]) {
      OrderIsOfKeys(order, s.keys);
      var (kept, hot) := FirstPass(c, t, s.keys, s.hot, order);
      TickDropsOnlyTheIdleOrVictims(c, s, t, order, k, kept, hot);
      UnderCapKeepsTheHot(SecondPass(c, s.cap, t, kept, hot), hot, c.maxTracked);
      forall j | j in Ticked(c, s, t, order).keys && j !in Ticked(c, s, t, order).hot
        ensures NoMoreDemanded(t.folded(k), k, t.folded(j), j)
      {
        VictimIsLessDemanded(c, s, t, kept, hot, k, j);
      }
    }
  }

  // ------------------------------------------------------------------- what a key may get

  predicate CapHolds(q: Quota, limit: Limit, cap: Option<real>)
    requires q.interval > 0
  {
    cap.Some? ==> Within(q, CapRate(limit, cap.value))
  }

  /** Main result: right after a tick no key's quota is over the cap's part of its
      limit, a cold one's over alpha R / N, one held hot by a peer but without
      room here over beta R / N, and a hot one over its share; and its debt in
      requests comes along. */
  lemma TickHoldsEveryKey(c: Config, s: State, t: Tick, order: seq<nat>, k: nat)
    requires Inv(c, s) && t.n > 0 && OrderOf(order, s.keys) && k in Ticked(c, s, t, order).keys
    ensures k in s.keys && s.keys[k].Valid()
    ensures var after := Ticked(c, s, t, order); var q := after.keys[k].applied; var limit := s.keys[k].limit;
            && after.keys[k].limit == limit && InRange(q) && q.burst == limit.burst
            && after.keys[k].gcra == s.keys[k].gcra.SetQuota(q, t.now)
            && CapHolds(q, limit, s.cap)
            && (k !in after.hot ==> Within(q, ColdRate(limit, c.alpha, t.n)))
            && (k !in after.hot && HeardHot(t, k) ==> Within(q, FloorRate(limit, c.beta, t.n)))
            && (k in after.hot ==> Within(q, t.share(k, t.folded(k).rate, limit.rate)))
  {
    TickIsPointwise(c, s, t, order, k);
    assert s.keys[k].Valid();
    WantedIsWithin(c, s.cap, t, k, s.keys[k].limit, k in Ticked(c, s, t, order).hot);
  }

  lemma WantedIsBelow(c: Config, cap: Option<real>, t: Tick, k: nat, limit: Limit, isHot: bool)
    requires t.n > 0
    ensures var w := Wanted(c, cap, t, k, limit, isHot);
            && (cap.Some? ==> w <= CapRate(limit, cap.value))
            && (!isHot ==> w <= ColdRate(limit, c.alpha, t.n))
            && (!isHot && HeardHot(t, k) ==> w <= FloorRate(limit, c.beta, t.n))
            && (isHot ==> w <= t.share(k, t.folded(k).rate, limit.rate))
  {
  }

  lemma WantedIsWithin(c: Config, cap: Option<real>, t: Tick, k: nat, limit: Limit, isHot: bool)
    requires t.n > 0 && limit.Valid()
    ensures var q := WantedQuota(c, cap, t, k, limit, isHot);
            && q.burst == limit.burst && CapHolds(q, limit, cap)
            && (!isHot ==> Within(q, ColdRate(limit, c.alpha, t.n)))
            && (!isHot && HeardHot(t, k) ==> Within(q, FloorRate(limit, c.beta, t.n)))
            && (isHot ==> Within(q, t.share(k, t.folded(k).rate, limit.rate)))
  {
    var w := Wanted(c, cap, t, k, limit, isHot);
    PerSecondErrsStrict(w, limit.burst);
    WantedIsBelow(c, cap, t, k, limit, isHot);
    if cap.Some? {
      PerSecondIsWithin(w, limit.burst, CapRate(limit, cap.value));
    }
    if isHot {
      PerSecondIsWithin(w, limit.burst, t.share(k, t.folded(k).rate, limit.rate));
    } else {
      PerSecondIsWithin(w, limit.burst, ColdRate(limit, c.alpha, t.n));
      if HeardHot(t, k) {
        PerSecondIsWithin(w, limit.burst, FloorRate(limit, c.beta, t.n));
      }
    }
  }

  /** A key seen for the first time starts under the cap, and as a cold one. */
  lemma NewKeyIsWithin(c: Config, cap: Option<real>, limit: Limit, n: nat)
    requires n > 0 && limit.Valid()
    ensures InRange(ColdQuota(c, cap, limit, n)) && CapHolds(ColdQuota(c, cap, limit, n), limit, cap)
    ensures Within(ColdQuota(c, cap, limit, n), ColdRate(limit, c.alpha, n))
  {
    NewKeyIsCold(c, cap, limit, n);
    PerSecondIsWithin(NewKeyRate(c, cap, limit, n), limit.burst, ColdRate(limit, c.alpha, n));
    if cap.Some? {
      PerSecondIsWithin(NewKeyRate(c, cap, limit, n), limit.burst, CapRate(limit, cap.value));
    }
  }

  lemma NewKeyIsCold(c: Config, cap: Option<real>, limit: Limit, n: nat)
    requires n > 0 && limit.Valid()
    ensures NewKeyRate(c, cap, limit, n) <= ColdRate(limit, c.alpha, n)
    ensures cap.Some? ==> NewKeyRate(c, cap, limit, n) <= CapRate(limit, cap.value)
  {
    var f := NewKeyFactor(c, cap, n);
    ScaleWeakly(f, c.alpha / n as real, limit.rate);
    QuotientsCommute(limit.rate, c.alpha, n as real);
    if cap.Some? {
      ScaleWeakly(f, cap.value, limit.rate);
    }
  }

  lemma QuotientsCommute(a: real, b: real, n: real)
    requires n > 0.0
    ensures a * (b / n) == a / n * b
  {
    var x, y := a / n, b / n;
    assert a == x * n && b == y * n;
    assert a * y == (x * n) * y == x * (y * n) == x * b;
  }

  /** An idle key is forgotten without loss: seen again, it starts at some quota
      as if it had been kept and given that one. */
  lemma ForgettingTheIdleIsLossless(s: KeyState, t: Tick, k: nat, q: Quota, ops: seq<Gcra.Op>)
    requires s.Valid() && Idle(t, k, s) && InRange(q) && t.now < Gcra.CLOCK_END && AtomicGcra.Timely(t.now, ops)
    ensures AtomicGcra.Answers(s.gcra.SetQuota(q, t.now), t.now, ops) == AtomicGcra.Answers(Gcra.Fresh(q), t.now, ops)
  {
    var all := [Gcra.Set(q, t.now)] + ops;
    AtomicGcra.ForgettingWithoutDebtIsLossless(s.gcra, t.now, all);
    assert all[1..] == ops;
    assert AtomicGcra.Answers(s.gcra, t.now, all)[1..] == AtomicGcra.Answers(s.gcra.SetQuota(q, t.now), t.now, ops);
    assert AtomicGcra.Answers(Gcra.Fresh(s.applied), t.now, all)[1..] == AtomicGcra.Answers(Gcra.Fresh(q), t.now, ops);
  }
}
