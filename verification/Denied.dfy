/** The names behind the hashes last denied: an LRU whose stale stamps are dropped
    lazily, and two of them (rateguard-sidecar/src/denied.rs).
 */
module Denied {
  import opened Wrappers
  import opened Member

  datatype Named = Named(class_: string, key: string, truncated: bool)

  // ------------------------------------------------------------------------ a plain LRU

  /** The oldest first. */
  datatype Lru = Lru(capacity: nat, list: seq<nat>, names: map<nat, Named>) {
    ghost predicate Valid() {
      Distinct(list) && Elements(list) == names.Keys && |list| <= capacity
    }

    function Refresh(h: nat): Lru {
      if h in names then this.(list := Without(list, h) + [h]) else this
    }

    function DropOldest(): Lru
      requires list != []
    {
      Lru(capacity, list[1..], names - {list[0]})
    }

    /** Just enough of the oldest go. */
    function Room(): Lru
      requires capacity > 0
      decreases |list|
    {
      if |list| < capacity then this else DropOldest().Room()
    }

    function Insert(h: nat, name: Named): Lru {
      if capacity == 0 then this else Lru(capacity, Room().list + [h], Room().names[h := name])
    }

    function Remove(h: nat): Lru { this.(list := Without(list, h), names := names - {h}) }
  }

  function Without(s: seq<nat>, h: nat): seq<nat> {
    if s == [] then []
    else if s[|s| - 1] == h then Without(s[..|s| - 1], h)
    else Without(s[..|s| - 1], h) + [s[|s| - 1]]
  }

  lemma {:induction false} WithoutElements(s: seq<nat>, h: nat)
    ensures Elements(Without(s, h)) == Elements(s) - {h}
    ensures Distinct(s) ==> Distinct(Without(s, h))
    ensures h !in s ==> Without(s, h) == s
    ensures |Without(s, h)| <= |s|
  {
    if s != [] {
      var init, last := s[..|s| - 1], s[|s| - 1];
      WithoutElements(init, h);
      assert s == init + [last];
      assert Elements(s) == Elements(init) + {last};
      var r := Without(s, h);
      if last != h {
        assert Elements(r) == Elements(Without(init, h)) + {last};
        if Distinct(s) {
          assert last !in init;
          assert last !in Elements(Without(init, h));
        }
      }
    }
  }

  // ---------------------------------------------------------------------------- stamps

  datatype Entry = Entry(name: Named, stamp: nat)
  datatype Stamp = Stamp(hash: nat, stamp: nat)

  type Table = map<nat, Entry>

  predicate Live(t: Table, s: Stamp) { s.hash in t && t[s.hash].stamp == s.stamp }

  function LiveStamps(t: Table, order: seq<Stamp>): (r: seq<Stamp>)
    ensures |r| <= |order|
  {
    if order == [] then []
    else if Live(t, order[|order| - 1]) then LiveStamps(t, order[..|order| - 1]) + [order[|order| - 1]]
    else LiveStamps(t, order[..|order| - 1])
  }

  /** The hashes named, by their latest stamp. */
  function Recency(t: Table, order: seq<Stamp>): seq<nat> {
    if order == [] then []
    else if Live(t, order[|order| - 1]) then Recency(t, order[..|order| - 1]) + [order[|order| - 1].hash]
    else Recency(t, order[..|order| - 1])
  }

  function Names(t: Table): map<nat, Named> { map h | h in t :: t[h].name }

  /** Stamps rise, and stay below `next`. */
  predicate Increasing(order: seq<Stamp>, next: nat) {
    order != [] ==>
      var last := order[|order| - 1];
      last.stamp < next && Increasing(order[..|order| - 1], last.stamp)
  }

  lemma {:induction false} StampsAreBelow(order: seq<Stamp>, next: nat, s: Stamp)
    requires Increasing(order, next) && s in order
    ensures s.stamp < next
  {
    var init, last := order[..|order| - 1], order[|order| - 1];
    assert order == init + [last];
    if s != last {
      StampsAreBelow(init, last.stamp, s);
    }
  }

  lemma LastIsNotBefore(order: seq<Stamp>, next: nat)
    requires Increasing(order, next) && order != []
    ensures order[|order| - 1] !in order[..|order| - 1]
  {
    var init, last := order[..|order| - 1], order[|order| - 1];
    if last in init {
      StampsAreBelow(init, last.stamp, last);
    }
  }

  /** The recency list holds live stamps' hashes, each once. */
  lemma {:induction false} RecencyElements(t: Table, order: seq<Stamp>, next: nat)
    requires Increasing(order, next)
    ensures forall h :: h in Recency(t, order) <==> h in t && Stamp(h, t[h].stamp) in order
    ensures Distinct(Recency(t, order))
  {
    if order != [] {
      var init, last := order[..|order| - 1], order[|order| - 1];
      RecencyElements(t, init, last.stamp);
      LastIsNotBefore(order, next);
      assert order == init + [last];
      if Live(t, last) {
        assert last == Stamp(last.hash, t[last.hash].stamp);
        assert last.hash !in Recency(t, init);
      }
    }
  }

  /** As many live stamps as keys named. */
  predicate Tidy(t: Table, order: seq<Stamp>, next: nat) {
    Increasing(order, next) && |Recency(t, order)| == |t|
  }

  /** So every named key has its stamp still in the order. */
  lemma EveryKeyIsStamped(t: Table, order: seq<Stamp>, next: nat)
    requires Tidy(t, order, next)
    ensures Distinct(Recency(t, order)) && Elements(Recency(t, order)) == t.Keys
    ensures forall h :: h in t ==> Stamp(h, t[h].stamp) in order
  {
    RecencyElements(t, order, next);
    DistinctCount(Recency(t, order));
    SameCount(Elements(Recency(t, order)), t.Keys);
    forall h | h in t ensures Stamp(h, t[h].stamp) in order {
      assert h in Elements(Recency(t, order));
    }
  }

  lemma NamedIsRecent(t: Table, order: seq<Stamp>, next: nat, h: nat)
    requires Tidy(t, order, next)
    ensures h in t <==> h in Recency(t, order)
    ensures |Without(Recency(t, order), h)| == |t| - (if h in t then 1 else 0)
  {
    EveryKeyIsStamped(t, order, next);
    assert h in Recency(t, order) <==> h in Elements(Recency(t, order));
    WithoutCount(Recency(t, order), h);
  }

  lemma SameCount(a: set<nat>, b: set<nat>)
    requires a <= b && |a| >= |b|
    ensures a == b
  {
    if a != b {
      var x :| x in b && x !in a;
      SubsetIsSmaller(a, b - {x});
    }
  }

  lemma {:induction false} WithoutCount(s: seq<nat>, h: nat)
    requires Distinct(s)
    ensures |Without(s, h)| == |s| - if h in s then 1 else 0
  {
    if s != [] {
      var init, last := s[..|s| - 1], s[|s| - 1];
      assert s == init + [last];
      assert last !in init;
      WithoutCount(init, h);
    }
  }

  /** A table that agrees on every stamp in the order but one hash's, which it does
      not have among them. */
  lemma {:induction false} RecencyWithout(t: Table, t': Table, order: seq<Stamp>, h: nat)
    requires forall s :: s in order ==> (Live(t', s) <==> Live(t, s) && s.hash != h)
    ensures Recency(t', order) == Without(Recency(t, order), h)
  {
    if order != [] {
      var init, last := order[..|order| - 1], order[|order| - 1];
      assert last in order && forall s :: s in init ==> s in order;
      RecencyWithout(t, t', init, h);
      if Live(t, last) {
        var r := Recency(t, order);
        assert r[..|r| - 1] == Recency(t, init);
      }
    }
  }

  lemma OneMoreStamp(t: Table, order: seq<Stamp>, s: Stamp)
    ensures Recency(t, order + [s]) == if Live(t, s) then Recency(t, order) + [s.hash] else Recency(t, order)
    ensures Increasing(order + [s], s.stamp + 1) <==> Increasing(order, s.stamp)
  {
    assert (order + [s])[..|order|] == order;
  }

  /** Stamped anew, a key is the newest; its old stamp, if any, is stale. */
  lemma StampedIsNewest(t: Table, order: seq<Stamp>, next: nat, h: nat, name: Named)
    requires Tidy(t, order, next)
    ensures var t' := t[h := Entry(name, next)];
            && Recency(t', order + [Stamp(h, next)]) == Without(Recency(t, order), h) + [h]
            && Tidy(t', order + [Stamp(h, next)], next + 1)
  {
    var t' := t[h := Entry(name, next)];
    forall s | s in order ensures Live(t', s) <==> Live(t, s) && s.hash != h {
      StampsAreBelow(order, next, s);
    }
    RecencyWithout(t, t', order, h);
    OneMoreStamp(t', order, Stamp(h, next));
    NamedIsRecent(t, order, next, h);
    assert t'.Keys == t.Keys + {h};
    assert |t'.Keys| == |t'| && |t.Keys| == |t|;
  }

  lemma RemovedIsOut(t: Table, order: seq<Stamp>, next: nat, h: nat)
    requires Tidy(t, order, next)
    ensures Recency(t - {h}, order) == Without(Recency(t, order), h) && Tidy(t - {h}, order, next)
  {
    RecencyWithout(t, t - {h}, order, h);
    NamedIsRecent(t, order, next, h);
    OneLess(t, h);
  }

  lemma OneLess(t: Table, h: nat)
    ensures |t - {h}| == |t| - (if h in t then 1 else 0) && Names(t - {h}) == Names(t) - {h}
    ensures h !in t ==> t - {h} == t
  {
    assert (t - {h}).Keys == t.Keys - {h};
    assert |(t - {h}).Keys| == |t - {h}| && |t.Keys| == |t|;
  }

  /** Dropping stale stamps changes nothing else. */
  lemma {:induction false} CompactKeepsTidy(t: Table, order: seq<Stamp>, next: nat)
    requires Increasing(order, next)
    ensures Increasing(LiveStamps(t, order), next) && Recency(t, LiveStamps(t, order)) == Recency(t, order)
    ensures |LiveStamps(t, order)| == |Recency(t, order)|
  {
    if order != [] {
      var init, last := order[..|order| - 1], order[|order| - 1];
      CompactKeepsTidy(t, init, last.stamp);
      if Live(t, last) {
        OneMoreStamp(t, LiveStamps(t, init), last);
      }
      Laxer(LiveStamps(t, order), if Live(t, last) then last.stamp + 1 else last.stamp, next);
    }
  }

  lemma Laxer(order: seq<Stamp>, next: nat, later: nat)
    requires Increasing(order, next) && next <= later
    ensures Increasing(order, later)
  {
  }

  /** The front of the order, if live, is the front of the list. */
  lemma {:induction false} FrontOfTheOrder(t: Table, order: seq<Stamp>, next: nat)
    requires order != [] && Increasing(order, next)
    ensures Recency(t, order) == (if Live(t, order[0]) then [order[0].hash] else []) + Recency(t, order[1..])
    ensures Increasing(order[1..], next) && order[0] !in order[1..]
  {
    if |order| == 1 {
      assert order[..0] == [] && order[1..] == [];
    } else {
      var init, last := order[..|order| - 1], order[|order| - 1];
      FrontOfTheOrder(t, init, last.stamp);
      LastIsNotBefore(order, next);
      var rest := order[1..];
      assert rest[..|rest| - 1] == init[1..] && rest[|rest| - 1] == last;
      assert rest == init[1..] + [last];
    }
  }

  /** Popping the front drops the oldest key if the stamp is live. */
  lemma PopLive(t: Table, order: seq<Stamp>, next: nat)
    requires Tidy(t, order, next) && order != [] && Live(t, order[0])
    ensures Recency(t, order) == [order[0].hash] + Recency(t - {order[0].hash}, order[1..])
    ensures Tidy(t - {order[0].hash}, order[1..], next)
  {
    var s, rest := order[0], order[1..];
    FrontOfTheOrder(t, order, next);
    RecencyElements(t, rest, next);
    RecencyWithout(t, t - {s.hash}, rest, s.hash);
    WithoutElements(Recency(t, rest), s.hash);
    RemovedIsOut(t, order, next, s.hash);
  }

  /** And nothing otherwise. */
  lemma PopStale(t: Table, order: seq<Stamp>, next: nat)
    requires Tidy(t, order, next) && order != [] && !Live(t, order[0])
    ensures Tidy(t, order[1..], next) && Recency(t, order[1..]) == Recency(t, order)
  {
    FrontOfTheOrder(t, order, next);
  }

  lemma WithoutTheLast(s: seq<nat>, h: nat)
    requires h !in s
    ensures Without(s + [h], h) == s
  {
    assert (s + [h])[..|s|] == s;
    WithoutElements(s, h);
  }

  lemma AlreadyNewest(t: Table, order: seq<Stamp>, next: nat)
    requires Tidy(t, order, next) && order != [] && Live(t, order[|order| - 1])
    ensures var h := order[|order| - 1].hash; Recency(t, order) == Without(Recency(t, order), h) + [h]
  {
    var init, last := order[..|order| - 1], order[|order| - 1];
    RecencyElements(t, init, last.stamp);
    LastIsNotBefore(order, next);
    WithoutTheLast(Recency(t, init), last.hash);
  }

  lemma RefreshedNames(t: Table, h: nat, next: nat)
    requires h in t
    ensures var t' := t[h := t[h].(stamp := next)]; |t'| == |t| && Names(t') == Names(t)
  {
    var t' := t[h := t[h].(stamp := next)];
    assert t'.Keys == t.Keys;
    assert |t'.Keys| == |t'|;
  }

  lemma InsertedNames(t: Table, order: seq<Stamp>, next: nat, h: nat, name: Named)
    requires Tidy(t, order, next) && h !in t
    ensures var t' := t[h := Entry(name, next)]; |t'| == |t| + 1 && Names(t') == Names(t)[h := name]
    ensures Without(Recency(t, order), h) == Recency(t, order)
  {
    var t' := t[h := Entry(name, next)];
    NamedIsRecent(t, order, next, h);
    WithoutElements(Recency(t, order), h);
    assert t'.Keys == t.Keys + {h};
    assert |t'.Keys| == |t'|;
  }

  // -------------------------------------------------------------------------- the table

  class Recent {
    const capacity: nat
    var named: Table
    var order: seq<Stamp>
    var next: nat

    function Abs(): Lru
      reads this
    {
      Lru(capacity, Recency(named, order), Names(named))
    }

    /** The order holds every named key's stamp, and as many stale ones at most. */
    ghost predicate Valid()
      reads this
    {
      Tidy(named, order, next) && |named| <= capacity && |order| <= 2 * capacity
    }

    constructor (capacity: nat)
      ensures Valid() && this.capacity == capacity && Abs() == Lru(capacity, [], map[])
    {
      this.capacity, named, order, next := capacity, map[], [], 0;
    }

    function Contains(h: nat): bool
      reads this
    {
      h in named
    }

    method Refresh(h: nat) returns (here: bool)
      requires Valid()
      modifies this
      ensures Valid() && here == old(Contains(h)) && Abs() == old(Abs()).Refresh(h) && named.Keys == old(named.Keys)
    {
      if h !in named {
        return false;
      }
      if order != [] && order[|order| - 1] == Stamp(h, named[h].stamp) {
        AlreadyNewest(named, order, next);
      } else {
        StampedIsNewest(named, order, next, h, named[h].name);
        RefreshedNames(named, h, next);
        named := named[h := named[h].(stamp := next)];
        order := order + [Stamp(h, next)];
        next := next + 1;
        Compact();
      }
      return true;
    }

    /** Its callers insert no key that is here. Popping never runs dry: every key
        has a stamp in the order. */
    method Insert(h: nat, name: Named)
      requires Valid() && !Contains(h)
      modifies this
      ensures Valid() && Abs() == old(Abs()).Insert(h, name) && named.Keys <= old(named.Keys) + {h}
    {
      if capacity == 0 {
        return;
      }
      MakeRoom();
      Push(h, name);
      Compact();
    }

    method Push(h: nat, name: Named)
      requires Tidy(named, order, next) && h !in named
      modifies this
      ensures Tidy(named, order, next) && |named| == |old(named)| + 1 && named.Keys == old(named.Keys) + {h}
      ensures Recency(named, order) == Recency(old(named), old(order)) + [h]
          && Names(named) == Names(old(named))[h := name]
    {
      StampedIsNewest(named, order, next, h, name);
      InsertedNames(named, order, next, h, name);
      named := named[h := Entry(name, next)];
      order := order + [Stamp(h, next)];
      next := next + 1;
    }

    method MakeRoom()
      requires Valid() && capacity > 0
      modifies this`named, this`order
      ensures Tidy(named, order, next) && |named| < capacity && |order| <= 2 * capacity && named.Keys <= old(named.Keys)
      ensures Abs() == old(Abs()).Room()
    {
      while |named| >= capacity
        invariant Tidy(named, order, next) && |order| <= 2 * capacity && named.Keys <= old(named.Keys)
        invariant Abs().Room() == old(Abs()).Room()
        decreases |order|
      {
        assert order != [];
        var oldest := order[0];
        if Live(named, oldest) {
          PopLive(named, order, next);
          OneLess(named, oldest.hash);
          named := named - {oldest.hash};
        } else {
          PopStale(named, order, next);
        }
        order := order[1..];
      }
    }

    method Remove(h: nat) returns (name: Option<Named>)
      requires Valid()
      modifies this
      ensures Valid() && Abs() == old(Abs()).Remove(h) && named.Keys == old(named.Keys) - {h}
      ensures name == if old(Contains(h)) then Some(old(named)[h].name) else None
    {
      RemovedIsOut(named, order, next, h);
      OneLess(named, h);
      if h !in named {
        return None;
      }
      name := Some(named[h].name);
      named := named - {h};
      Compact();
    }

    method Compact()
      requires Tidy(named, order, next) && |named| <= capacity
      modifies this`order
      ensures Tidy(named, order, next) && |order| <= 2 * capacity && Recency(named, order) == Recency(named, old(order))
    {
      if |order| > 2 * capacity {
        CompactKeepsTidy(named, order, next);
        order := LiveStamps(named, order);
      }
    }
  }

  /** The table is a plain LRU of at most `capacity` keys. */
  lemma RecentIsAnLru(r: Recent)
    requires r.Valid()
    ensures r.Abs().Valid() && r.Abs().names.Keys == r.named.Keys
  {
    EveryKeyIsStamped(r.named, r.order, r.next);
  }

  /** A refresh loses no key, and puts one last. */
  lemma RefreshMovesToTheEnd(l: Lru, h: nat)
    requires l.Valid() && h in l.names
    ensures l.Refresh(h).Valid() && l.Refresh(h).names == l.names
    ensures |l.Refresh(h).list| == |l.list| && l.Refresh(h).list[|l.list| - 1] == h
  {
    WithoutElements(l.list, h);
    assert h in Elements(l.list);
    WithoutCount(l.list, h);
    var rest := Without(l.list, h);
    assert h !in rest by {
      assert h !in Elements(rest);
    }
    assert Elements(rest + [h]) == Elements(rest) + {h};
  }

  /** An insertion drops one key at most: the oldest of a full list. */
  lemma InsertDropsTheOldest(l: Lru, h: nat, name: Named)
    requires l.Valid() && h !in l.names && l.capacity > 0
    ensures |l.list| < l.capacity ==> l.Insert(h, name) == Lru(l.capacity, l.list + [h], l.names[h := name])
    ensures |l.list| == l.capacity ==>
              l.Insert(h, name) == Lru(l.capacity, l.list[1..] + [h], (l.names - {l.list[0]})[h := name])
  {
    if |l.list| == l.capacity {
      assert l.DropOldest().Room() == l.DropOldest();
    }
  }

  lemma AppendKeepsValid(l: Lru, h: nat, name: Named)
    requires l.Valid() && h !in l.names && |l.list| < l.capacity
    ensures Lru(l.capacity, l.list + [h], l.names[h := name]).Valid()
  {
    assert h !in Elements(l.list);
    assert Elements(l.list + [h]) == Elements(l.list) + {h};
  }

  lemma DropOldestKeepsValid(l: Lru)
    requires l.Valid() && l.list != []
    ensures l.DropOldest().Valid() && l.DropOldest().names.Keys <= l.names.Keys
  {
    var first, rest := l.list[0], l.list[1..];
    assert l.list == [first] + rest;
    ElementsOfCons(first, rest);
    assert first !in Elements(rest);
  }

  lemma InsertKeepsValid(l: Lru, h: nat, name: Named)
    requires l.Valid() && h !in l.names
    ensures l.Insert(h, name).Valid() && l.Insert(h, name).names.Keys <= l.names.Keys + {h}
  {
    if l.capacity > 0 {
      InsertDropsTheOldest(l, h, name);
      if |l.list| < l.capacity {
        AppendKeepsValid(l, h, name);
      } else {
        DropOldestKeepsValid(l);
        AppendKeepsValid(l.DropOldest(), h, name);
      }
    }
  }

  lemma RemoveKeepsValid(l: Lru, h: nat)
    requires l.Valid()
    ensures l.Remove(h).Valid()
  {
    WithoutElements(l.list, h);
  }

  // ------------------------------------------------------------------------ both tables

  datatype Tables = Tables(denied: Lru, shadow: Lru) {
    /** A key really denied keeps the name its shadow denials gave it. */
    function Recorded(h: nat, name: Named): Tables {
      if h in denied.names then this.(denied := denied.Refresh(h))
      else Tables(denied.Insert(h, if h in shadow.names then shadow.names[h] else name), shadow.Remove(h))
    }

    function RecordedShadow(h: nat, name: Named): Tables {
      if h in denied.names then this
      else if h in shadow.names then this.(shadow := shadow.Refresh(h))
      else this.(shadow := shadow.Insert(h, name))
    }
  }

  datatype Denial = Really(hash: nat, name: Named) | InShadow(hash: nat, name: Named)

  function Run(t: Tables, denials: seq<Denial>): Tables {
    if denials == [] then t
    else
      var before := Run(t, denials[..|denials| - 1]);
      match denials[|denials| - 1]
      case Really(h, name) => before.Recorded(h, name)
      case InShadow(h, name) => before.RecordedShadow(h, name)
  }

  ghost predicate Apart(t: Tables) {
    t.denied.Valid() && t.shadow.Valid() && t.denied.names.Keys !! t.shadow.names.Keys
  }

  lemma RecordedStayApart(t: Tables, h: nat, name: Named)
    requires Apart(t)
    ensures Apart(t.Recorded(h, name)) && Apart(t.RecordedShadow(h, name))
  {
    if h in t.denied.names {
      RefreshMovesToTheEnd(t.denied, h);
    } else {
      InsertKeepsValid(t.denied, h, if h in t.shadow.names then t.shadow.names[h] else name);
      RemoveKeepsValid(t.shadow, h);
      if h in t.shadow.names {
        RefreshMovesToTheEnd(t.shadow, h);
      } else {
        InsertKeepsValid(t.shadow, h, name);
      }
    }
  }

  /** Main result: whatever is denied, no hash is ever in both tables, and each holds
      the names of its list, as many as it may at most. */
  lemma {:induction false} TablesStayApart(t: Tables, denials: seq<Denial>)
    requires Apart(t)
    ensures Apart(Run(t, denials))
  {
    if denials != [] {
      TablesStayApart(t, denials[..|denials| - 1]);
      var before := Run(t, denials[..|denials| - 1]);
      RecordedStayApart(before, denials[|denials| - 1].hash, denials[|denials| - 1].name);
    }
  }

  /** Shadow denials, however many, push out no name of a real one. */
  lemma {:induction false} ShadowsPushOutNothingReal(t: Tables, denials: seq<Denial>)
    requires forall i :: 0 <= i < |denials| ==> denials[i].InShadow?
    ensures Run(t, denials).denied == t.denied
  {
    if denials != [] {
      ShadowsPushOutNothingReal(t, denials[..|denials| - 1]);
    }
  }

  class DeniedKeys {
    const denied: Recent
    const shadow: Recent

    function Abs(): Tables
      reads this, denied, shadow
    {
      Tables(denied.Abs(), shadow.Abs())
    }

    /** No hash is in both tables. */
    ghost predicate Valid()
      reads this, denied, shadow
    {
      denied != shadow && denied.Valid() && shadow.Valid() && denied.named.Keys !! shadow.named.Keys
    }

    constructor (capacity: nat)
      ensures Valid() && fresh(denied) && fresh(shadow)
      ensures Abs() == Tables(Lru(capacity, [], map[]), Lru(capacity, [], map[]))
    {
      denied := new Recent(capacity);
      shadow := new Recent(capacity);
      new;
      RecentIsAnLru(denied);
      RecentIsAnLru(shadow);
    }

    method Record(h: nat, name: Named)
      requires Valid()
      modifies denied, shadow
      ensures Valid() && Abs() == old(Abs()).Recorded(h, name)
    {
      var known := denied.Refresh(h);
      if !known {
        var removed := shadow.Remove(h);
        denied.Insert(h, if removed.Some? then removed.value else name);
      }
    }

    method RecordShadow(h: nat, name: Named)
      requires Valid()
      modifies shadow
      ensures Valid() && Abs() == old(Abs()).RecordedShadow(h, name)
    {
      if denied.Contains(h) {
        return;
      }
      var known := shadow.Refresh(h);
      if !known {
        shadow.Insert(h, name);
      }
    }

    /** A real denial's name before a shadow's. */
    function Get(h: nat): (r: Option<Named>)
      reads this, denied, shadow
      ensures r.Some? <==> h in Abs().denied.names || h in Abs().shadow.names
      ensures h in Abs().denied.names ==> r == Some(Abs().denied.names[h])
      ensures h !in Abs().denied.names && h in Abs().shadow.names ==> r == Some(Abs().shadow.names[h])
    {
      if h in denied.named then Some(denied.named[h].name)
      else if h in shadow.named then Some(shadow.named[h].name)
      else None
    }
  }
}
