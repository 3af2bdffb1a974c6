/** SWIM's member table (rateguard-core/src/member.rs): the records as a value
    and its operations, then the table itself, which keeps the live list sorted
    and its changes up to date in place.
 */
module Member {
  import opened Wrappers
  import opened Orders
  import opened Proto
  import opened Quotas

  datatype Member = Member(addr: nat, incarnation: nat, status: Status, since: nat, joined: nat, departed: bool)

  datatype Applied =
    | Ignored
    | Accepted(from: Option<Status>)
    | Refuted(update: Update)
    | Refused

  /** What the table knows, the live list aside. */
  datatype View = View(local: nat, addr: nat, incarnation: nat, members: map<nat, Member>, max: nat, refused: nat) {
    predicate Valid() {
      && local !in members && 1 <= max && incarnation <= U32_MAX
      && forall m :: m in members ==> members[m].incarnation <= U32_MAX
    }

    function Known(): nat { |members| + 1 }

    function Record(m: nat): Update
      requires m in members
    {
      Update(m, members[m].addr, members[m].incarnation, members[m].status)
    }

    function Own(): Update { Update(local, addr, incarnation, Alive) }

    function UpdateAbout(m: nat): Option<Update> {
      if m == local then Some(Own()) else if m in members then Some(Record(m)) else None
    }

    function Status(m: nat): Option<Status> {
      if m == local then Some(Alive) else if m in members then Some(members[m].status) else None
    }

    predicate IsLive(m: nat) { m in members && members[m].status != Dead }

    function LiveSet(): set<nat> { set m | m in members && members[m].status != Dead }

    predicate HasDeparted(m: nat) { m in members && members[m].departed }

    /** A stale accusation is answered too, with the incarnation as it is. */
    function Refute(news: Update): (Applied, View)
      requires news.member == local
    {
      if !Supersedes(news, Own()) then
        (if news.status == Alive then Ignored else Refuted(Own()), this)
      else if news.incarnation >= U32_MAX then (Ignored, this)
      else
        var v := this.(incarnation := news.incarnation + 1);
        (Refuted(v.Own()), v)
    }

    function Merged(u: Update, now: nat): Member {
      var wasLive := u.member in members && members[u.member].status != Dead;
      var joined := if u.member in members && (wasLive || u.status == Dead) then members[u.member].joined else now;
      Member(u.addr, u.incarnation, u.status, now, joined, false)
    }

    /** News heard at `now`; about the node itself it is never taken as fact. */
    function Apply(u: Update, now: nat): (Applied, View) {
      var m := u.member;
      if m == local then Refute(u)
      else if m in members && !Supersedes(u, Record(m)) then (Ignored, this)
      else if m !in members && Known() >= max then (Refused, this.(refused := refused + 1))
      else
        (Accepted(if m in members then Some(members[m].status) else None),
         this.(members := members[m := Merged(u, now)]))
    }

    /** An alive member becomes suspect after a failed probe. */
    function Suspicion(m: nat): Option<Update> {
      if m in members && members[m].status == Alive then Some(Record(m).(status := Suspect)) else None
    }

    function SuspectAt(m: nat, now: nat): View {
      var u := Suspicion(m);
      if u.Some? then Apply(u.value, now).1 else this
    }

    predicate CanDepart(m: nat) { m in members && members[m].status == Dead && !members[m].departed }

    function Depart(m: nat): View {
      if CanDepart(m) then this.(members := members[m := members[m].(departed := true)]) else this
    }

    predicate Forgotten(m: nat, now: nat, ttl: nat)
      requires m in members
    {
      members[m].status == Dead && SatSub(now, members[m].since) >= ttl
    }

    function ForgetDead(now: nat, ttl: nat): View {
      this.(members := map m | m in members && !Forgotten(m, now, ttl) :: members[m])
    }

    function Expired(now: nat, timeout: nat): set<nat> {
      set m | m in members && members[m].status == Suspect && SatSub(now, members[m].since) >= timeout
    }

    /** The news of the given members' deaths. */
    function Deaths(order: seq<nat>): (news: seq<Update>)
      requires forall i :: 0 <= i < |order| ==> order[i] in members
      ensures |news| == |order|
      ensures forall i :: 0 <= i < |order| ==> news[i] == Record(order[i]).(status := Dead)
    {
      seq(|order|, i requires 0 <= i < |order| => Record(order[i]).(status := Dead))
    }

    function Buried(m: nat, now: nat): Member
      requires m in members
    {
      members[m].(status := Dead, since := now, departed := false)
    }

    function BuryAll(dead: set<nat>, now: nat): View {
      this.(members := map m | m in members :: if m in dead then Buried(m, now) else members[m])
    }

    /** What the suspects become whose time is up. */
    function ExpireSuspects(now: nat, timeout: nat): View {
      BuryAll(Expired(now, timeout), now)
    }
  }

  function NewView(local: nat, addr: nat): View {
    View(local, addr, 0, map[], U32_MAX, 0)
  }

  // ------------------------------------------------------------- sorted sequences

  predicate Ascending(s: seq<nat>) {
    forall i, j :: 0 <= i < j < |s| ==> s[i] < s[j]
  }

  function Elements(s: seq<nat>): set<nat> { set x | x in s }

  predicate Distinct(s: seq<nat>) { forall i, j :: 0 <= i < j < |s| ==> s[i] != s[j] }

  lemma {:induction false} DistinctCount(s: seq<nat>)
    requires Distinct(s)
    ensures |Elements(s)| == |s|
  {
    if s != [] {
      var init, last := s[..|s| - 1], s[|s| - 1];
      DistinctCount(init);
      assert s == init + [last];
      assert last !in init;
      assert Elements(s) == Elements(init) + {last};
    } else {
      assert Elements(s) == {};
    }
  }

  lemma ElementsOfCons(x: nat, s: seq<nat>)
    ensures Elements([x] + s) == {x} + Elements(s)
  {
  }

  lemma EmptyElements(s: seq<nat>)
    ensures Elements(s) == {} <==> s == []
  {
    if s != [] {
      assert s[0] in Elements(s);
    }
  }

  /** There is one ascending list of a set. */
  lemma {:induction false} AscendingIsUnique(a: seq<nat>, b: seq<nat>)
    requires Ascending(a) && Ascending(b) && Elements(a) == Elements(b)
    ensures a == b
  {
    EmptyElements(a);
    EmptyElements(b);
    if a != [] {
      assert a[0] in Elements(b) && b[0] in Elements(a);
      assert a[0] == b[0];
      forall x ensures x in Elements(a[1..]) <==> x in Elements(b[1..]) {
        assert x in Elements(a) <==> x in Elements(b);
        assert x in Elements(a[1..]) <==> x in Elements(a) && x != a[0];
        assert x in Elements(b[1..]) <==> x in Elements(b) && x != b[0];
      }
      AscendingIsUnique(a[1..], b[1..]);
    }
  }

  lemma InsertKeepsOrder(s: seq<nat>, at: nat, m: nat)
    requires Ascending(s) && at <= |s|
    requires (forall i :: 0 <= i < at ==> s[i] < m) && (forall i :: at <= i < |s| ==> s[i] > m)
    ensures Ascending(s[..at] + [m] + s[at..]) && Elements(s[..at] + [m] + s[at..]) == Elements(s) + {m}
  {
    var r := s[..at] + [m] + s[at..];
    forall x ensures x in r <==> x in s || x == m {
      if x in s {
        var i :| 0 <= i < |s| && s[i] == x;
        assert r[if i < at then i else i + 1] == x;
      }
      assert r[at] == m;
    }
  }

  lemma RemoveKeepsOrder(s: seq<nat>, at: nat)
    requires Ascending(s) && at < |s|
    ensures Ascending(s[..at] + s[at + 1..]) && Elements(s[..at] + s[at + 1..]) == Elements(s) - {s[at]}
  {
    var r := s[..at] + s[at + 1..];
    forall x ensures x in r <==> x in s && x != s[at] {
      if x in s && x != s[at] {
        var i :| 0 <= i < |s| && s[i] == x;
        assert r[if i < at then i else i - 1] == x;
      }
    }
  }

  /** The standard library's search of an ascending list. */
  method BinarySearch(s: seq<nat>, x: nat) returns (found: bool, at: nat)
    requires Ascending(s)
    ensures at <= |s| && found == (x in s)
    ensures found ==> at < |s| && s[at] == x
    ensures (forall i :: 0 <= i < at ==> s[i] < x) && (forall i :: at <= i < |s| ==> s[i] >= x)
  {
    var lo, hi := 0, |s|;
    while lo < hi
      invariant lo <= hi <= |s|
      invariant forall i :: 0 <= i < lo ==> s[i] < x
      invariant forall i :: hi <= i < |s| ==> s[i] >= x
    {
      var mid := (lo + hi) / 2;
      if s[mid] < x {
        lo := mid + 1;
      } else {
        hi := mid;
      }
    }
    at := lo;
    found := at < |s| && s[at] == x;
  }

  // --------------------------------------------------------------------- changes

  datatype Change = Joined(peer: nat) | Left(peer: nat)

  /** A consumer replaying changes, which never joins a peer twice nor drops one
      it does not have: None if it would. */
  function Replay(peers: set<nat>, changes: seq<Change>): Option<set<nat>> {
    if changes == [] then Some(peers)
    else match Replay(peers, changes[..|changes| - 1])
      case None => None
      case Some(seen) =>
        match changes[|changes| - 1]
        case Joined(p) => if p in seen then None else Some(seen + {p})
        case Left(p) => if p in seen then Some(seen - {p}) else None
  }

  lemma ReplayOneMore(peers: set<nat>, changes: seq<Change>, c: Change)
    ensures Replay(peers, changes + [c]) ==
              match Replay(peers, changes)
              case None => None
              case Some(seen) =>
                (match c
                 case Joined(p) => if p in seen then None else Some(seen + {p})
                 case Left(p) => if p in seen then Some(seen - {p}) else None)
  {
    assert (changes + [c])[..|changes|] == changes;
  }

  // ------------------------------------------------------------------- the table

  class MemberTable {
    const local: nat
    const addr: nat
    var incarnation: nat
    var members: map<nat, Member>
    var live: seq<nat>
    var changes: seq<Change>
    var max: nat
    var refused: nat
    /** The live peers at the last drain. */
    ghost var drained: set<nat>

    function Abs(): View
      reads this
    {
      View(local, addr, incarnation, members, max, refused)
    }

    /** The live list is exactly the members not dead, sorted, without the node
        itself, and replaying the changes onto the last drained peers gives it. */
    ghost predicate Valid()
      reads this
    {
      && Abs().Valid()
      && Ascending(live) && Elements(live) == Abs().LiveSet()
      && Replay(drained, changes) == Some(Elements(live))
    }

    constructor (local: nat, addr: nat)
      ensures Valid() && Abs() == NewView(local, addr) && changes == []
    {
      this.local, this.addr := local, addr;
      incarnation, members, live, changes, max, refused := 0, map[], [], [], U32_MAX, 0;
      drained := {};
      new;
      EmptyElements(live);
    }

    method SetMax(max: nat)
      requires Valid() && max >= 1
      modifies this
      ensures Valid() && Abs() == old(Abs()).(max := max)
      ensures live == old(live) && changes == old(changes) && drained == old(drained)
    {
      this.max := max;
    }

    method Apply(u: Update, now: nat) returns (r: Applied)
      requires Valid() && u.incarnation <= U32_MAX
      modifies this
      ensures Valid() && (r, Abs()) == old(Abs()).Apply(u, now)
      ensures drained == old(drained) && old(changes) <= changes
    {
      var m := u.member;
      if m == local {
        r := Refute(u);
        return;
      }
      var from := if m in members then Some(members[m]) else None;
      if from.Some? && !Supersedes(u, Abs().Record(m)) {
        return Ignored;
      }
      if from.None? && |members| + 1 >= max {
        refused := refused + 1;
        return Refused;
      }
      var wasLive := from.Some? && from.value.status != Dead;
      var isLive := u.status != Dead;
      var joined := if from.Some? && (wasLive || !isLive) then from.value.joined else now;
      ghost var before := Abs().LiveSet();
      members := members[m := Member(u.addr, u.incarnation, u.status, now, joined, false)];
      ghost var after := Abs().LiveSet();
      if !wasLive && isLive {
        assert after == before + {m};
        Join(m);
      } else if wasLive && !isLive {
        assert after == before - {m};
        assert m in Elements(live);
        Leave(m);
      } else {
        assert after == before;
      }
      r := Accepted(if from.Some? then Some(from.value.status) else None);
    }

    /** The search cannot find a peer outside the cluster among the live ones. */
    method Join(m: nat)
      requires Ascending(live) && m !in live && Replay(drained, changes) == Some(Elements(live))
      modifies this`live, this`changes
      ensures Ascending(live) && Elements(live) == old(Elements(live)) + {m}
      ensures Replay(drained, changes) == Some(Elements(live)) && changes == old(changes) + [Joined(m)]
    {
      var found, at := BinarySearch(live, m);
      assert !found;
      InsertKeepsOrder(live, at, m);
      live := live[..at] + [m] + live[at..];
      ReplayOneMore(drained, changes, Joined(m));
      changes := changes + [Joined(m)];
    }

    /** Nor miss a live one. */
    method Leave(m: nat)
      requires Ascending(live) && m in live && Replay(drained, changes) == Some(Elements(live))
      modifies this`live, this`changes
      ensures Ascending(live) && Elements(live) == old(Elements(live)) - {m}
      ensures Replay(drained, changes) == Some(Elements(live)) && changes == old(changes) + [Left(m)]
    {
      var found, at := BinarySearch(live, m);
      assert found;
      RemoveKeepsOrder(live, at);
      live := live[..at] + live[at + 1..];
      ReplayOneMore(drained, changes, Left(m));
      changes := changes + [Left(m)];
    }

    method Refute(news: Update) returns (r: Applied)
      requires Valid() && news.member == local && news.incarnation <= U32_MAX
      modifies this`incarnation
      ensures Valid() && (r, Abs()) == old(Abs()).Refute(news)
    {
      if !Supersedes(news, Abs().Own()) {
        return if news.status == Alive then Ignored else Refuted(Abs().Own());
      }
      if news.incarnation == U32_MAX {
        return Ignored;
      }
      incarnation := news.incarnation + 1;
      r := Refuted(Abs().Own());
    }

    method SuspectPeer(m: nat, now: nat) returns (u: Option<Update>)
      requires Valid() && m != local
      modifies this
      ensures Valid() && u == old(Abs()).Suspicion(m) && Abs() == old(Abs()).SuspectAt(m, now)
      ensures drained == old(drained)
    {
      u := Abs().Suspicion(m);
      if u.Some? {
        var _ := Apply(u.value, now);
      }
    }

    method Depart(m: nat) returns (departed: bool)
      requires Valid()
      modifies this`members
      ensures Valid() && departed == old(Abs()).CanDepart(m) && Abs() == old(Abs()).Depart(m)
    {
      departed := m in members && members[m].status == Dead && !members[m].departed;
      if departed {
        ghost var before := Abs().LiveSet();
        members := members[m := members[m].(departed := true)];
        assert Abs().LiveSet() == before;
      }
    }

    /** Only the dead are forgotten, so the live list stays as it is. */
    method ForgetDead(now: nat, ttl: nat) returns (n: nat)
      requires Valid()
      modifies this`members
      ensures Valid() && Abs() == old(Abs()).ForgetDead(now, ttl)
      ensures n == |old(members)| - |members|
    {
      ghost var was := members;
      var kept := map m | m in members && !Abs().Forgotten(m, now, ttl) :: members[m];
      assert kept.Keys <= members.Keys;
      SubsetIsSmaller(kept.Keys, members.Keys);
      n := |members.Keys| - |kept.Keys|;
      ghost var before := Abs().LiveSet();
      members := kept;
      assert Abs().LiveSet() == before;
    }

    method ExpireSuspects(now: nat, timeout: nat) returns (news: seq<Update>)
      requires Valid() && timeout > 0
      modifies this
      ensures news == old(Abs()).Deaths(Sorted(old(Abs()).Expired(now, timeout)))
      ensures Valid() && Abs() == old(Abs()).ExpireSuspects(now, timeout) && drained == old(drained)
    {
      ghost var was := Abs();
      var order := Sorted(Abs().Expired(now, timeout));
      ExpiredAreSuspects(was, now, timeout);
      news := Abs().Deaths(order);
      DeathsAreInRange(was, order);
      ApplyEach(news, now);
      DeathsExpire(was, now, order);
    }

    method ApplyEach(news: seq<Update>, now: nat)
      requires Valid() && forall i :: 0 <= i < |news| ==> news[i].incarnation <= U32_MAX
      modifies this
      ensures Valid() && Abs() == ApplyAll(old(Abs()), news, now) && drained == old(drained)
    {
      var i := 0;
      while i < |news|
        invariant i <= |news| && Valid() && drained == old(drained)
        invariant Abs() == ApplyAll(old(Abs()), news[..i], now)
      {
        assert news[..i + 1][..i] == news[..i];
        var _ := Apply(news[i], now);
        i := i + 1;
      }
      assert news[..i] == news;
    }

    method DrainChanges() returns (r: seq<Change>)
      requires Valid()
      modifies this`changes, this`drained
      ensures Valid() && r == old(changes) && changes == []
      ensures drained == Elements(live) && Replay(old(drained), r) == Some(drained)
    {
      r := changes;
      changes := [];
      drained := Elements(live);
    }
  }

  lemma ExpiredAreSuspects(v: View, now: nat, timeout: nat)
    ensures var order := Sorted(v.Expired(now, timeout));
            forall i :: 0 <= i < |order| ==> order[i] in v.members && v.members[order[i]].status == Suspect
  {
  }

  lemma DeathsAreInRange(v: View, order: seq<nat>)
    requires v.Valid() && forall i :: 0 <= i < |order| ==> order[i] in v.members
    ensures forall i :: 0 <= i < |order| ==> v.Deaths(order)[i].incarnation <= U32_MAX
  {
  }

  /** News applied one after the other. */
  function ApplyAll(v: View, news: seq<Update>, now: nat): View {
    if news == [] then v else ApplyAll(v, news[..|news| - 1], now).Apply(news[|news| - 1], now).1
  }

  lemma BuryOneMore(v: View, dead: set<nat>, m: nat, now: nat)
    requires v.Valid() && m in v.members && m !in dead && v.members[m].status == Suspect
    ensures v.BuryAll(dead, now).Apply(v.Record(m).(status := Dead), now).1 == v.BuryAll(dead + {m}, now)
  {
    var before := v.BuryAll(dead, now);
    assert before.members[m] == v.members[m];
    assert before.Merged(v.Record(m).(status := Dead), now) == v.Buried(m, now);
    assert before.members[m := v.Buried(m, now)] == v.BuryAll(dead + {m}, now).members;
  }

  /** Applying the deaths of the expired suspects, one by one in the order of
      their IDs, buries exactly them. */
  lemma {:induction false} DeathsExpire(v: View, now: nat, order: seq<nat>)
    requires v.Valid() && Ascending(order)
    requires forall i :: 0 <= i < |order| ==> order[i] in v.members && v.members[order[i]].status == Suspect
    ensures ApplyAll(v, v.Deaths(order), now) == v.BuryAll(Elements(order), now)
  {
    var news := v.Deaths(order);
    if order != [] {
      var n := |order| - 1;
      var rest, m := order[..n], order[n];
      DeathsExpire(v, now, rest);
      assert news[..n] == v.Deaths(rest);
      assert order == rest + [m];
      assert Elements(order) == Elements(rest) + {m} && m !in rest;
      BuryOneMore(v, Elements(rest), m, now);
    } else {
      assert v.BuryAll({}, now).members == v.members;
    }
  }

  lemma SubsetIsSmaller(a: set<nat>, b: set<nat>)
    requires a <= b
    ensures |a| <= |b|
  {
    assert b == a + (b - a);
    assert |b| == |a| + |b - a|;
  }

  function Least(s: set<nat>): (m: nat)
    requires s != {}
    ensures m in s && forall x :: x in s ==> m <= x
  {
    assert exists m :: m in s && forall x :: x in s ==> m <= x by {
      var m := FirstExists(s, (a: nat, b: nat) => a <= b);
    }
    var m :| m in s && forall x :: x in s ==> m <= x;
    m
  }

  /** A tree map's keys come in ascending order. */
  function Sorted(s: set<nat>): (r: seq<nat>)
    ensures Ascending(r) && Elements(r) == s
    ensures forall i :: 0 <= i < |r| ==> r[i] in s
  {
    if s == {} then []
    else
      var m := Least(s);
      var rest := Sorted(s - {m});
      assert forall x :: x in Elements(rest) <==> x in s && x != m;
      assert forall x :: x in [m] + rest <==> x == m || x in Elements(rest);
      assert forall i :: 0 <= i < |rest| ==> rest[i] in Elements(rest);
      [m] + rest
  }

  /** The walk over the live and the suspect: the first after `after`, from the
      first with none. */
  function NextLiveAfter(v: View, after: Option<nat>): (r: Option<nat>)
    ensures r.None? <==> forall m: nat :: v.IsLive(m) ==> after.Some? && m <= after.value
    ensures r.Some? ==>
              && v.IsLive(r.value) && (after.Some? ==> r.value > after.value)
              && forall m: nat :: v.IsLive(m) && m < r.value ==> after.Some? && m <= after.value
  {
    var rest := set m | m in v.members && v.members[m].status != Dead && (after.Some? ==> m > after.value);
    if rest == {} then
      assert forall m: nat :: v.IsLive(m) && !(after.Some? && m <= after.value) ==> m in rest;
      None
    else
      assert forall m: nat :: v.IsLive(m) && !(after.Some? && m <= after.value) ==> m in rest;
      assert v.IsLive(Least(rest)) && !(after.Some? && Least(rest) <= after.value);
      Some(Least(rest))
  }
}
