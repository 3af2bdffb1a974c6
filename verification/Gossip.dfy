/** The piggyback buffer: news waiting for a ride on outgoing messages
    (rateguard-core/src/gossip.rs).
 */
module Gossip {
  import opened Wrappers
  import opened Orders
  import opened Proto
  import opened Member
  import opened Quotas

  const RETRANSMIT_MULT := 4

  datatype Pending = Pending(update: Update, transmits: nat)

  type Queue = map<nat, Pending>

  /** The least power of ten at or above `x`, as its exponent. */
  function CeilLog10(x: nat): (k: nat)
    requires x > 0
    ensures x <= Power10(k) && (k > 0 ==> Power10(k - 1) < x)
  {
    if x == 1 then 0 else CeilLog10Step(x); 1 + CeilLog10(DivCeil(x, 10))
  }

  function Power10(k: nat): nat { if k == 0 then 1 else 10 * Power10(k - 1) }

  lemma CeilLog10Step(x: nat)
    requires x > 1
    ensures 0 < DivCeil(x, 10) < x && forall p: nat :: DivCeil(x, 10) <= p <==> x <= 10 * p
  {
    DivCeilBounds(x, 10);
  }

  /** lambda x ceil(log10(N + 1)). */
  function RetransmitLimit(clusterSize: nat): (l: nat)
    requires clusterSize > 0
    ensures exists k: nat ::
              && k > 0 && l == RETRANSMIT_MULT * k
              && clusterSize + 1 <= Power10(k) && Power10(k - 1) < clusterSize + 1
  {
    var k := Max(CeilLog10(clusterSize + 1), 1);
    assert Power10(0) == 1 && clusterSize + 1 <= Power10(k) && Power10(k - 1) < clusterSize + 1;
    RETRANSMIT_MULT * k
  }

  ghost predicate ValidQueue(q: Queue) {
    forall m :: m in q ==> q[m].update.member == m
  }

  /** News is taken unless what is queued about its member is no older. */
  predicate Fresher(q: Queue, u: Update) {
    u.member !in q || q[u.member].update.member != u.member || Supersedes(u, q[u.member].update)
  }

  function Push(q: Queue, u: Update): Queue {
    if Fresher(q, u) then q[u.member := Pending(u, 0)] else q
  }

  /** Least sent first, ties by ID. */
  predicate Before(q: Queue, a: nat, b: nat)
    requires a in q && b in q
  {
    q[a].transmits < q[b].transmits || (q[a].transmits == q[b].transmits && a <= b)
  }

  function Freshest(q: Queue, s: set<nat>): (f: nat)
    requires s != {} && s <= q.Keys
    ensures f in s && forall m :: m in s ==> Before(q, f, m)
  {
    assert exists f :: f in s && forall m :: m in s ==> Before(q, f, m) by {
      var f := FirstExists(s, (a: nat, b: nat) => a in q && b in q && Before(q, a, b));
    }
    var f :| f in s && forall m :: m in s ==> Before(q, f, m);
    f
  }

  /** Up to `max` members, the first in the order of sending. */
  function Picks(q: Queue, s: set<nat>, max: nat): (r: seq<nat>)
    requires s <= q.Keys
    ensures |r| == Min(max, |s|)
    ensures forall i :: 0 <= i < |r| ==> r[i] in s
    ensures forall i, j :: 0 <= i < j < |r| ==> r[i] != r[j] && Before(q, r[i], r[j])
    ensures forall i, m :: 0 <= i < |r| && m in s && m !in r ==> Before(q, r[i], m)
    decreases max
  {
    if max == 0 || s == {} then []
    else
      var f := Freshest(q, s);
      var rest := Picks(q, s - {f}, max - 1);
      [f] + rest
  }

  /** One more transmission, the last of which takes the news out. */
  function Sent(q: Queue, m: nat, limit: nat): Queue
    requires m in q
  {
    if q[m].transmits + 1 >= limit then q - {m} else q[m := q[m].(transmits := q[m].transmits + 1)]
  }

  function AllSent(q: Queue, picks: seq<nat>, limit: nat): Queue {
    map m | m in q && !(m in picks && q[m].transmits + 1 >= limit) ::
      if m in picks then q[m].(transmits := q[m].transmits + 1) else q[m]
  }

  lemma SentOneMore(q: Queue, picks: seq<nat>, i: nat, limit: nat)
    requires i < |picks| && picks[i] in q && picks[i] !in picks[..i]
    ensures picks[i] in AllSent(q, picks[..i], limit) && AllSent(q, picks[..i], limit)[picks[i]] == q[picks[i]]
    ensures AllSent(q, picks[..i + 1], limit) == Sent(AllSent(q, picks[..i], limit), picks[i], limit)
  {
    assert picks[..i + 1] == picks[..i] + [picks[i]];
  }

  function News(q: Queue, picks: seq<nat>): (r: seq<Update>)
    requires forall i :: 0 <= i < |picks| ==> picks[i] in q
    ensures |r| == |picks| && forall i :: 0 <= i < |r| ==> r[i] == q[picks[i]].update
  {
    seq(|picks|, i requires 0 <= i < |picks| => q[picks[i]].update)
  }

  function Take(q: Queue, max: nat, limit: nat): (seq<Update>, Queue) {
    var picks := Picks(q, q.Keys, max);
    (News(q, picks), AllSent(q, picks, limit))
  }

  lemma OneMorePick(q: Queue, picks: seq<nat>, i: nat, limit: nat)
    requires i < |picks| && forall j :: 0 <= j < |picks| ==> picks[j] in q
    requires Distinct(picks)
    ensures picks[i] in AllSent(q, picks[..i], limit)
    ensures AllSent(q, picks[..i], limit)[picks[i]] == q[picks[i]]
    ensures News(q, picks[..i + 1]) == News(q, picks[..i]) + [q[picks[i]].update]
    ensures AllSent(q, picks[..i + 1], limit) == Sent(AllSent(q, picks[..i], limit), picks[i], limit)
  {
    assert picks[i] !in picks[..i];
    SentOneMore(q, picks, i, limit);
  }

  class Buffer {
    var queue: Queue

    constructor ()
      ensures queue == map[]
    {
      queue := map[];
    }

    method PushNews(u: Update) returns (taken: bool)
      requires ValidQueue(queue)
      modifies this
      ensures ValidQueue(queue) && taken == Fresher(old(queue), u) && queue == Push(old(queue), u)
    {
      if u.member in queue && !Supersedes(u, queue[u.member].update) {
        return false;
      }
      queue := queue[u.member := Pending(u, 0)];
      return true;
    }

    method TakeNews(max: nat, limit: nat) returns (news: seq<Update>)
      requires ValidQueue(queue) && limit > 0
      modifies this
      ensures ValidQueue(queue) && (news, queue) == Take(old(queue), max, limit)
    {
      var picks := Picks(queue, queue.Keys, max);
      ghost var was := queue;
      news := [];
      var i := 0;
      while i < |picks|
        invariant i <= |picks| && news == News(was, picks[..i]) && queue == AllSent(was, picks[..i], limit)
      {
        var m := picks[i];
        OneMorePick(was, picks, i, limit);
        news := news + [queue[m].update];
        queue := Sent(queue, m, limit);
        i := i + 1;
      }
      assert picks[..i] == picks;
    }
  }

  // -------------------------------------------------------- the life of a piece of news

  datatype Event = Heard(update: Update) | Message(max: nat)

  function After(q: Queue, e: Event, limit: nat): Queue {
    match e
    case Heard(u) => Push(q, u)
    case Message(max) => Take(q, max, limit).1
  }

  function Run(q: Queue, events: seq<Event>, limit: nat): Queue {
    if events == [] then q else After(Run(q, events[..|events| - 1], limit), events[|events| - 1], limit)
  }

  /** How many of the takes brought news of `m`. */
  function Sends(q: Queue, events: seq<Event>, limit: nat, m: nat): nat {
    if events == [] then 0
    else
      var before := Run(q, events[..|events| - 1], limit);
      var e := events[|events| - 1];
      Sends(q, events[..|events| - 1], limit, m)
      + if e.Message? && Brings(Take(before, e.max, limit).0, m) then 1 else 0
  }

  predicate Brings(news: seq<Update>, m: nat) { exists i :: 0 <= i < |news| && news[i].member == m }

  /** No news of `m` gets in meanwhile. */
  ghost predicate Unreplaced(q: Queue, events: seq<Event>, limit: nat, m: nat) {
    forall i :: 0 <= i < |events| && events[i].Heard? && events[i].update.member == m ==>
      !Fresher(Run(q, events[..i], limit), events[i].update)
  }

  /** Transmissions left to a member's news. */
  function LeftTo(q: Queue, limit: nat, m: nat): nat {
    if m in q && q[m].transmits < limit then limit - q[m].transmits else 0
  }

  /** What is queued has transmissions left. */
  ghost predicate Unspent(q: Queue, limit: nat) {
    forall m :: m in q ==> q[m].transmits < limit
  }

  lemma {:induction false} RunKeepsUnspent(q: Queue, events: seq<Event>, limit: nat)
    requires Unspent(q, limit) && limit > 0
    ensures Unspent(Run(q, events, limit), limit)
  {
    if events != [] {
      RunKeepsUnspent(q, events[..|events| - 1], limit);
      var before := Run(q, events[..|events| - 1], limit);
      var e := events[|events| - 1];
      if e.Message? {
        var after := AllSent(before, Picks(before, before.Keys, e.max), limit);
        assert forall m :: m in after ==> after[m].transmits < limit;
      }
    }
  }

  lemma {:induction false} RunKeepsValidQueue(q: Queue, events: seq<Event>, limit: nat)
    requires ValidQueue(q)
    ensures ValidQueue(Run(q, events, limit))
  {
    if events != [] {
      RunKeepsValidQueue(q, events[..|events| - 1], limit);
    }
  }

  /** What a take brings of a member is the news queued of it, as often as it is picked. */
  lemma TakeBrings(q: Queue, max: nat, limit: nat, m: nat)
    requires ValidQueue(q)
    ensures Brings(Take(q, max, limit).0, m) <==> m in Picks(q, q.Keys, max)
    ensures Brings(Take(q, max, limit).0, m) ==> m in q && q[m].update in Take(q, max, limit).0
  {
    var picks, news := Picks(q, q.Keys, max), Take(q, max, limit).0;
    if m in picks {
      var i :| 0 <= i < |picks| && picks[i] == m;
      assert news[i] == q[m].update;
    }
    if i :| 0 <= i < |news| && news[i].member == m {
      assert picks[i] == m;
    }
  }

  /** A piece of news that nothing replaces is taken exactly as often as it has
      transmissions left, and no more: fresh, `limit` times, then it is gone. */
  lemma {:induction false} TakenExactlyLimitTimes(q: Queue, events: seq<Event>, limit: nat, m: nat)
    requires limit > 0 && ValidQueue(q) && Unspent(q, limit) && m in q && Unreplaced(q, events, limit, m)
    ensures Sends(q, events, limit, m) + LeftTo(Run(q, events, limit), limit, m) == LeftTo(q, limit, m)
    ensures m in Run(q, events, limit) ==> Run(q, events, limit)[m].update == q[m].update
    ensures m !in Run(q, events, limit) ==> Sends(q, events, limit, m) == limit - q[m].transmits
  {
    if events != [] {
      var init, e := events[..|events| - 1], events[|events| - 1];
      forall i | 0 <= i < |init| && init[i].Heard? && init[i].update.member == m
        ensures !Fresher(Run(q, init[..i], limit), init[i].update)
      {
        assert init[..i] == events[..i];
      }
      TakenExactlyLimitTimes(q, init, limit, m);
      RunKeepsUnspent(q, init, limit);
      RunKeepsValidQueue(q, init, limit);
      var before := Run(q, init, limit);
      match e
      case Heard(u) => assert u.member == m ==> !Fresher(Run(q, events[..|events| - 1], limit), u);
      case Message(max) => TakeBrings(before, max, limit, m);
    }
  }

  /** News just heard that is newer than what is queued, if anything is, goes out `limit`
      times from then on. */
  lemma FreshNewsIsSentLimitTimes(q: Queue, u: Update, events: seq<Event>, limit: nat)
    requires limit > 0 && ValidQueue(q) && Unspent(q, limit)
    requires u.member in q ==> Supersedes(u, q[u.member].update)
    requires Unreplaced(Push(q, u), events, limit, u.member)
    ensures var r := Run(Push(q, u), events, limit);
            && Sends(Push(q, u), events, limit, u.member) + LeftTo(r, limit, u.member) == limit
            && (u.member in r ==> r[u.member].update == u)
  {
    TakenExactlyLimitTimes(Push(q, u), events, limit, u.member);
  }

  // ------------------------------------------------------------------- draining

  function Remaining(q: Queue, s: set<nat>, limit: nat): nat
  {
    if s == {} then 0
    else
      var m := Least(s);
      LeftTo(q, limit, m) + Remaining(q, s - {m}, limit)
  }

  lemma {:induction false} RemainingWithout(q: Queue, s: set<nat>, limit: nat, m: nat)
    requires m in s
    ensures Remaining(q, s, limit) == LeftTo(q, limit, m) + Remaining(q, s - {m}, limit)
  {
    var l := Least(s);
    if l != m {
      RemainingWithout(q, s - {l}, limit, m);
      RemainingWithout(q, s - {m}, limit, l);
      assert s - {l} - {m} == s - {m} - {l};
    }
  }

  lemma {:induction false} RemainingElsewhere(q: Queue, r: Queue, s: set<nat>, limit: nat)
    requires forall m :: m in s ==> LeftTo(q, limit, m) == LeftTo(r, limit, m)
    ensures Remaining(q, s, limit) == Remaining(r, s, limit)
  {
    if s != {} {
      RemainingElsewhere(q, r, s - {Least(s)}, limit);
    }
  }

  lemma SentCountsDown(q: Queue, m: nat, limit: nat)
    requires m in q && q[m].transmits < limit
    ensures Remaining(Sent(q, m, limit), Sent(q, m, limit).Keys, limit) + 1 == Remaining(q, q.Keys, limit)
  {
    var r := Sent(q, m, limit);
    RemainingWithout(q, q.Keys, limit, m);
    RemainingElsewhere(q, r, q.Keys - {m}, limit);
    if m in r {
      assert r.Keys == q.Keys;
      RemainingWithout(r, r.Keys, limit, m);
    } else {
      assert r.Keys == q.Keys - {m};
    }
  }

  lemma {:induction false} AllSentCountsDown(q: Queue, picks: seq<nat>, n: nat, limit: nat)
    requires Unspent(q, limit) && n <= |picks| && Distinct(picks)
    requires forall i :: 0 <= i < |picks| ==> picks[i] in q
    ensures Remaining(AllSent(q, picks[..n], limit), AllSent(q, picks[..n], limit).Keys, limit) + n
        == Remaining(q, q.Keys, limit)
  {
    if n == 0 {
      assert AllSent(q, picks[..0], limit) == q;
    } else {
      AllSentCountsDown(q, picks, n - 1, limit);
      OneMorePick(q, picks, n - 1, limit);
      SentCountsDown(AllSent(q, picks[..n - 1], limit), picks[n - 1], limit);
    }
  }

  /** Every message takes its room's worth off what is left to send, or all there
      is: the buffer drains. */
  lemma TakeDrains(q: Queue, max: nat, limit: nat)
    requires Unspent(q, limit)
    ensures
      var (news, r) := Take(q, max, limit);
      && |news| == Min(max, |q|)
      && Remaining(r, r.Keys, limit) + |news| == Remaining(q, q.Keys, limit)
  {
    var picks := Picks(q, q.Keys, max);
    AllSentCountsDown(q, picks, |picks|, limit);
    assert picks[..|picks|] == picks && |q.Keys| == |q|;
  }

  /** The buffer after messages with so much room each. */
  function AfterAll(q: Queue, rooms: seq<nat>, limit: nat): Queue {
    if rooms == [] then q else AfterAll(After(q, Message(rooms[0]), limit), rooms[1..], limit)
  }

  lemma TakeSome(q: Queue, room: nat, limit: nat)
    requires Unspent(q, limit) && limit > 0 && room > 0
    ensures
      var r := After(q, Message(room), limit);
      && Unspent(r, limit)
      && (q != map[] ==> Remaining(r, r.Keys, limit) < Remaining(q, q.Keys, limit))
      && (q == map[] ==> r == map[])
  {
    TakeDrains(q, room, limit);
    assert q != map[] ==> |q.Keys| > 0;
    RunKeepsUnspent(q, [Message(room)], limit);
    assert [Message(room)][..0] == [];
  }

  /** Main result: with room for some news in every message, the buffer is empty
      after as many messages as there are transmissions left, at the latest. */
  lemma {:induction false} BufferEmpties(q: Queue, rooms: seq<nat>, limit: nat)
    requires Unspent(q, limit) && limit > 0 && |rooms| >= Remaining(q, q.Keys, limit)
    requires forall i :: 0 <= i < |rooms| ==> rooms[i] > 0
    ensures AfterAll(q, rooms, limit) == map[]
    decreases |rooms|
  {
    if rooms == [] {
      NothingRemains(q, limit);
    } else {
      TakeSome(q, rooms[0], limit);
      BufferEmpties(After(q, Message(rooms[0]), limit), rooms[1..], limit);
    }
  }

  lemma NothingRemains(q: Queue, limit: nat)
    requires Unspent(q, limit) && Remaining(q, q.Keys, limit) == 0
    ensures q == map[]
  {
    if q != map[] {
      var m :| m in q;
      RemainingWithout(q, q.Keys, limit, m);
      assert false;
    }
  }
}
