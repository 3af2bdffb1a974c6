/** What a node learns it passes on: no change of what it believes of a peer goes without
    news queued for its messages (rateguard-core/src/node.rs, member.rs, gossip.rs).
 */
module Rumours {
  import opened Wrappers
  import opened Proto
  import opened Member
  import opened Gossip
  import opened Swim
  import MemberRuns

  /** One thing a node does. */
  datatype Op =
    | Hear(from: nat, msg: Message, now: nat)
    | Miss(peer: nat, now: nat)
    | Tick(now: nat, timeout: nat, ttl: nat)

  function Then(s: NodeState, op: Op): NodeState {
    match op
    case Hear(from, msg, now) => Receive(s, from, msg, now)
    case Miss(peer, now) => Missed(s, peer, now)
    case Tick(now, timeout, ttl) => TickAt(s, now, timeout, ttl)
  }

  /** News of the member waits to be sent, and is no older than what is believed of it. */
  predicate Spoken(s: NodeState, m: nat) {
    && m in s.view.members && m in s.queue && s.queue[m].update.member == m
    && !Supersedes(s.view.Record(m), s.queue[m].update)
  }

  predicate Changed(s: NodeState, t: NodeState, m: nat) {
    m in t.view.members && MemberRuns.Changed(s.view, t.view, m)
  }

  lemma PushSpeaks(q: Queue, u: Update)
    requires ValidQueue(q)
    ensures ValidQueue(Push(q, u)) && u.member in Push(q, u)
    ensures !Supersedes(u, Push(q, u)[u.member].update)
    ensures forall m :: m in q ==> m in Push(q, u) && !Supersedes(q[m].update, Push(q, u)[m].update)
  {
  }

  lemma LearnSpeaks(s: NodeState, u: Update, now: nat, m: nat)
    requires ValidQueue(s.queue)
    ensures ValidQueue(Learn(s, u, now).queue)
    ensures Changed(s, Learn(s, u, now), m) ==> Spoken(Learn(s, u, now), m)
    ensures Spoken(s, m) && !MemberRuns.Changed(s.view, Learn(s, u, now).view, m) ==> Spoken(Learn(s, u, now), m)
  {
    var (applied, v) := s.view.Apply(u, now);
    match applied
    case Ignored =>
    case Refused =>
    case Accepted(_) =>
      PushSpeaks(s.queue, u);
      assert v.Record(u.member) == u;
    case Refuted(alive) =>
      PushSpeaks(s.queue, alive);
  }

  lemma {:induction false} LearnAllSpeaks(s: NodeState, news: seq<Update>, now: nat, m: nat)
    requires ValidQueue(s.queue)
    ensures var t := LearnAll(s, news, now);
            ValidQueue(t.queue) && t.behind == s.behind && t.introducing == s.introducing && t.left == s.left
            && t.view.local == s.view.local && (m in s.view.members ==> m in t.view.members)
            && (Changed(s, t, m) ==> Spoken(t, m))
  {
    if news != [] {
      var init, last := news[..|news| - 1], news[|news| - 1];
      LearnAllSpeaks(s, init, now, m);
      LearnSpeaks(LearnAll(s, init, now), last, now, m);
    }
  }

  lemma ReceiveSpeaks(s: NodeState, from: nat, msg: Message, now: nat, m: nat)
    requires ValidQueue(s.queue)
    ensures ValidQueue(Receive(s, from, msg, now).queue)
    ensures Changed(s, Receive(s, from, msg, now), m) ==> Spoken(Receive(s, from, msg, now), m)
  {
    var marked := s.(behind := if IsBehind(s, from, msg) then s.behind + {from} else s.behind - {from});
    LearnAllSpeaks(marked, msg.updates, now, m);
  }

  lemma {:induction false} PushAllSpeaks(q: Queue, news: seq<Update>, i: nat)
    requires ValidQueue(q) && i < |news|
    ensures var r := PushAll(q, news);
            ValidQueue(r) && news[i].member in r && !Supersedes(news[i], r[news[i].member].update)
  {
    var init, last := news[..|news| - 1], news[|news| - 1];
    if i < |init| {
      PushAllSpeaks(q, init, i);
    } else {
      PushAllIsValid(q, init);
    }
    PushSpeaks(PushAll(q, init), last);
  }

  lemma {:induction false} PushAllIsValid(q: Queue, news: seq<Update>)
    requires ValidQueue(q)
    ensures ValidQueue(PushAll(q, news))
  {
    if news != [] {
      PushAllIsValid(q, news[..|news| - 1]);
      PushSpeaks(PushAll(q, news[..|news| - 1]), news[|news| - 1]);
    }
  }

  lemma TickSpeaks(s: NodeState, now: nat, timeout: nat, ttl: nat, m: nat)
    requires ValidQueue(s.queue)
    ensures var t := TickAt(s, now, timeout, ttl);
            ValidQueue(t.queue) && (Changed(s, t, m) ==> Spoken(t, m))
  {
    var t, expired := TickAt(s, now, timeout, ttl), s.view.Expired(now, timeout);
    if !s.left {
      var order := Sorted(expired);
      var news := s.view.Deaths(order);
      PushAllIsValid(s.queue, news);
      if Changed(s, t, m) {
        assert m in expired;
        assert m in Elements(order);
        var i :| 0 <= i < |order| && order[i] == m;
        PushAllSpeaks(s.queue, news, i);
        assert news[i] == t.view.Record(m);
      }
    }
  }

  /** Main result: whatever a node comes to believe of a peer, by hearing it, by a probe
      unanswered or by a suspicion run out, is queued to be passed on at once. */
  lemma ChangesAreGossiped(s: NodeState, op: Op, m: nat)
    requires ValidQueue(s.queue)
    ensures ValidQueue(Then(s, op).queue)
    ensures Changed(s, Then(s, op), m) ==> Spoken(Then(s, op), m)
  {
    match op
    case Hear(from, msg, now) => ReceiveSpeaks(s, from, msg, now, m);
    case Miss(peer, _) =>
      var u := s.view.Suspicion(peer);
      if u.Some? {
        PushSpeaks(s.queue, u.value);
      }
    case Tick(now, timeout, ttl) => TickSpeaks(s, now, timeout, ttl, m);
  }

  // --------------------------------------------------------------- what is answered

  /** Somebody else speaks for the node when an alive record of it is heard that it never made,
      and then alone: it is counted, and outbid in the next message and in the gossip. */
  lemma AnImpostorIsOutbid(s: NodeState, u: Update, now: nat, to: nat)
    requires ValidQueue(s.queue)
    ensures var t := Learn(s, u, now); var taken := u.member == s.view.local && u.status == Alive
                                                    && s.view.incarnation < u.incarnation < U32_MAX;
            && t.conflicts == s.conflicts + (if taken then 1 else 0)
            && (taken ==> Outgoing(t, to).0[0] == s.view.Own().(incarnation := u.incarnation + 1)
                          && u.member in t.queue && !Supersedes(t.view.Own(), t.queue[u.member].update))
  {
    var t := Learn(s, u, now);
    OutgoingFits(t, to);
    PushSpeaks(s.queue, t.view.Own());
  }

  /** A peer that announces itself alive below the incarnation held of it hears in the very
      next message to it what is held. */
  lemma BehindIsTold(s: NodeState, from: nat, news: seq<Update>, now: nat)
    requires !s.left && from in s.view.members && from != s.view.local && s.view.members[from].status == Alive
    requires ValidQueue(s.queue) && news != [] && news[0].member == from && news[0].status == Alive
    requires news[0].incarnation < s.view.members[from].incarnation
    ensures var t := Receive(s, from, News(news), now);
            from in t.view.members && t.view.Record(from) in Outgoing(t, from).0
  {
    var t := Receive(s, from, News(news), now);
    LearnAllSpeaks(s.(behind := s.behind + {from}), news, now, from);
    var opening := Opening(t, from).0;
    assert t.view.Record(from) in opening;
    assert opening <= Outgoing(t, from).0 by {
      OpeningComesFirst(t, from);
    }
  }

  lemma OpeningComesFirst(s: NodeState, to: nat)
    ensures Opening(s, to).0 <= Outgoing(s, to).0
  {
  }

  /** Whoever was not held live and is heard alive is introduced, from the first live member on. */
  lemma NewcomerIsIntroduced(s: NodeState, from: nat, news: seq<Update>, now: nat)
    requires !s.left && from != s.view.local && !s.view.IsLive(from) && ValidQueue(s.queue)
    requires var t := Receive(s, from, News(news), now); t.view.IsLive(from) && t.view.members[from].status == Alive
    ensures var t := Receive(s, from, News(news), now); from in t.introducing && t.introducing[from] == None
  {
    LearnAllSpeaks(s.(behind := s.behind - {from}), news, now, from);
  }

  // ---------------------------------------------------------------------- who is gone

  /** A leave heard, as it should be, of a peer not yet departed, ends all that was going on
      with it; and no other introduction. */
  lemma TheGoneAreLetGo(s: NodeState, from: nat, news: Update, now: nat)
    requires !s.left && from != s.view.local && news.member == from && news.status == Dead && ValidQueue(s.queue)
    ensures var t := Receive(s, from, Leaving([news]), now);
            && (t.view.HasDeparted(from) && !s.view.HasDeparted(from) ==> from !in t.behind && from !in t.introducing)
            && t.behind - {from} == s.behind - {from}
            && t.introducing - {from} == s.introducing - {from}
  {
    LearnAllSpeaks(s.(behind := s.behind - {from}), [news], now, from);
    assert [news][..0] == [] && LearnAll(s.(behind := s.behind - {from}), [], now).behind == s.behind - {from};
  }

  /** A tick ends the introductions of those no longer live, as its own suspicions leave them,
      and of no others, and carries the rest on from where they were. */
  lemma OnlyTheLiveAreIntroduced(s: NodeState, now: nat, timeout: nat, ttl: nat, m: nat)
    requires !s.left && m != s.view.local
    ensures var t := TickAt(s, now, timeout, ttl);
            && (m in t.introducing <==> m in s.introducing && t.view.IsLive(m))
            && (m in t.introducing ==> t.introducing[m] == s.introducing[m])
  {
  }
}
