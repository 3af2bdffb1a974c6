/** The membership half of a node (rateguard-core/src/node.rs): what it learns,
    what every message it sends opens with, and how it leaves.
 */
module Swim {
  import opened Wrappers
  import opened Proto
  import opened Member
  import opened Gossip
  import Quotas

  datatype Message =
    | News(updates: seq<Update>)                     // a Ping, an Ack or a PingReq
    | Leaving(updates: seq<Update>)

  /** The parts of a node that membership moves. */
  datatype NodeState = NodeState(
    view: View, queue: Queue, behind: set<nat>, introducing: map<nat, Option<nat>>, left: bool, conflicts: nat)
  {
    predicate Valid() { view.Valid() }
  }

  function NewNode(local: nat, addr: nat): NodeState {
    NodeState(NewView(local, addr), map[], {}, map[], false, 0)
  }

  function ClusterSize(v: View): nat { |v.LiveSet()| + 1 }

  // -------------------------------------------------------------------- learning

  function Learn(s: NodeState, u: Update, now: nat): NodeState {
    var (applied, v) := s.view.Apply(u, now);
    match applied
    case Ignored => s.(view := v)
    case Refused => s.(view := v)
    case Accepted(_) => s.(view := v, queue := Push(s.queue, u))
    case Refuted(alive) =>
      s.(view := v, queue := Push(s.queue, alive), conflicts := if u.status
          == Alive then s.conflicts + 1 else s.conflicts)
  }

  function LearnAll(s: NodeState, news: seq<Update>, now: nat): NodeState {
    if news == [] then s else Learn(LearnAll(s, news[..|news| - 1], now), news[|news| - 1], now)
  }

  // -------------------------------------------------------------------- outgoing

  /** Whoever is held as suspect or dead, or is behind its own incarnation, hears
      it on every message. */
  function Accusation(s: NodeState, to: nat): Option<Update> {
    var u := s.view.UpdateAbout(to);
    if u.Some? && (u.value.status != Alive || to in s.behind) then u else None
  }

  function Without(news: seq<Update>, own: Update): (r: seq<Update>)
    ensures |r| <= |news|
    ensures forall u :: u in r <==> u in news && u != own
  {
    if news == [] then []
    else
      var rest := Without(news[..|news| - 1], own);
      var last := news[|news| - 1];
      assert news == news[..|news| - 1] + [last];
      if last == own then rest else rest + [last]
  }

  function Room(s: NodeState, to: nat): nat {
    MAX_UPDATES - 1 - if Accusation(s, to).Some? then 1 else 0
  }

  /** The own record first, then gossip, then the accusation. */
  function Opening(s: NodeState, to: nat): (seq<Update>, Queue) {
    var (news, q) := Take(s.queue, Room(s, to), RetransmitLimit(ClusterSize(s.view)));
    var updates := [s.view.Own()] + Without(news, s.view.Own());
    var accusation := Accusation(s, to);
    (if accusation.Some? && accusation.value !in updates then updates + [accusation.value] else updates, q)
  }

  function Named(updates: seq<Update>): set<nat> { set u | u in updates :: u.member }

  /** The live members past the cursor. */
  function Ahead(v: View, last: Option<nat>): set<nat> {
    set m | m in v.members && v.members[m].status != Dead && (last.Some? ==> m > last.value)
  }

  lemma CursorMovesOn(v: View, last: Option<nat>)
    requires NextLiveAfter(v, last).Some?
    ensures var m := NextLiveAfter(v, last).value; Ahead(v, last) == Ahead(v, Some(m)) + {m}
    ensures |Ahead(v, NextLiveAfter(v, last))| < |Ahead(v, last)|
  {
    var m := NextLiveAfter(v, last).value;
    forall x: nat ensures x in Ahead(v, last) <==> x in Ahead(v, Some(m)) || x == m {
      if x in Ahead(v, last) && x != m {
        assert v.IsLive(x);
      }
    }
  }

  /** A newcomer hears of every live member, in the room the message has left,
      from where the last message to it stopped: the list, the cursor, and
      whether all have been told. */
  function Introduce(v: View, to: nat, updates: seq<Update>, last: Option<nat>): (r: (seq<Update>, Option<nat>, bool))
    ensures updates <= r.0
    ensures |updates| <= MAX_UPDATES ==> |r.0| <= MAX_UPDATES
    decreases |Ahead(v, last)|
  {
    if |updates| >= MAX_UPDATES then (updates, last, false)
    else match NextLiveAfter(v, last)
      case None => (updates, last, true)
      case Some(m) =>
        CursorMovesOn(v, last);
        Introduce(v, to, if m != to && m !in Named(updates) then updates + [v.Record(m)] else updates, Some(m))
  }

  function Outgoing(s: NodeState, to: nat): (seq<Update>, NodeState) {
    var (updates, q) := Opening(s, to);
    if to in s.introducing then
      var (all, last, told) := Introduce(s.view, to, updates, s.introducing[to]);
      (all, s.(queue := q, introducing := if told then s.introducing - {to} else s.introducing[to := last]))
    else (updates, s.(queue := q))
  }

  // ------------------------------------------------------------------- receiving

  /** A leave says one thing, about its own sender. */
  predicate WellFormed(from: nat, msg: Message) {
    msg.Leaving? ==> |msg.updates| == 1 && msg.updates[0].member == from && msg.updates[0].status == Dead
  }

  /** The sender announces itself alive below the incarnation held for it. */
  predicate IsBehind(s: NodeState, from: nat, msg: Message) {
    var held := s.view.UpdateAbout(from);
    && msg.updates != [] && held.Some?
    && msg.updates[0].member == from && msg.updates[0].status == Alive
    && held.value.status == Alive && held.value.incarnation > msg.updates[0].incarnation
  }

  function DepartPeer(s: NodeState, m: nat): NodeState {
    if s.view.CanDepart(m) then
      s.(view := s.view.Depart(m), behind := s.behind - {m}, introducing := s.introducing - {m})
    else s
  }

  predicate Newcomer(s: NodeState, from: nat) {
    s.view.Status(from) != Some(Alive) && s.view.Status(from) != Some(Suspect)
  }

  function Receive(s: NodeState, from: nat, msg: Message, now: nat): NodeState {
    if s.left || from == s.view.local || !WellFormed(from, msg) then s
    else
      var marked := s.(behind := if IsBehind(s, from, msg) then s.behind + {from} else s.behind - {from});
      var learned := LearnAll(marked, msg.updates, now);
      if msg.Leaving? then DepartPeer(learned, from)
      else if Newcomer(s, from) && learned.view.Status(from) == Some(Alive) then
        learned.(introducing := learned.introducing[from := None])
      else learned
  }

  // ------------------------------------------------------- ticks, probes, leaving

  function PushAll(q: Queue, news: seq<Update>): Queue {
    if news == [] then q else Push(PushAll(q, news[..|news| - 1]), news[|news| - 1])
  }

  /** Suspects expire, newcomers gone are no longer introduced, the dead are
      forgotten. */
  function TickAt(s: NodeState, now: nat, timeout: nat, ttl: nat): NodeState {
    if s.left then s
    else
      var dead := s.view.Deaths(Sorted(s.view.Expired(now, timeout)));
      var v := s.view.ExpireSuspects(now, timeout);
      var kept := v.ForgetDead(now, ttl);
      s.(view := kept, queue := PushAll(s.queue, dead),
         introducing := map m | m in s.introducing && (m == v.local || v.IsLive(m)) :: s.introducing[m],
         behind := if |kept.members| < |v.members| then set m | m in s.behind && kept.Status(m).Some? else s.behind)
  }

  /** A probe of `m` went unanswered. */
  function Missed(s: NodeState, m: nat, now: nat): NodeState {
    var u := s.view.Suspicion(m);
    if s.left || u.None? then s
    else s.(view := s.view.SuspectAt(m, now), queue := Push(s.queue, u.value))
  }

  function LeaveNews(s: NodeState): Update { s.view.Own().(status := Dead) }

  // -------------------------------------------------------------------- the node

  class Node {
    var view: View
    var queue: Queue
    var behind: set<nat>
    var introducing: map<nat, Option<nat>>
    var left: bool
    var conflicts: nat

    function Abs(): NodeState
      reads this
    {
      NodeState(view, queue, behind, introducing, left, conflicts)
    }

    constructor (local: nat, addr: nat)
      ensures Abs() == NewNode(local, addr)
    {
      view, queue, behind, introducing, left, conflicts := NewView(local, addr), map[], {}, map[], false, 0;
    }

    method LearnOne(u: Update, now: nat)
      modifies this`view, this`queue, this`conflicts
      ensures Abs() == Learn(old(Abs()), u, now)
    {
      var (applied, v) := view.Apply(u, now);
      view := v;
      match applied {
        case Ignored =>
        case Refused =>
        case Accepted(_) => queue := Push(queue, u);
        case Refuted(alive) =>
          if u.status == Alive {
            conflicts := conflicts + 1;
          }
          queue := Push(queue, alive);
      }
    }

    method ReceiveMessage(from: nat, msg: Message, now: nat)
      modifies this
      ensures Abs() == Receive(old(Abs()), from, msg, now)
    {
      if left || from == view.local || !WellFormed(from, msg) {
        return;
      }
      if IsBehind(Abs(), from, msg) {
        behind := behind + {from};
      } else {
        behind := behind - {from};
      }
      var newcomer := Newcomer(Abs(), from);
      ghost var marked := Abs();
      var i := 0;
      while i < |msg.updates|
        invariant i <= |msg.updates| && Abs() == LearnAll(marked, msg.updates[..i], now)
      {
        assert msg.updates[..i + 1][..i] == msg.updates[..i];
        LearnOne(msg.updates[i], now);
        i := i + 1;
      }
      assert msg.updates[..i] == msg.updates;
      if msg.Leaving? {
        if view.CanDepart(from) {
          view := view.Depart(from);
          behind := behind - {from};
          introducing := introducing - {from};
        }
        return;
      }
      if newcomer && view.Status(from) == Some(Alive) {
        introducing := introducing[from := None];
      }
    }

    /** The updates of a message to `to`. */
    method OutgoingTo(to: nat) returns (updates: seq<Update>)
      modifies this`queue, this`introducing
      ensures (updates, Abs()) == Outgoing(old(Abs()), to)
    {
      var (opening, q) := Opening(Abs(), to);
      queue := q;
      updates := opening;
      if to in introducing {
        var last, told;
        updates, last, told := IntroduceTo(to, opening, introducing[to]);
        introducing := if told then introducing - {to} else introducing[to := last];
      }
    }

    method IntroduceTo(to: nat, opening: seq<Update>, start: Option<nat>)
      returns (updates: seq<Update>, last: Option<nat>, allTold: bool)
      ensures (updates, last, allTold) == Introduce(view, to, opening, start)
    {
      updates, last, allTold := opening, start, false;
      while |updates| < MAX_UPDATES
        invariant Introduce(view, to, updates, last) == Introduce(view, to, opening, start)
        decreases |Ahead(view, last)|
      {
        match NextLiveAfter(view, last) {
          case None => return updates, last, true;
          case Some(m) =>
            CursorMovesOn(view, last);
            last := Some(m);
            if m != to && m !in Named(updates) {
              updates := updates + [view.Record(m)];
            }
        }
      }
    }
  }

  // --------------------------------------------------------- what a message holds

  /** Every list built opens with the own record and fits one message. */
  lemma OutgoingFits(s: NodeState, to: nat)
    ensures 1 <= |Outgoing(s, to).0| <= MAX_UPDATES && Outgoing(s, to).0[0] == s.view.Own()
    ensures CheckLimits(Outgoing(s, to).0, []).Pass?
    ensures s.view.UpdateAbout(to).Some? && s.view.UpdateAbout(to).value.status != Alive ==>
              s.view.UpdateAbout(to).value in Outgoing(s, to).0
  {
    var opening := Opening(s, to).0;
    var accusation := Accusation(s, to);
    if accusation.Some? {
      assert accusation.value in opening;
    }
    if to in s.introducing {
      var all := Introduce(s.view, to, opening, s.introducing[to]).0;
      assert all[..|opening|] == opening;
      assert forall u :: u in opening ==> u in all;
    }
  }

  /** What one message of an introduction does: the cursor passes live members in
      order, each named in this very message unless it is the newcomer itself,
      and stops only for want of room or because none is left. */
  lemma {:induction false} IntroductionNames(v: View, to: nat, updates: seq<Update>, last: Option<nat>)
    ensures
      var (all, cursor, told) := Introduce(v, to, updates, last);
      && (forall m :: m in Ahead(v, last) && (told || m !in Ahead(v, cursor)) && m != to ==> m in Named(all))
      && Ahead(v, cursor) <= Ahead(v, last)
      && (told ==> Ahead(v, cursor) == {})
      && (!told ==> |all| >= MAX_UPDATES)
      && (!told && |updates| < MAX_UPDATES ==> |Ahead(v, cursor)| < |Ahead(v, last)|)
    decreases |Ahead(v, last)|
  {
    if |updates| < MAX_UPDATES {
      match NextLiveAfter(v, last) {
        case None =>
          assert forall m: nat :: m in Ahead(v, last) ==> v.IsLive(m);
        case Some(m) =>
          CursorMovesOn(v, last);
          var next := if m != to && m !in Named(updates) then updates + [v.Record(m)] else updates;
          IntroductionNames(v, to, next, Some(m));
          if m != to {
            assert m in Named(next) by {
              if m !in Named(updates) {
                assert next[|updates|] == v.Record(m);
                assert v.Record(m) in next;
              }
            }
            NamedGrows(next, Introduce(v, to, updates, last).0, m);
          }
      }
    }
  }

  lemma NamedGrows(a: seq<Update>, b: seq<Update>, m: nat)
    requires a <= b && m in Named(a)
    ensures m in Named(b)
  {
    var u :| u in a && u.member == m;
    assert u in b;
  }

  /** Successive messages to one peer while membership is stable: `trace` is the node
      before each. In between it may learn gossip, serve other peers and change its mind
      about who is behind. */
  ghost predicate Messages(trace: seq<NodeState>, to: nat, v: View) {
    && (forall i :: 0 <= i < |trace| ==> trace[i].view == v)
    && forall i, j :: 0 <= i < j < |trace| && j == i + 1 ==>
         SameIntroduction(Outgoing(trace[i], to).1.introducing, trace[j].introducing, to)
  }

  predicate SameIntroduction(a: map<nat, Option<nat>>, b: map<nat, Option<nat>>, to: nat) {
    (to in a <==> to in b) && (to in a ==> a[to] == b[to])
  }

  /** How many of the messages gossip and accusation leave some room in. */
  function WithRoom(trace: seq<NodeState>, to: nat): nat {
    if trace == [] then 0
    else (if |Opening(trace[0], to).0| < MAX_UPDATES then 1 else 0) + WithRoom(trace[1..], to)
  }

  lemma TheMessagesAfter(trace: seq<NodeState>, to: nat, v: View)
    requires |trace| > 1 && Messages(trace, to, v)
    ensures Messages(trace[1..], to, v) && trace[1..][|trace| - 2] == trace[|trace| - 1]
    ensures SameIntroduction(Outgoing(trace[0], to).1.introducing, trace[1..][0].introducing, to)
  {
  }

  lemma OverIsOver(s: NodeState, to: nat)
    requires to !in s.introducing
    ensures to !in Outgoing(s, to).1.introducing
  {
  }

  lemma {:induction false} IntroductionStaysOver(trace: seq<NodeState>, to: nat, v: View, i: nat)
    requires Messages(trace, to, v) && i < |trace| && to !in Outgoing(trace[0], to).1.introducing
    ensures to !in Outgoing(trace[i], to).1.introducing
  {
    if i > 0 {
      IntroductionStaysOver(trace, to, v, i - 1);
      OverIsOver(trace[i], to);
    }
  }

  /** What one message does for its introduction: whoever the stored cursor passes is named in
      the list sent, all that were left if it ends there, and with room it passes someone. */
  lemma MessageNames(s: NodeState, to: nat, start: Option<nat>)
    requires to in s.introducing && s.introducing[to] == start
    ensures var (all, after) := Outgoing(s, to);
            if to !in after.introducing then forall m :: m in Ahead(s.view, start) && m != to ==> m in Named(all)
            else
              var ahead := Ahead(s.view, after.introducing[to]);
              && (forall m :: m in Ahead(s.view, start) && m !in ahead && m != to ==> m in Named(all))
              && |ahead| <= |Ahead(s.view, start)|
              && (|Opening(s, to).0| < MAX_UPDATES ==> |ahead| < |Ahead(s.view, start)|)
  {
    IntroductionNames(s.view, to, Opening(s, to).0, start);
    SubsetIsSmaller(Ahead(s.view, Introduce(s.view, to, Opening(s, to).0, start).1), Ahead(s.view, start));
  }

  /** More messages with room than there are live members left to name end the introduction. */
  lemma {:induction false} IntroductionEnds(trace: seq<NodeState>, to: nat, v: View)
    requires trace != [] && to in trace[0].introducing && Messages(trace, to, v)
    requires WithRoom(trace, to) > |Ahead(v, trace[0].introducing[to])|
    ensures to !in Outgoing(trace[|trace| - 1], to).1.introducing
    decreases |trace|
  {
    MessageNames(trace[0], to, trace[0].introducing[to]);
    if to !in Outgoing(trace[0], to).1.introducing {
      IntroductionStaysOver(trace, to, v, |trace| - 1);
    } else {
      assert WithRoom(trace[1..], to) > |Ahead(v, Outgoing(trace[0], to).1.introducing[to])|;
      TheMessagesAfter(trace, to, v);
      IntroductionEnds(trace[1..], to, v);
    }
  }

  /** Who is ahead of the stored cursor before a message and is not named in it is ahead after. */
  lemma NotYetNamed(s: NodeState, to: nat, m: nat)
    requires to in s.introducing && m in Ahead(s.view, s.introducing[to]) && m != to
    requires m !in Named(Outgoing(s, to).0)
    ensures to in Outgoing(s, to).1.introducing && m in Ahead(s.view, Outgoing(s, to).1.introducing[to])
  {
    MessageNames(s, to, s.introducing[to]);
  }

  predicate StillAhead(s: NodeState, to: nat, m: nat) {
    to in s.introducing && m in Ahead(s.view, s.introducing[to])
  }

  /** An introduction that ends has named everyone ahead in one of its messages. */
  lemma {:induction false} AheadIsNamed(trace: seq<NodeState>, to: nat, v: View, m: nat, i: nat)
    requires i < |trace| && Messages(trace, to, v) && StillAhead(trace[0], to, m) && m != to
    requires forall j :: 0 <= j < i ==> m !in Named(Outgoing(trace[j], to).0)
    ensures StillAhead(trace[i], to, m)
  {
    if i > 0 {
      AheadIsNamed(trace, to, v, m, i - 1);
      NotYetNamed(trace[i - 1], to, m);
    }
  }

  /** Main result for introductions: what a node sends a newcomer names, between its messages,
      every live member it knows, and then the introduction is over. One message with room for
      each of them and one more are always enough. */
  lemma NewcomerIsToldOfAll(trace: seq<NodeState>, to: nat, v: View)
    requires trace != [] && to in trace[0].introducing && trace[0].introducing[to] == None
    requires Messages(trace, to, v) && WithRoom(trace, to) > |v.LiveSet()|
    ensures to !in Outgoing(trace[|trace| - 1], to).1.introducing
    ensures forall m :: v.IsLive(m) && m != to ==>
              exists i :: 0 <= i < |trace| && m in Named(Outgoing(trace[i], to).0)
  {
    assert Ahead(v, None) == v.LiveSet();
    IntroductionEnds(trace, to, v);
    forall m | v.IsLive(m) && m != to ensures exists i :: 0 <= i < |trace| && m in Named(Outgoing(trace[i], to).0) {
      if forall i :: 0 <= i < |trace| ==> m !in Named(Outgoing(trace[i], to).0) {
        AheadIsNamed(trace, to, v, m, |trace| - 1);
        NotYetNamed(trace[|trace| - 1], to, m);
      }
    }
  }

  // ------------------------------------------------------------------- the gossip spreads

  function Limit(s: NodeState): nat { RetransmitLimit(ClusterSize(s.view)) }

  /** What is left to send of the news queued. */
  function ToSend(s: NodeState): nat { Remaining(s.queue, s.queue.Keys, Limit(s)) }

  /** A message carries all the news it has room for beside the accusation, the least sent
      first, and each transmission is counted. */
  lemma OutgoingSpreads(s: NodeState, to: nat)
    requires Unspent(s.queue, Limit(s))
    ensures var (updates, after) := Outgoing(s, to); var news := Take(s.queue, Room(s, to), Limit(s)).0;
            && (forall i :: 0 <= i < |news| ==> news[i] in updates)
            && |news| == Quotas.Min(Room(s, to), |s.queue|) && Room(s, to) >= MAX_UPDATES - 2
            && after.view == s.view && Unspent(after.queue, Limit(s))
            && ToSend(after) + |news| == ToSend(s)
  {
    TakeDrains(s.queue, Room(s, to), Limit(s));
    RunKeepsUnspent(s.queue, [Message(Room(s, to))], Limit(s));
    assert [Message(Room(s, to))][..0] == [];
    var (updates, after) := Outgoing(s, to);
    var opening := Opening(s, to).0;
    var news := Take(s.queue, Room(s, to), Limit(s)).0;
    assert opening <= updates;
    forall i | 0 <= i < |news| ensures news[i] in updates {
      assert news[i] in news;
      assert news[i] in opening;
    }
  }

  /** Nothing is learnt between the messages. */
  ghost predicate Quiet(trace: seq<NodeState>, to: nat) {
    forall i, j :: 0 <= i < j < |trace| && j == i + 1 ==> trace[j].queue == Outgoing(trace[i], to).1.queue
  }

  lemma {:induction false} QuietMessagesHaveRoom(trace: seq<NodeState>, to: nat, v: View)
    requires trace != [] && Messages(trace, to, v) && Quiet(trace, to) && Unspent(trace[0].queue, Limit(trace[0]))
    ensures WithRoom(trace, to) + ToSend(trace[0]) >= |trace|
    decreases |trace|
  {
    OutgoingSpreads(trace[0], to);
    if trace[0].queue == map[] {
      assert |Opening(trace[0], to).0| < MAX_UPDATES;
    }
    if |trace| > 1 {
      TheMessagesAfter(trace, to, v);
      QuietMessagesHaveRoom(trace[1..], to, v);
    }
  }

  /** So a node that learns nothing new meanwhile has told a newcomer of everyone after as
      many messages as it has live members and transmissions left to make, and one more. */
  lemma AQuietNodeTellsOfAll(trace: seq<NodeState>, to: nat, v: View)
    requires trace != [] && to in trace[0].introducing && trace[0].introducing[to] == None
    requires Messages(trace, to, v) && Quiet(trace, to) && Unspent(trace[0].queue, Limit(trace[0]))
    requires |trace| > |v.LiveSet()| + ToSend(trace[0])
    ensures to !in Outgoing(trace[|trace| - 1], to).1.introducing
    ensures forall m :: v.IsLive(m) && m != to ==>
              exists i :: 0 <= i < |trace| && m in Named(Outgoing(trace[i], to).0)
  {
    QuietMessagesHaveRoom(trace, to, v);
    NewcomerIsToldOfAll(trace, to, v);
  }
}
