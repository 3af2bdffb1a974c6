/** A cluster of nodes over a network that loses, duplicates and reorders
    datagrams (rateguard-core/src/member.rs, rateguard-core/src/node.rs). Nodes do
    not restart and share no ID.
 */
module Cluster {
  import opened Wrappers
  import opened Proto
  import opened Member
  import opened Gossip
  import opened Swim

  datatype Datagram = Datagram(from: nat, to: nat, msg: Message)

  /** `net` holds everything ever sent: what is in it may be delivered any number
      of times, in any order, or never. */
  datatype State = State(nodes: map<nat, NodeState>, net: set<Datagram>)

  datatype Move =
    | Send(from: nat, to: nat)
    | Deliver(d: Datagram, now: nat)
    | Tick(node: nat, now: nat, timeout: nat, ttl: nat)
    | Miss(node: nat, peer: nat, now: nat)
    | Introduced(node: nat, peer: nat, addr: nat, now: nat)
    | Leave(node: nat)

  /** Whose node a move changes. */
  function Mover(m: Move): nat {
    match m
    case Send(from, _) => from
    case Deliver(d, _) => d.to
    case Tick(node, _, _, _) => node
    case Miss(node, _, _) => node
    case Introduced(node, _, _, _) => node
    case Leave(node) => node
  }

  predicate Enabled(st: State, m: Move) {
    && Mover(m) in st.nodes
    && match m
       case Send(from, _) => !st.nodes[from].left
       case Deliver(d, _) => d in st.net
       case Introduced(node, peer, _, _) => peer != node
       case Leave(node) => !st.nodes[node].left
       case _ => true
  }

  /** The mover's next state. */
  function Moved(st: State, m: Move): NodeState
    requires Enabled(st, m)
  {
    var s := st.nodes[Mover(m)];
    match m
    case Send(_, to) => Outgoing(s, to).1
    case Deliver(d, now) => Receive(s, d.from, d.msg, now)
    case Tick(_, now, timeout, ttl) => TickAt(s, now, timeout, ttl)
    case Miss(_, peer, now) => Missed(s, peer, now)
    case Introduced(_, peer, addr, now) => s.(view := s.view.Apply(Update(peer, addr, 0, Alive), now).1)
    case Leave(_) => s.(left := true)
  }

  /** What the move puts on the wire. */
  function Sent(st: State, m: Move): set<Datagram>
    requires Enabled(st, m)
  {
    var s := st.nodes[Mover(m)];
    match m
    case Send(from, to) => {Datagram(from, to, News(Outgoing(s, to).0))}
    case Leave(node) => set peer | peer in s.view.LiveSet() :: Datagram(node, peer, Leaving([LeaveNews(s)]))
    case _ => {}
  }

  function Next(st: State, m: Move): State
    requires Enabled(st, m)
  {
    State(st.nodes[Mover(m) := Moved(st, m)], st.net + Sent(st, m))
  }

  // -------------------------------------------------------------------- invariant

  /** Each node's own incarnation. */
  type Caps = map<nat, nat>

  function CapsOf(st: State): Caps {
    map n | n in st.nodes :: st.nodes[n].view.incarnation
  }

  /** A record is not above the incarnation its own member is at. */
  predicate RecordOk(u: Update, caps: Caps) {
    u.incarnation <= U32_MAX && (u.member in caps ==> u.incarnation <= caps[u.member])
  }

  ghost predicate NodeOk(s: NodeState, caps: Caps) {
    && s.view.Valid() && s.conflicts == 0
    && s.view.local in caps && caps[s.view.local] == s.view.incarnation
    && (forall m :: m in s.view.members ==> RecordOk(s.view.Record(m), caps))
    && (forall m :: m in s.queue ==> s.queue[m].update.member == m && RecordOk(s.queue[m].update, caps))
  }

  /** A leave is its sender's last word. */
  ghost predicate LeaveOk(d: Datagram, st: State) {
    d.msg.Leaving? ==>
      && |d.msg.updates| == 1 && d.from in st.nodes && st.nodes[d.from].left
      && d.msg.updates[0] == LeaveNews(st.nodes[d.from])
  }

  ghost predicate DatagramOk(d: Datagram, st: State) {
    && (forall i :: 0 <= i < |d.msg.updates| ==> RecordOk(d.msg.updates[i], CapsOf(st)))
    && LeaveOk(d, st)
  }

  ghost predicate Inv(st: State) {
    && (forall n :: n in st.nodes ==> st.nodes[n].view.local == n && NodeOk(st.nodes[n], CapsOf(st)))
    && (forall d :: d in st.net ==> DatagramOk(d, st))
  }

  predicate AtLeast(caps: Caps, caps': Caps) {
    caps.Keys == caps'.Keys && forall m :: m in caps ==> caps[m] <= caps'[m]
  }

  /** A node after some work of its own: still in order under its new cap, which
      has not fallen. */
  ghost predicate Grown(s: NodeState, s': NodeState, caps: Caps) {
    && s'.view.local == s.view.local && s.view.incarnation <= s'.view.incarnation
    && NodeOk(s', caps[s.view.local := s'.view.incarnation])
  }

  lemma LearnGrows(s: NodeState, u: Update, now: nat, caps: Caps)
    requires NodeOk(s, caps) && RecordOk(u, caps)
    ensures Grown(s, Learn(s, u, now), caps)
    ensures Learn(s, u, now).left == s.left
  {
    var caps' := caps[s.view.local := Learn(s, u, now).view.incarnation];
    if u.member == s.view.local && s.view.Apply(u, now).0.Refuted? {
      forall m | m in s.view.members ensures RecordOk(s.view.Record(m), caps') {
        assert RecordOk(s.view.Record(m), caps);
      }
      forall m | m in s.queue ensures s.queue[m].update.member == m && RecordOk(s.queue[m].update, caps') {
        assert RecordOk(s.queue[m].update, caps);
      }
    } else {
      assert caps' == caps;
      LearnNewsGrows(s, u, now, caps);
    }
  }

  lemma ApplyKeepsRecords(v: View, u: Update, now: nat, caps: Caps)
    requires v.Valid() && RecordOk(u, caps) && forall m :: m in v.members ==> RecordOk(v.Record(m), caps)
    requires !v.Apply(u, now).0.Refuted?
    ensures var w := v.Apply(u, now).1;
            && w.Valid() && w.local == v.local && w.incarnation == v.incarnation
            && forall m :: m in w.members ==> RecordOk(w.Record(m), caps)
  {
    var w := v.Apply(u, now).1;
    forall m | m in w.members ensures RecordOk(w.Record(m), caps) {
      if m in v.members {
        assert RecordOk(v.Record(m), caps);
      }
    }
  }

  lemma LearnNewsGrows(s: NodeState, u: Update, now: nat, caps: Caps)
    requires NodeOk(s, caps) && RecordOk(u, caps) && !s.view.Apply(u, now).0.Refuted?
    ensures NodeOk(Learn(s, u, now), caps)
    ensures Learn(s, u, now).view.incarnation == s.view.incarnation
  {
    ApplyKeepsRecords(s.view, u, now, caps);
  }

  lemma {:induction false} LearnAllGrows(s: NodeState, news: seq<Update>, now: nat, caps: Caps)
    requires NodeOk(s, caps) && forall i :: 0 <= i < |news| ==> RecordOk(news[i], caps)
    ensures Grown(s, LearnAll(s, news, now), caps)
    ensures LearnAll(s, news, now).left == s.left
  {
    if news == [] {
      assert caps[s.view.local := s.view.incarnation] == caps;
    } else {
      var n := |news| - 1;
      LearnAllGrows(s, news[..n], now, caps);
      var mid := LearnAll(s, news[..n], now);
      var caps' := caps[s.view.local := mid.view.incarnation];
      LearnGrows(mid, news[n], now, caps');
      assert caps'[s.view.local := LearnAll(s, news, now).view.incarnation]
          == caps[s.view.local := LearnAll(s, news, now).view.incarnation];
    }
  }

  lemma ReceiveGrows(s: NodeState, from: nat, msg: Message, now: nat, caps: Caps)
    requires NodeOk(s, caps) && forall i :: 0 <= i < |msg.updates| ==> RecordOk(msg.updates[i], caps)
    ensures Grown(s, Receive(s, from, msg, now), caps)
    ensures Receive(s, from, msg, now).left == s.left
  {
    if s.left || from == s.view.local || !WellFormed(from, msg) {
      assert caps[s.view.local := s.view.incarnation] == caps;
    } else {
      var marked := s.(behind := if IsBehind(s, from, msg) then s.behind + {from} else s.behind - {from});
      LearnAllGrows(marked, msg.updates, now, caps);
      var learned := LearnAll(marked, msg.updates, now);
      if msg.Leaving? && learned.view.CanDepart(from) {
        DepartKeeps(learned, from, caps[s.view.local := learned.view.incarnation]);
      }
    }
  }

  lemma DepartKeeps(s: NodeState, m: nat, caps: Caps)
    requires NodeOk(s, caps) && s.view.CanDepart(m)
    ensures NodeOk(DepartPeer(s, m), caps)
  {
    var s' := DepartPeer(s, m);
    forall x | x in s'.view.members ensures RecordOk(s'.view.Record(x), caps) {
      assert RecordOk(s.view.Record(x), caps);
    }
  }

  lemma {:induction false} PushAllKeeps(q: Queue, news: seq<Update>, caps: Caps)
    requires forall m :: m in q ==> q[m].update.member == m && RecordOk(q[m].update, caps)
    requires forall i :: 0 <= i < |news| ==> RecordOk(news[i], caps)
    ensures forall m :: m in PushAll(q, news) ==>
              PushAll(q, news)[m].update.member == m && RecordOk(PushAll(q, news)[m].update, caps)
  {
    if news != [] {
      PushAllKeeps(q, news[..|news| - 1], caps);
    }
  }

  lemma TickKeeps(s: NodeState, now: nat, timeout: nat, ttl: nat, caps: Caps)
    requires NodeOk(s, caps)
    ensures NodeOk(TickAt(s, now, timeout, ttl), caps)
    ensures TickAt(s, now, timeout, ttl).view.incarnation == s.view.incarnation
    ensures TickAt(s, now, timeout, ttl).view.local == s.view.local
    ensures TickAt(s, now, timeout, ttl).left == s.left
  {
    if !s.left {
      var dead := s.view.Deaths(Sorted(s.view.Expired(now, timeout)));
      forall i | 0 <= i < |dead| ensures RecordOk(dead[i], caps) {
        assert RecordOk(s.view.Record(Sorted(s.view.Expired(now, timeout))[i]), caps);
      }
      PushAllKeeps(s.queue, dead, caps);
      var s' := TickAt(s, now, timeout, ttl);
      forall m | m in s'.view.members ensures RecordOk(s'.view.Record(m), caps) {
        assert RecordOk(s.view.Record(m), caps);
      }
    }
  }

  lemma MissedKeeps(s: NodeState, m: nat, now: nat, caps: Caps)
    requires NodeOk(s, caps)
    ensures NodeOk(Missed(s, m, now), caps)
    ensures Missed(s, m, now).view.incarnation == s.view.incarnation
    ensures Missed(s, m, now).view.local == s.view.local && Missed(s, m, now).left == s.left
  {
    var u := s.view.Suspicion(m);
    if !s.left && u.Some? {
      assert RecordOk(s.view.Record(m), caps);
      LearnNewsGrows(s, u.value, now, caps);
      assert Missed(s, m, now).view == Learn(s, u.value, now).view;
    }
  }

  lemma OutgoingKeeps(s: NodeState, to: nat, caps: Caps)
    requires NodeOk(s, caps)
    ensures NodeOk(Outgoing(s, to).1, caps)
    ensures Outgoing(s, to).1.view == s.view && Outgoing(s, to).1.left == s.left
    ensures forall i :: 0 <= i < |Outgoing(s, to).0| ==> RecordOk(Outgoing(s, to).0[i], caps)
  {
    var q := Opening(s, to).1;
    forall m | m in q ensures q[m].update.member == m && RecordOk(q[m].update, caps) {
      assert m in s.queue && q[m].update == s.queue[m].update;
    }
    OpeningOk(s, to, caps);
    if to in s.introducing {
      IntroduceOk(s.view, to, Opening(s, to).0, s.introducing[to], caps);
    }
  }

  ghost predicate AllOk(updates: seq<Update>, caps: Caps) {
    forall i :: 0 <= i < |updates| ==> RecordOk(updates[i], caps)
  }

  lemma NewsOk(q: Queue, max: nat, limit: nat, caps: Caps)
    requires forall m :: m in q ==> RecordOk(q[m].update, caps)
    ensures AllOk(Take(q, max, limit).0, caps)
  {
    var picks := Picks(q, q.Keys, max);
    forall i | 0 <= i < |picks| ensures RecordOk(Gossip.News(q, picks)[i], caps) {
      assert picks[i] in q;
    }
  }

  lemma OpeningOk(s: NodeState, to: nat, caps: Caps)
    requires NodeOk(s, caps)
    ensures AllOk(Opening(s, to).0, caps)
  {
    var own := s.view.Own();
    var room, limit := Room(s, to), RetransmitLimit(ClusterSize(s.view));
    var news := Take(s.queue, room, limit).0;
    NewsOk(s.queue, room, limit, caps);
    assert RecordOk(own, caps);
    AllOkWithout(news, own, caps);
    AccusationOk(s, to, caps);
    assert AllOk([own] + Without(news, own), caps);
  }

  lemma AccusationOk(s: NodeState, to: nat, caps: Caps)
    requires NodeOk(s, caps)
    ensures Accusation(s, to).Some? ==> RecordOk(Accusation(s, to).value, caps)
  {
    if to in s.view.members {
      assert RecordOk(s.view.Record(to), caps);
    }
  }

  lemma AllOkWithout(news: seq<Update>, own: Update, caps: Caps)
    requires AllOk(news, caps)
    ensures AllOk(Without(news, own), caps)
  {
    forall i | 0 <= i < |Without(news, own)| ensures RecordOk(Without(news, own)[i], caps) {
      assert Without(news, own)[i] in news;
    }
  }

  lemma {:induction false} IntroduceOk(v: View, to: nat, updates: seq<Update>, last: Option<nat>, caps: Caps)
    requires AllOk(updates, caps) && forall m :: m in v.members ==> RecordOk(v.Record(m), caps)
    ensures AllOk(Introduce(v, to, updates, last).0, caps)
    decreases |Ahead(v, last)|
  {
    if |updates| < MAX_UPDATES && NextLiveAfter(v, last).Some? {
      var m := NextLiveAfter(v, last).value;
      CursorMovesOn(v, last);
      assert RecordOk(v.Record(m), caps);
      IntroduceOk(v, to, if m != to && m !in Named(updates) then updates + [v.Record(m)] else updates, Some(m), caps);
    }
  }

  lemma IntroducedKeeps(s: NodeState, peer: nat, addr: nat, now: nat, caps: Caps)
    requires NodeOk(s, caps) && peer != s.view.local
    ensures NodeOk(s.(view := s.view.Apply(Update(peer, addr, 0, Alive), now).1), caps)
    ensures s.view.Apply(Update(peer, addr, 0, Alive), now).1.incarnation == s.view.incarnation
    ensures s.view.Apply(Update(peer, addr, 0, Alive), now).1.local == s.view.local
  {
    var u := Update(peer, addr, 0, Alive);
    LearnNewsGrows(s, u, now, caps);
    assert Learn(s, u, now).view == s.view.Apply(u, now).1;
  }

  lemma SameCaps(s: NodeState, s': NodeState, caps: Caps)
    requires NodeOk(s, caps) && NodeOk(s', caps) && s'.view.incarnation == s.view.incarnation
        && s'.view.local == s.view.local
    ensures Grown(s, s', caps)
  {
    assert caps[s.view.local := s'.view.incarnation] == caps;
  }

  lemma MoverGrows(st: State, m: Move)
    requires Inv(st) && Enabled(st, m)
    ensures Grown(st.nodes[Mover(m)], Moved(st, m), CapsOf(st))
    ensures st.nodes[Mover(m)].left ==> Moved(st, m).left
    ensures !m.Leave? ==> Moved(st, m).left == st.nodes[Mover(m)].left
  {
    var s, caps := st.nodes[Mover(m)], CapsOf(st);
    match m
    case Send(_, to) => OutgoingKeeps(s, to, caps); SameCaps(s, Moved(st, m), caps);
    case Deliver(d, now) => assert DatagramOk(d, st); ReceiveGrows(s, d.from, d.msg, now, caps);
    case Tick(_, now, timeout, ttl) => TickKeeps(s, now, timeout, ttl, caps); SameCaps(s, Moved(st, m), caps);
    case Miss(_, peer, now) => MissedKeeps(s, peer, now, caps); SameCaps(s, Moved(st, m), caps);
    case Introduced(_, peer, addr, now) => IntroducedKeeps(s, peer, addr, now, caps); SameCaps(s, Moved(st, m), caps);
    case Leave(_) => SameCaps(s, Moved(st, m), caps);
  }

  /** Who has left says and hears nothing more: its record is its last. */
  lemma TheLeftStayPut(st: State, m: Move)
    requires Inv(st) && Enabled(st, m) && st.nodes[Mover(m)].left
    ensures Moved(st, m).left && Moved(st, m).view.Own() == st.nodes[Mover(m)].view.Own()
  {
    if m.Introduced? {
      IntroducedKeeps(st.nodes[m.node], m.peer, m.addr, m.now, CapsOf(st));
    }
  }

  lemma NextCaps(st: State, m: Move)
    requires Inv(st) && Enabled(st, m)
    ensures CapsOf(Next(st, m)) == CapsOf(st)[Mover(m) := Moved(st, m).view.incarnation]
    ensures AtLeast(CapsOf(st), CapsOf(Next(st, m)))
  {
    MoverGrows(st, m);
    assert st.nodes[Mover(m)].view.incarnation <= Moved(st, m).view.incarnation;
  }

  lemma OkStaysOk(u: Update, caps: Caps, caps': Caps)
    requires RecordOk(u, caps) && AtLeast(caps, caps')
    ensures RecordOk(u, caps')
  {
  }

  lemma BystanderOk(s: NodeState, caps: Caps, caps': Caps)
    requires NodeOk(s, caps) && AtLeast(caps, caps') && caps'[s.view.local] == caps[s.view.local]
    ensures NodeOk(s, caps')
  {
    forall m | m in s.view.members ensures RecordOk(s.view.Record(m), caps') {
      assert RecordOk(s.view.Record(m), caps);
    }
    forall m | m in s.queue ensures s.queue[m].update.member == m && RecordOk(s.queue[m].update, caps') {
      assert RecordOk(s.queue[m].update, caps);
    }
  }

  lemma OldDatagramOk(st: State, m: Move, d: Datagram)
    requires Inv(st) && Enabled(st, m) && d in st.net
    ensures DatagramOk(d, Next(st, m))
  {
    NextCaps(st, m);
    assert DatagramOk(d, st);
    forall i | 0 <= i < |d.msg.updates| ensures RecordOk(d.msg.updates[i], CapsOf(Next(st, m))) {
      OkStaysOk(d.msg.updates[i], CapsOf(st), CapsOf(Next(st, m)));
    }
    if d.msg.Leaving? && d.from == Mover(m) {
      TheLeftStayPut(st, m);
    }
  }

  lemma NewDatagramOk(st: State, m: Move, d: Datagram)
    requires Inv(st) && Enabled(st, m) && d in Sent(st, m)
    ensures DatagramOk(d, Next(st, m))
  {
    NextCaps(st, m);
    var s := st.nodes[Mover(m)];
    if m.Send? {
      OutgoingKeeps(s, m.to, CapsOf(st));
      forall i | 0 <= i < |d.msg.updates| ensures RecordOk(d.msg.updates[i], CapsOf(Next(st, m))) {
        OkStaysOk(d.msg.updates[i], CapsOf(st), CapsOf(Next(st, m)));
      }
    }
  }

  lemma NextKeepsInv(st: State, m: Move)
    requires Inv(st) && Enabled(st, m)
    ensures Inv(Next(st, m))
  {
    var st' := Next(st, m);
    MoverGrows(st, m);
    NextCaps(st, m);
    forall n | n in st'.nodes ensures st'.nodes[n].view.local == n && NodeOk(st'.nodes[n], CapsOf(st')) {
      if n != Mover(m) {
        BystanderOk(st.nodes[n], CapsOf(st), CapsOf(st'));
      }
    }
    forall d | d in st'.net ensures DatagramOk(d, st') {
      if d in st.net {
        OldDatagramOk(st, m, d);
      } else {
        NewDatagramOk(st, m, d);
      }
    }
  }

  // ------------------------------------------------------------------------- runs

  ghost predicate Run(trace: seq<State>, moves: seq<Move>) {
    && |trace| == |moves| + 1
    && forall i :: 0 <= i < |moves| ==> Enabled(trace[i], moves[i]) && trace[i + 1] == Next(trace[i], moves[i])
  }

  /** Nodes that know only themselves, and nothing on the wire. */
  ghost predicate Start(st: State) {
    && st.net == {}
    && forall n :: n in st.nodes ==> exists addr :: st.nodes[n] == NewNode(n, addr)
  }

  lemma {:induction false} RunKeepsInv(trace: seq<State>, moves: seq<Move>, i: nat)
    requires Run(trace, moves) && Start(trace[0]) && i < |trace|
    ensures Inv(trace[i])
  {
    if i == 0 {
      forall n | n in trace[0].nodes ensures trace[0].nodes[n].view.local == n
          && NodeOk(trace[0].nodes[n], CapsOf(trace[0])) {
        var addr :| trace[0].nodes[n] == NewNode(n, addr);
      }
    } else {
      RunKeepsInv(trace, moves, i - 1);
      NextKeepsInv(trace[i - 1], moves[i - 1]);
    }
  }

  /** Said of `m` anywhere: in a table, a gossip buffer or a datagram. */
  ghost predicate Said(st: State, u: Update) {
    || (exists n :: n in st.nodes && u.member in st.nodes[n].view.members && u == st.nodes[n].view.Record(u.member))
    || (exists n :: n in st.nodes && u.member in st.nodes[n].queue && u == st.nodes[n].queue[u.member].update)
    || (exists d, i :: d in st.net && 0 <= i < |d.msg.updates| && u == d.msg.updates[i])
  }

  lemma SaidIsOk(st: State, u: Update)
    requires Inv(st) && Said(st, u)
    ensures RecordOk(u, CapsOf(st))
  {
    if n :| n in st.nodes && u.member in st.nodes[n].view.members && u == st.nodes[n].view.Record(u.member) {
      assert NodeOk(st.nodes[n], CapsOf(st));
    } else if n :| n in st.nodes && u.member in st.nodes[n].queue && u == st.nodes[n].queue[u.member].update {
      assert NodeOk(st.nodes[n], CapsOf(st));
    } else {
      var d, i :| d in st.net && 0 <= i < |d.msg.updates| && u == d.msg.updates[i];
      assert DatagramOk(d, st);
    }
  }

  /** Main result: whatever is lost, duplicated or reordered, nobody anywhere
      holds a record of a node above the node's own incarnation, and no node ever
      counts an identity conflict. */
  lemma NobodyIsAheadOfItself(trace: seq<State>, moves: seq<Move>, i: nat, u: Update)
    requires Run(trace, moves) && Start(trace[0]) && i < |trace|
    ensures Said(trace[i], u) && u.member in trace[i].nodes
        ==> u.incarnation <= trace[i].nodes[u.member].view.incarnation
    ensures forall n :: n in trace[i].nodes ==> trace[i].nodes[n].conflicts == 0
  {
    RunKeepsInv(trace, moves, i);
    if Said(trace[i], u) {
      SaidIsOk(trace[i], u);
    }
  }

  /** A refutation that raises the incarnation supersedes everything said of the
      node before it, wherever it was said. */
  lemma RefutationSupersedesAll(trace: seq<State>, moves: seq<Move>, i: nat, u: Update)
    requires Run(trace, moves) && Start(trace[0]) && i < |moves| && Said(trace[i], u) && u.member in trace[i].nodes
    requires trace[i + 1].nodes[u.member].view.incarnation != trace[i].nodes[u.member].view.incarnation
    ensures trace[i + 1].nodes[u.member].view.local == u.member
    ensures Supersedes(trace[i + 1].nodes[u.member].view.Own(), u)
  {
    RunKeepsInv(trace, moves, i);
    SaidIsOk(trace[i], u);
    NextCaps(trace[i], moves[i]);
    MoverGrows(trace[i], moves[i]);
  }

  /** An answer supersedes what it answers, and leaves the incarnation as it is if
      and only if that was stale. */
  lemma StaleAnswerSupersedesItsAccusation(v: View, news: Update)
    requires v.Valid() && news.member == v.local && v.Refute(news).0.Refuted?
    ensures Supersedes(v.Refute(news).0.update, news)
    ensures v.Refute(news).1.incarnation == v.incarnation <==> !Supersedes(news, v.Own())
  {
    if !Supersedes(news, v.Own()) {
      SupersedesIsRank(news, v.Own());
      SupersedesIsRank(v.Own(), news);
    }
  }

  /** Exactly what an answer supersedes of all that is said of its node: everything
      if the news it answers is none stale, and otherwise what is said at an
      earlier incarnation. */
  lemma WhatAnAnswerSupersedes(trace: seq<State>, moves: seq<Move>, i: nat, u: Update, news: Update)
    requires Run(trace, moves) && Start(trace[0]) && i < |trace| && Said(trace[i], u) && u.member in trace[i].nodes
    requires news.member == trace[i].nodes[u.member].view.local
    requires trace[i].nodes[u.member].view.Refute(news).0.Refuted?
    ensures var v := trace[i].nodes[u.member].view; var answer := v.Refute(news).0.update;
            && v.local == u.member && answer.member == u.member
            && (Supersedes(answer, u) <==> Supersedes(news, v.Own()) || u.incarnation < v.incarnation)
  {
    RunKeepsInv(trace, moves, i);
    SaidIsOk(trace[i], u);
    assert trace[i].nodes[u.member].view.local == u.member;
  }

  // ------------------------------------------------------------------ after a leave

  /** Node `a` holds `m`'s last word: dead at the incarnation it left with. */
  ghost predicate Buried(st: State, a: nat, m: nat) {
    && a in st.nodes && m in st.nodes && a != m && st.nodes[m].left
    && m in st.nodes[a].view.members
    && st.nodes[a].view.members[m].status == Dead
    && st.nodes[a].view.members[m].incarnation == st.nodes[m].view.incarnation
  }

  /** A record of the dead that nothing said can supersede. */
  lemma LearnKeepsBuried(s: NodeState, u: Update, now: nat, m: nat, caps: Caps)
    requires NodeOk(s, caps) && RecordOk(u, caps) && m in caps && m != s.view.local && m in s.view.members
    requires s.view.members[m].status == Dead && s.view.members[m].incarnation == caps[m]
    ensures m in Learn(s, u, now).view.members && Learn(s, u, now).view.members[m] == s.view.members[m]
  {
  }

  lemma {:induction false} LearnAllKeepsBuried(s: NodeState, news: seq<Update>, now: nat, m: nat, caps: Caps)
    requires NodeOk(s, caps) && m in caps && m != s.view.local && m in s.view.members
    requires forall i :: 0 <= i < |news| ==> RecordOk(news[i], caps)
    requires s.view.members[m].status == Dead && s.view.members[m].incarnation == caps[m]
    ensures m in LearnAll(s, news, now).view.members && LearnAll(s, news, now).view.members[m] == s.view.members[m]
  {
    if news != [] {
      var n := |news| - 1;
      LearnAllKeepsBuried(s, news[..n], now, m, caps);
      LearnAllGrows(s, news[..n], now, caps);
      var mid := LearnAll(s, news[..n], now);
      LearnKeepsBuried(mid, news[n], now, m, caps[s.view.local := mid.view.incarnation]);
    }
  }

  /** News of a death at the member's own incarnation leaves it dead there. */
  lemma LearnDeath(s: NodeState, u: Update, now: nat, caps: Caps)
    requires NodeOk(s, caps) && u.member in caps && u.member != s.view.local && u.status == Dead
        && u.incarnation == caps[u.member]
    requires u.member in s.view.members || s.view.Known() < s.view.max
    ensures u.member in Learn(s, u, now).view.members
    ensures var r := Learn(s, u, now).view.members[u.member]; r.status == Dead && r.incarnation == u.incarnation
  {
    if u.member in s.view.members {
      assert RecordOk(s.view.Record(u.member), caps);
    }
  }

  lemma ReceiveLeave(s: NodeState, from: nat, u: Update, now: nat, caps: Caps)
    requires NodeOk(s, caps) && !s.left && from != s.view.local
    requires u.member == from && from in caps && u.status == Dead && u.incarnation == caps[from]
    requires from in s.view.members || s.view.Known() < s.view.max
    ensures var v := Receive(s, from, Leaving([u]), now).view;
            && v.HasDeparted(from) && v.members[from].status == Dead && v.members[from].incarnation == u.incarnation
  {
    var msg := Leaving([u]);
    var marked := s.(behind := if IsBehind(s, from, msg) then s.behind + {from} else s.behind - {from});
    assert msg.updates[..0] == [] && LearnAll(marked, msg.updates, now) == Learn(marked, u, now);
    LearnDeath(marked, u, now, caps);
  }

  /** A leave delivered, and not refused by a full table, buries its sender. */
  lemma LeaveBuries(st: State, d: Datagram, now: nat)
    requires Inv(st) && Enabled(st, Deliver(d, now)) && d.msg.Leaving? && d.from != d.to && !st.nodes[d.to].left
    requires d.from in st.nodes[d.to].view.members || st.nodes[d.to].view.Known() < st.nodes[d.to].view.max
    ensures Buried(Next(st, Deliver(d, now)), d.to, d.from)
    ensures Next(st, Deliver(d, now)).nodes[d.to].view.HasDeparted(d.from)
  {
    assert DatagramOk(d, st);
    assert NodeOk(st.nodes[d.to], CapsOf(st));
    assert d.msg == Leaving([d.msg.updates[0]]);
    ReceiveLeave(st.nodes[d.to], d.from, d.msg.updates[0], now, CapsOf(st));
  }

  lemma BuriedStays(st: State, mv: Move, a: nat, m: nat)
    requires Inv(st) && Enabled(st, mv) && Buried(st, a, m)
    ensures m in Next(st, mv).nodes[a].view.members ==> Buried(Next(st, mv), a, m)
  {
    if Mover(mv) == m {
      TheLeftStayPut(st, mv);
    } else if Mover(mv) == a {
      var s := st.nodes[a];
      match mv
      case Send(_, to) => OutgoingKeeps(s, to, CapsOf(st));
      case Deliver(d, now) =>
        assert DatagramOk(d, st);
        if !s.left && d.from != s.view.local && WellFormed(d.from, d.msg) {
          var marked := s.(behind := if IsBehind(s, d.from, d.msg) then s.behind + {d.from} else s.behind - {d.from});
          LearnAllKeepsBuried(marked, d.msg.updates, now, m, CapsOf(st));
        }
      case Tick(_, _, _, _) =>
      case Miss(_, _, _) =>
      case Introduced(_, _, _, _) =>
      case Leave(_) =>
    }
  }

  lemma BuriedOneMore(trace: seq<State>, moves: seq<Move>, j: nat, a: nat, m: nat)
    requires Run(trace, moves) && Start(trace[0]) && j < |moves| && Buried(trace[j], a, m)
    requires a in trace[j + 1].nodes && m in trace[j + 1].nodes[a].view.members
    ensures Buried(trace[j + 1], a, m)
  {
    RunKeepsInv(trace, moves, j);
    BuriedStays(trace[j], moves[j], a, m);
  }

  /** Main result for leaving: once a table holds a node's leave, it never lists
      that node live again, for as long as the tombstone lasts. */
  lemma {:induction false} TheLeftAreNeverLiveAgain(trace: seq<State>, moves: seq<Move>, i: nat, j: nat, a: nat, m: nat)
    requires Run(trace, moves) && Start(trace[0]) && i <= j < |trace| && Buried(trace[i], a, m)
    requires forall k :: i <= k <= j ==> a in trace[k].nodes && m in trace[k].nodes[a].view.members
    ensures Buried(trace[j], a, m) && !trace[j].nodes[a].view.IsLive(m)
    decreases j
  {
    if i < j {
      TheLeftAreNeverLiveAgain(trace, moves, i, j - 1, a, m);
      BuriedOneMore(trace, moves, j - 1, a, m);
    }
  }
}
