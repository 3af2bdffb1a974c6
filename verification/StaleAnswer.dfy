/** A run of two nodes in which an answer to a stale accusation leaves a suspicion
    standing (rateguard-core/src/member.rs, `refute`).
 */
module StaleAnswer {
  import opened Wrappers
  import opened Quotas
  import opened Proto
  import opened Member
  import opened Gossip
  import opened Swim
  import opened Cluster

  const OWN0 := Update(0, 10, 0, Alive)
  const OWN1 := Update(1, 11, 0, Alive)
  const ACCUSED := Update(0, 10, 0, Suspect)
  const REFUTED := Update(0, 10, 1, Alive)
  const SUSPECTED := Update(0, 10, 1, Suspect)

  /** Node 1 suspects node 0, which refutes; node 1 takes that and suspects it anew. */
  const ACCUSATION := Datagram(1, 0, News([OWN1, ACCUSED]))
  const ANSWER := Datagram(0, 1, News([REFUTED, OWN1]))
  function Peer(addr: nat, u: Update): Member { Member(addr, u.incarnation, u.status, 0, 0, false) }

  /** Node 0 before it hears of the accusation, after, and once it has answered. */
  const UNAWARE := NewNode(0, 10)
  const AWARE := NodeState(
    UNAWARE.view.(incarnation := 1, members := map[1 := Peer(11, OWN1)]),
    map[0 := Pending(REFUTED, 0), 1 := Pending(OWN1, 0)], {}, map[1 := None], false, 0)
  const ANSWERED := AWARE.(queue := map[0 := Pending(REFUTED, 1), 1 := Pending(OWN1, 1)], introducing := map[])

  /** Node 1 with its record of node 0 and what it has queued about it. */
  function Holding(u: Update, queue: Queue): NodeState {
    var n := NewNode(1, 11);
    n.(view := n.view.(members := map[0 := Peer(10, u)]), queue := queue)
  }

  function Nodes(zero: NodeState, one: NodeState): map<nat, NodeState> { map[0 := zero, 1 := one] }

  const S0 := State(Nodes(UNAWARE, NewNode(1, 11)), {})
  const S1 := State(Nodes(UNAWARE, Holding(OWN0, map[])), {})
  const S2 := State(Nodes(UNAWARE, Holding(ACCUSED, map[0 := Pending(ACCUSED, 0)])), {})
  const S3 := State(Nodes(UNAWARE, Holding(ACCUSED, map[0 := Pending(ACCUSED, 1)])), {ACCUSATION})
  const S4 := State(Nodes(AWARE, Holding(ACCUSED, map[0 := Pending(ACCUSED, 1)])), {ACCUSATION})
  const S5 := State(Nodes(ANSWERED, Holding(ACCUSED, map[0 := Pending(ACCUSED, 1)])), {ACCUSATION, ANSWER})
  const S6 := State(Nodes(ANSWERED, Holding(REFUTED, map[0 := Pending(REFUTED, 0)])), {ACCUSATION, ANSWER})
  const S7 := State(Nodes(ANSWERED, Holding(SUSPECTED, map[0 := Pending(SUSPECTED, 0)])), {ACCUSATION, ANSWER})

  // ------------------------------------------------------------------ what is sent

  lemma TakeTheOnly(m: nat, p: Pending, max: nat, limit: nat)
    requires max > 0 && limit > p.transmits + 1
    ensures Take(map[m := p], max, limit) == ([p.update], map[m := p.(transmits := p.transmits + 1)])
  {
    var q: Queue := map[m := p];
    assert q.Keys == {m};
    var picks := Picks(q, q.Keys, max);
    assert |picks| == 1 && picks[0] == m;
    assert picks == [m];
    assert Gossip.News(q, picks) == [p.update];
    assert AllSent(q, picks, limit) == map[m := p.(transmits := p.transmits + 1)];
  }

  lemma TakeBoth(q: Queue, max: nat, limit: nat)
    requires q.Keys == {0, 1} && q[0].transmits == 0 && q[1].transmits == 0 && max > 1 && limit > 1
    ensures Take(q, max, limit)
         == ([q[0].update, q[1].update], map[0 := q[0].(transmits := 1), 1 := q[1].(transmits := 1)])
  {
    var picks := Picks(q, q.Keys, max);
    assert |q.Keys| == 2;
    assert picks[0] == 0 && picks[1] == 1 by {
      assert picks[0] in q.Keys && picks[1] in q.Keys && Before(q, picks[0], picks[1]);
    }
    assert picks == [0, 1];
    assert Gossip.News(q, picks) == [q[0].update, q[1].update];
    assert AllSent(q, picks, limit) == map[0 := q[0].(transmits := 1), 1 := q[1].(transmits := 1)];
  }

  lemma AccusationIsSent()
    ensures Outgoing(Holding(ACCUSED, map[0 := Pending(ACCUSED, 0)]), 0)
         == ([OWN1, ACCUSED], Holding(ACCUSED, map[0 := Pending(ACCUSED, 1)]))
  {
    var s := Holding(ACCUSED, map[0 := Pending(ACCUSED, 0)]);
    assert Accusation(s, 0) == Some(ACCUSED);
    TakeTheOnly(0, Pending(ACCUSED, 0), Room(s, 0), RetransmitLimit(ClusterSize(s.view)));
    assert [ACCUSED][..0] == [] && Without([ACCUSED], OWN1) == [ACCUSED];
    assert [OWN1] + [ACCUSED] == [OWN1, ACCUSED];
  }

  lemma NobodyElseIsTold()
    ensures Introduce(AWARE.view, 1, [REFUTED, OWN1], None) == ([REFUTED, OWN1], Some(1), true)
  {
    var v := AWARE.view;
    assert v.IsLive(1);
    assert NextLiveAfter(v, None) == Some(1);
    CursorMovesOn(v, None);
    assert NextLiveAfter(v, Some(1)) == None;
    assert Introduce(v, 1, [REFUTED, OWN1], Some(1)) == ([REFUTED, OWN1], Some(1), true);
  }

  lemma AnswerIsSent()
    ensures Outgoing(AWARE, 1) == ([REFUTED, OWN1], ANSWERED)
  {
    var s := AWARE;
    assert Accusation(s, 1) == None;
    TakeBoth(s.queue, Room(s, 1), RetransmitLimit(ClusterSize(s.view)));
    assert [REFUTED, OWN1][..1] == [REFUTED] && [REFUTED][..0] == [];
    assert Without([REFUTED], REFUTED) == [] && Without([REFUTED, OWN1], REFUTED) == [OWN1];
    assert [REFUTED] + [OWN1] == [REFUTED, OWN1];
    NobodyElseIsTold();
    assert s.introducing - {1} == map[];
  }

  // --------------------------------------------------------------- what is received

  lemma LearnTwo(s: NodeState, a: Update, b: Update, now: nat)
    ensures LearnAll(s, [a, b], now) == Learn(Learn(s, a, now), b, now)
  {
    var both, first := [a, b], [a];
    assert both[..|both| - 1] == first && first[..|first| - 1] == [];
    assert LearnAll(s, first, now) == Learn(s, a, now);
  }

  lemma AccusationIsHeard()
    ensures Receive(UNAWARE, 1, ACCUSATION.msg, 0) == AWARE
  {
    assert UNAWARE.(behind := UNAWARE.behind - {1}) == UNAWARE;
    LearnTwo(UNAWARE, OWN1, ACCUSED, 0);
    var mid := Learn(UNAWARE, OWN1, 0);
    assert mid.view.members == map[1 := Peer(11, OWN1)];
    assert Learn(mid, ACCUSED, 0).queue == AWARE.queue;
  }

  lemma AnswerIsHeard()
    ensures Receive(Holding(ACCUSED, map[0 := Pending(ACCUSED, 1)]), 0, ANSWER.msg, 0)
         == Holding(REFUTED, map[0 := Pending(REFUTED, 0)])
  {
    var s := Holding(ACCUSED, map[0 := Pending(ACCUSED, 1)]);
    assert s.(behind := s.behind - {0}) == s;
    LearnTwo(s, REFUTED, OWN1, 0);
    assert Learn(s, REFUTED, 0) == Holding(REFUTED, map[0 := Pending(REFUTED, 0)]);
    assert Learn(Learn(s, REFUTED, 0), OWN1, 0) == Learn(s, REFUTED, 0);
  }

  // ------------------------------------------------------------------------ the run

  ghost predicate Leads(st: State, m: Move, st': State) { Enabled(st, m) && Next(st, m) == st' }

  lemma IntroductionLeads()
    ensures Leads(S0, Introduced(1, 0, 10, 0), S1)
  {
    assert Moved(S0, Introduced(1, 0, 10, 0)).view.members == map[0 := Peer(10, OWN0)];
  }

  lemma MissLeads()
    ensures Leads(S1, Miss(1, 0, 0), S2)
  {
    assert Moved(S1, Miss(1, 0, 0)).view.members == map[0 := Peer(10, ACCUSED)];
    assert Moved(S1, Miss(1, 0, 0)) == Holding(ACCUSED, map[0 := Pending(ACCUSED, 0)]);
  }

  lemma AccusationLeads()
    ensures Leads(S2, Send(1, 0), S3)
  {
    AccusationIsSent();
  }

  lemma RefutationLeads()
    ensures Leads(S3, Deliver(ACCUSATION, 0), S4)
  {
    AccusationIsHeard();
    assert Next(S3, Deliver(ACCUSATION, 0)).nodes == S4.nodes;
  }

  lemma AnswerLeads()
    ensures Leads(S5, Deliver(ANSWER, 0), S6)
  {
    AnswerIsHeard();
    assert Next(S5, Deliver(ANSWER, 0)).nodes == S6.nodes;
  }

  lemma SecondMissLeads()
    ensures Leads(S6, Miss(1, 0, 0), S7)
  {
    assert Moved(S6, Miss(1, 0, 0)).view.members == map[0 := Peer(10, SUSPECTED)];
    assert Moved(S6, Miss(1, 0, 0)) == Holding(SUSPECTED, map[0 := Pending(SUSPECTED, 0)]);
  }

  lemma OneMoreMove(trace: seq<State>, moves: seq<Move>, m: Move, st: State)
    requires Cluster.Run(trace, moves) && Leads(trace[|moves|], m, st)
    ensures Cluster.Run(trace + [st], moves + [m])
  {
  }

  lemma OneMoreSend(trace: seq<State>, moves: seq<Move>, from: nat, to: nat, updates: seq<Update>, moved: NodeState,
                    st: State)
    requires Cluster.Run(trace, moves) && from in trace[|moves|].nodes && !trace[|moves|].nodes[from].left
    requires Outgoing(trace[|moves|].nodes[from], to) == (updates, moved)
    requires st.nodes == trace[|moves|].nodes[from := moved]
    requires st.net == trace[|moves|].net + {Datagram(from, to, News(updates))}
    ensures Cluster.Run(trace + [st], moves + [Send(from, to)])
  {
    assert Leads(trace[|moves|], Send(from, to), st);
    OneMoreMove(trace, moves, Send(from, to), st);
  }

  lemma AnswerChangesOne()
    ensures S5.nodes == S4.nodes[0 := ANSWERED] && S5.net == S4.net + {ANSWER} && S4.nodes[0] == AWARE
  {
  }

  lemma TheFirstAccusation() returns (trace: seq<State>, moves: seq<Move>)
    ensures Cluster.Run(trace, moves) && trace[0] == S0 && trace[|moves|] == S4
  {
    trace, moves := [S0], [];
    IntroductionLeads();
    OneMoreMove(trace, moves, Introduced(1, 0, 10, 0), S1);
    trace, moves := trace + [S1], moves + [Introduced(1, 0, 10, 0)];
    MissLeads();
    OneMoreMove(trace, moves, Miss(1, 0, 0), S2);
    trace, moves := trace + [S2], moves + [Miss(1, 0, 0)];
    AccusationLeads();
    OneMoreMove(trace, moves, Send(1, 0), S3);
    trace, moves := trace + [S3], moves + [Send(1, 0)];
    RefutationLeads();
    OneMoreMove(trace, moves, Deliver(ACCUSATION, 0), S4);
    trace, moves := trace + [S4], moves + [Deliver(ACCUSATION, 0)];
  }

  /** The accusation delivered a second time gets an answer that does not supersede
      the suspicion by then said in the same run. */
  lemma AStaleAnswerMissesALaterSuspicion() returns (trace: seq<State>, moves: seq<Move>)
    ensures Cluster.Run(trace, moves) && trace[0] == S0 && Start(S0) && trace[|moves|] == S7
    ensures Said(S7, SUSPECTED) && Enabled(S7, Deliver(ACCUSATION, 0))
    ensures S7.nodes[0].view.Refute(ACCUSED).0 == Refuted(REFUTED) && !Supersedes(REFUTED, SUSPECTED)
  {
    trace, moves := TheFirstAccusation();
    AnswerIsSent();
    AnswerChangesOne();
    OneMoreSend(trace, moves, 0, 1, [REFUTED, OWN1], ANSWERED, S5);
    trace, moves := trace + [S5], moves + [Send(0, 1)];
    AnswerLeads();
    OneMoreMove(trace, moves, Deliver(ANSWER, 0), S6);
    trace, moves := trace + [S6], moves + [Deliver(ANSWER, 0)];
    SecondMissLeads();
    OneMoreMove(trace, moves, Miss(1, 0, 0), S7);
    trace, moves := trace + [S7], moves + [Miss(1, 0, 0)];
    SuspicionIsSaid();
  }

  lemma SuspicionIsSaid()
    ensures Said(S7, SUSPECTED) && Start(S0)
    ensures S7.nodes[0].view.Refute(ACCUSED).0 == Refuted(REFUTED)
  {
    assert 1 in S7.nodes && SUSPECTED == S7.nodes[1].view.Record(0);
    assert S0.nodes[0] == NewNode(0, 10) && S0.nodes[1] == NewNode(1, 11);
  }
}
