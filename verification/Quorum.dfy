/** Which side of a split keeps serving under the `Quorum` policy (`apply_policy`,
    `depart` and `refresh_cap` of rateguard-core/src/node.rs).
 */
module Quorum {
  import opened Wrappers
  import opened Quotas
  import opened Proto
  import opened Member
  import opened Partition

  datatype Config = Config(memory: nat, period: nat, beta: real)

  datatype Node = Node(view: View, quorumSize: nat, withoutSince: Option<nat>, flooredUntil: nat)

  /** The suspects are not counted. */
  function AlivePeers(v: View): set<nat> { set m | m in v.members && v.members[m].status == Alive }

  function AliveCount(v: View): nat { 1 + |AlivePeers(v)| }

  /** The dead that may be serving on the other side. */
  function MaybeServing(v: View): set<nat> { set m | m in v.members && v.members[m].status == Dead
      && !v.members[m].departed }

  function Known(v: View): (r: nat)
    ensures r > 0
  {
    1 + |v.LiveSet()| + |MaybeServing(v)|
  }

  function StaleAfterRounds(size: nat): nat { Max(3 * size, 10) }

  function Counted(n: Node): (r: nat)
    ensures r > 0
  {
    Max(Known(n.view), n.quorumSize)
  }

  /** Without a quorum since, as of `now`. */
  function Since(n: Node, now: nat): nat { if n.withoutSince.Some? then n.withoutSince.value else now }

  predicate MemoryOver(n: Node, now: nat, memory: nat) { SatSub(now, Since(n, now)) >= memory }

  /** What the majority is counted against: more than is known only while missing
      members are remembered. */
  function CountedAt(n: Node, now: nat, memory: nat): (r: nat)
    ensures r > 0
  {
    if !HasQuorum(AliveCount(n.view), Counted(n)) && MemoryOver(n, now, memory) then Known(n.view) else Counted(n)
  }

  predicate Sees(n: Node, now: nat, memory: nat) { HasQuorum(AliveCount(n.view), CountedAt(n, now, memory)) }

  function ApplyPolicy(n: Node, now: nat, c: Config): Node {
    n.(withoutSince := if HasQuorum(AliveCount(n.view), Counted(n)) then None else Some(Since(n, now)),
       quorumSize := if Sees(n, now, c.memory) then Known(n.view) else CountedAt(n, now, c.memory),
       flooredUntil := if Sees(n, now, c.memory) then n.flooredUntil
                       else now + StaleAfterRounds(CountedAt(n, now, c.memory)) * c.period)
  }

  /** A peer heard to leave is not counted among the dead any more. */
  function Departed(n: Node, m: nat): Node {
    if !n.view.CanDepart(m) then n
    else
      var v := n.view.Depart(m);
      n.(view := v, quorumSize := Max(SatSub(n.quorumSize, 1), Known(v)))
  }

  class Policy {
    const config: Config
    var view: View
    var quorumSize: nat
    var withoutSince: Option<nat>
    var flooredUntil: nat

    function Abs(): Node
      reads this
    {
      Node(view, quorumSize, withoutSince, flooredUntil)
    }

    constructor (config: Config, view: View)
      ensures Abs() == Node(view, 1, None, 0) && this.config == config
    {
      this.config, this.view, quorumSize, withoutSince, flooredUntil := config, view, 1, None, 0;
    }

    method Apply(now: nat) returns (quorum: bool)
      modifies this`quorumSize, this`withoutSince, this`flooredUntil
      ensures Abs() == ApplyPolicy(old(Abs()), now, config) && quorum == Sees(old(Abs()), now, config.memory)
    {
      var alive := 1 + |AlivePeers(view)|;
      var known := Known(view);
      var counted := Max(known, quorumSize);
      quorum := HasQuorum(alive, counted);
      if quorum {
        withoutSince := None;
      } else {
        if withoutSince.None? {
          withoutSince := Some(now);
        }
        if SatSub(now, withoutSince.value) >= config.memory {
          counted := known;
          quorum := HasQuorum(alive, counted);
        }
      }
      quorumSize := if quorum then known else counted;
      if !quorum {
        flooredUntil := now + StaleAfterRounds(counted) * config.period;
      }
    }

    method Depart(m: nat)
      modifies this`view, this`quorumSize
      ensures Abs() == Departed(old(Abs()), m)
    {
      if !view.CanDepart(m) {
        return;
      }
      view := view.Depart(m);
      quorumSize := Max(SatSub(quorumSize, 1), Known(view));
    }
  }

  // ------------------------------------------------------------------------- a run

  datatype Move =
    | Round(now: nat)
    | Leaves(peer: nat)                  // heard from the peer itself
    | Learns(view: View)                 // whatever else membership becomes

  function After(n: Node, m: Move, c: Config): Node {
    match m
    case Round(now) => ApplyPolicy(n, now, c)
    case Leaves(peer) => Departed(n, peer)
    case Learns(v) => n.(view := v)
  }

  predicate Leaving(n: Node, m: Move) { m.Leaves? && n.view.CanDepart(m.peer) }

  /** Any run at all, of rounds in the order of time. */
  ghost predicate Steps(c: Config, trace: seq<Node>, moves: seq<Move>) {
    && |trace| == |moves| + 1 && trace[0].withoutSince.None?
    && (forall i :: 0 <= i < |moves| ==> trace[i + 1] == After(trace[i], moves[i], c))
    && (forall i, j :: 0 <= i <= j < |moves| && moves[i].Round? && moves[j].Round? ==> moves[i].now <= moves[j].now)
  }

  /** A round with a majority of what was counted before. */
  predicate HadMajority(n: Node) { HasQuorum(AliveCount(n.view), Counted(n)) }

  /** No round from `f` on and before `i` had one. */
  ghost predicate Without(trace: seq<Node>, moves: seq<Move>, f: nat, i: nat)
    requires i <= |moves| < |trace|
  {
    forall j :: f <= j < i && moves[j].Round? ==> !HadMajority(trace[j])
  }

  /** The first round after the last one with a majority. */
  ghost predicate LostIn(trace: seq<Node>, moves: seq<Move>, f: nat, i: nat)
    requires i <= |moves| < |trace|
  {
    && f < i && moves[f].Round? && Without(trace, moves, f, i)
    && forall j :: 0 <= j < f && moves[j].Round? ==> !Without(trace, moves, j, i)
  }

  /** The memory of a node counts from the first round after the last one that had a
      majority of what was counted, and not at all if that was the last. */
  lemma {:induction false} MemoryCountsFromTheLoss(c: Config, trace: seq<Node>, moves: seq<Move>, i: nat)
    returns (f: nat)
    requires Steps(c, trace, moves) && i <= |moves|
    ensures trace[i].withoutSince.None? ==> forall j :: 0 <= j < i && moves[j].Round? ==> !Without(trace, moves, j, i)
    ensures trace[i].withoutSince.Some? ==> LostIn(trace, moves, f, i) && trace[i].withoutSince.value == moves[f].now
  {
    f := 0;
    if i > 0 {
      var before := MemoryCountsFromTheLoss(c, trace, moves, i - 1);
      var n, m := trace[i - 1], moves[i - 1];
      assert trace[i] == After(n, m, c);
      f := before;
      if m.Round? && !HadMajority(n) && n.withoutSince.None? {
        f := i - 1;
      }
      assert forall j :: 0 <= j < i - 1 && !Without(trace, moves, j, i - 1) ==> !Without(trace, moves, j, i);
    }
  }

  /** Every span of rounds without a majority has been shorter than the memory. */
  ghost predicate Remembered(c: Config, trace: seq<Node>, moves: seq<Move>)
    requires |moves| < |trace|
  {
    forall f, i :: 0 <= f <= i < |moves| && moves[f].Round? && moves[i].Round? && Without(trace, moves, f, i) ==>
      moves[i].now < moves[f].now + c.memory
  }

  /** Any run within the memory. */
  ghost predicate Run(c: Config, trace: seq<Node>, moves: seq<Move>) {
    Steps(c, trace, moves) && Remembered(c, trace, moves)
  }

  /** The memory is over in a round if and only if the rounds without a majority up to it
      span it, the round itself among them. */
  lemma MemoryIsOverExactly(c: Config, trace: seq<Node>, moves: seq<Move>, i: nat)
    requires Steps(c, trace, moves) && i < |moves| && moves[i].Round?
    ensures MemoryOver(trace[i], moves[i].now, c.memory)
            <==> exists f :: 0 <= f <= i && moves[f].Round? && Without(trace, moves, f, i)
                             && moves[i].now >= moves[f].now + c.memory
  {
    var f := MemoryCountsFromTheLoss(c, trace, moves, i);
    var now := moves[i].now;
    if trace[i].withoutSince.None? {
      assert MemoryOver(trace[i], now, c.memory) <==> c.memory == 0;
      if c.memory == 0 {
        assert Without(trace, moves, i, i);
      }
    } else {
      assert MemoryOver(trace[i], now, c.memory) <==> now >= moves[f].now + c.memory;
      forall g | 0 <= g <= i && moves[g].Round? && Without(trace, moves, g, i) && now >= moves[g].now + c.memory
        ensures now >= moves[f].now + c.memory
      {
        assert f <= g;
      }
    }
  }

  lemma RunIsWithinMemory(c: Config, trace: seq<Node>, moves: seq<Move>, i: nat)
    requires Run(c, trace, moves) && i < |moves| && moves[i].Round?
    ensures !MemoryOver(trace[i], moves[i].now, c.memory)
  {
    MemoryIsOverExactly(c, trace, moves, i);
  }

  /** Once the rounds without a majority span the memory, a node counts those it knows and
      no one else, whatever it counted before: it sees a quorum exactly with a majority
      of them, and remembers just them. */
  lemma OnceTheMemoryIsOver(c: Config, trace: seq<Node>, moves: seq<Move>, f: nat, i: nat)
    requires Steps(c, trace, moves) && f <= i < |moves| && moves[f].Round? && moves[i].Round?
    requires Without(trace, moves, f, i + 1) && moves[i].now >= moves[f].now + c.memory
    ensures Sees(trace[i], moves[i].now, c.memory) <==> 2 * AliveCount(trace[i].view) > Known(trace[i].view)
    ensures trace[i + 1].quorumSize == Known(trace[i].view)
  {
    assert Without(trace, moves, f, i);
    MemoryIsOverExactly(c, trace, moves, i);
    assert trace[i + 1] == After(trace[i], moves[i], c);
  }

  /** A node that saw none is held at the floor for as long as the peers it counts take
      to hear it, and one that did is not held any longer than it was. */
  lemma HowLongIsFloored(n: Node, now: nat, c: Config)
    ensures ApplyPolicy(n, now, c).flooredUntil
            == if Sees(n, now, c.memory) then n.flooredUntil
               else now + Max(3 * ApplyPolicy(n, now, c).quorumSize, 10) * c.period
  {
  }

  /** The leaves counted so far, of one peer as often as it counted. */
  function Counts(trace: seq<Node>, moves: seq<Move>, i: nat): nat
    requires i <= |moves| && |moves| < |trace|
  {
    if i == 0 then 0 else Counts(trace, moves, i - 1) + if Leaving(trace[i - 1], moves[i - 1]) then 1 else 0
  }

  /** What a node has taken into account for good: the most it knew in a round or
      right after a leave, with every leave counted till then added back. */
  function Peak(trace: seq<Node>, moves: seq<Move>, i: nat): nat
    requires i <= |moves| && |moves| < |trace|
  {
    if i == 0 then trace[0].quorumSize
    else if moves[i - 1].Round? then
      Max(Peak(trace, moves, i - 1), Known(trace[i - 1].view) + Counts(trace, moves, i - 1))
    else if Leaving(trace[i - 1], moves[i - 1]) then
      Max(Peak(trace, moves, i - 1), Known(trace[i].view) + Counts(trace, moves, i))
    else Peak(trace, moves, i - 1)
  }

  ghost predicate SawNoQuorum(c: Config, trace: seq<Node>, moves: seq<Move>, i: nat)
    requires i <= |moves| < |trace|
  {
    forall j :: 0 <= j < i && moves[j].Round? ==> !Sees(trace[j], moves[j].now, c.memory)
  }

  /** The size a majority is counted against is what was taken into account less
      the leaves counted, exactly. */
  lemma {:induction false} SizeIsPeak(c: Config, trace: seq<Node>, moves: seq<Move>, i: nat)
    requires Run(c, trace, moves) && trace[0].quorumSize > 0 && i <= |moves| && SawNoQuorum(c, trace, moves, i)
    ensures trace[i].quorumSize > 0 && trace[i].quorumSize + Counts(trace, moves, i) == Peak(trace, moves, i)
  {
    if i > 0 {
      SizeIsPeak(c, trace, moves, i - 1);
      if moves[i - 1].Round? {
        RunIsWithinMemory(c, trace, moves, i - 1);
      }
      assert trace[i] == After(trace[i - 1], moves[i - 1], c);
    }
  }

  /** Main result, for any node and any run within the memory: it sees its first
      quorum again exactly when twice those alive, and the leaves counted, outnumber
      all it ever took into account and knows. */
  lemma SeesExactly(c: Config, trace: seq<Node>, moves: seq<Move>, i: nat)
    requires Run(c, trace, moves) && trace[0].quorumSize > 0 && i < |moves| && moves[i].Round?
    requires SawNoQuorum(c, trace, moves, i)
    ensures Sees(trace[i], moves[i].now, c.memory)
            <==> 2 * AliveCount(trace[i].view) + Counts(trace, moves, i)
                 > Max(Peak(trace, moves, i), Known(trace[i].view) + Counts(trace, moves, i))
  {
    SizeIsPeak(c, trace, moves, i);
    RunIsWithinMemory(c, trace, moves, i);
  }

  /** A node knows nearly all of `n`, or is far from a majority of them: as it is
      from a whole cluster on, through the time the other side is suspected and dies,
      until that is forgotten. */
  predicate Remembers(node: Node, n: nat, leaves: nat) {
    Known(node.view) + leaves >= n || 2 * AliveCount(node.view) + leaves <= n
  }

  lemma MoveRemembers(node: Node, m: Move, c: Config, n: nat, leaves: nat)
    requires node.quorumSize + leaves >= n
    requires m.Round? ==> !MemoryOver(node, m.now, c.memory) && Remembers(node, n, leaves)
    ensures After(node, m, c).quorumSize + leaves + (if Leaving(node, m) then 1 else 0) >= n
  {
  }

  /** The size counted against shrinks by one per leave, or under a majority. */
  lemma {:induction false} RememberedSize(c: Config, n: nat, trace: seq<Node>, moves: seq<Move>, i: nat)
    requires Run(c, trace, moves) && n <= trace[0].quorumSize && i <= |moves|
    requires forall j :: 0 <= j < i && moves[j].Round? ==> Remembers(trace[j], n, Counts(trace, moves, j))
    ensures trace[i].quorumSize + Counts(trace, moves, i) >= n
  {
    if i > 0 {
      RememberedSize(c, n, trace, moves, i - 1);
      if moves[i - 1].Round? {
        RunIsWithinMemory(c, trace, moves, i - 1);
      }
      MoveRemembers(trace[i - 1], moves[i - 1], c, n, Counts(trace, moves, i - 1));
    }
  }

  /** Main result: from a node that counts `n` on, whoever dies, is forgotten, joins
      or leaves, and however often a leave counts, it sees no quorum while twice
      those alive, and the leaves counted, are no more than `n`. */
  lemma MinoritySeesNoQuorum(c: Config, n: nat, trace: seq<Node>, moves: seq<Move>, i: nat)
    requires Run(c, trace, moves) && n <= trace[0].quorumSize && i < |moves| && moves[i].Round?
    requires forall j :: 0 <= j < i && moves[j].Round? ==> Remembers(trace[j], n, Counts(trace, moves, j))
    requires 2 * AliveCount(trace[i].view) + Counts(trace, moves, i) <= n
    ensures !Sees(trace[i], moves[i].now, c.memory)
  {
    RememberedSize(c, n, trace, moves, i);
    RunIsWithinMemory(c, trace, moves, i);
  }

  // -------------------------------------------------------------- two sides of a split

  /** The peers that left. */
  function Gone(trace: seq<Node>, moves: seq<Move>, i: nat): set<nat>
    requires i <= |moves| && |moves| < |trace|
  {
    if i == 0 then {}
    else Gone(trace, moves, i - 1) + if Leaving(trace[i - 1], moves[i - 1]) then {moves[i - 1].peer} else {}
  }

  /** The others are all dead to the node. */
  ghost predicate Apart(side: set<nat>, trace: seq<Node>, moves: seq<Move>, i: nat)
    requires i <= |moves| && |moves| < |trace|
  {
    && AlivePeers(trace[i].view) + {trace[i].view.local} <= side - Gone(trace, moves, i)
    && trace[i].view.local !in AlivePeers(trace[i].view)
  }

  /** A node of one side, from the whole cluster of `n` on: in every round it still
      knows all of them but those that left, or the others are all dead to it; those
      that leave are of its side, and each counts once. */
  ghost predicate SideRun(c: Config, side: set<nat>, n: nat, trace: seq<Node>, moves: seq<Move>) {
    && Run(c, trace, moves) && n <= trace[0].quorumSize
    && (forall i :: 0 <= i < |moves| && moves[i].Round? ==>
          Known(trace[i].view) + |Gone(trace, moves, i)| >= n || Apart(side, trace, moves, i))
    && (forall i :: 0 <= i < |moves| && Leaving(trace[i], moves[i]) ==>
          moves[i].peer in side && moves[i].peer !in Gone(trace, moves, i))
  }

  lemma {:induction false} EachCountsOnce(c: Config, side: set<nat>, n: nat, trace: seq<Node>, moves: seq<Move>, i: nat)
    requires SideRun(c, side, n, trace, moves) && i <= |moves|
    ensures Gone(trace, moves, i) <= side && |Gone(trace, moves, i)| == Counts(trace, moves, i)
  {
    if i > 0 {
      EachCountsOnce(c, side, n, trace, moves, i - 1);
    }
  }

  lemma AliveAreStillHere(side: set<nat>, trace: seq<Node>, moves: seq<Move>, i: nat)
    requires i <= |moves| < |trace| && Apart(side, trace, moves, i) && Gone(trace, moves, i) <= side
    ensures AliveCount(trace[i].view) + |Gone(trace, moves, i)| <= |side|
  {
    var here, gone := AlivePeers(trace[i].view) + {trace[i].view.local}, Gone(trace, moves, i);
    assert |here| == AliveCount(trace[i].view);
    SubsetIsSmaller(here, side - gone);
    assert side == (side - gone) + gone;
  }

  /** A node of a side with no majority sees no quorum once the others are dead to
      it. */
  lemma SideSeesNoQuorum(c: Config, side: set<nat>, n: nat, trace: seq<Node>, moves: seq<Move>, i: nat)
    requires SideRun(c, side, n, trace, moves) && 2 * |side| <= n
    requires i < |moves| && moves[i].Round? && Apart(side, trace, moves, i)
    ensures !Sees(trace[i], moves[i].now, c.memory)
  {
    forall j | 0 <= j <= i && moves[j].Round? ensures Remembers(trace[j], n, Counts(trace, moves, j)) {
      EachCountsOnce(c, side, n, trace, moves, j);
      if Apart(side, trace, moves, j) {
        AliveAreStillHere(side, trace, moves, j);
      }
    }
    EachCountsOnce(c, side, n, trace, moves, i);
    AliveAreStillHere(side, trace, moves, i);
    MinoritySeesNoQuorum(c, n, trace, moves, i);
  }

  /** So of two sides, each dead to the other, at most one ever sees one. */
  lemma AtMostOneSideSeesAQuorum(c: Config, a: set<nat>, b: set<nat>, traceA: seq<Node>, movesA: seq<Move>,
                                 traceB: seq<Node>, movesB: seq<Move>, i: nat, j: nat)
    requires a !! b && SideRun(c, a, |a + b|, traceA, movesA) && SideRun(c, b, |a + b|, traceB, movesB)
    requires i < |movesA| && movesA[i].Round? && Apart(a, traceA, movesA, i)
    requires j < |movesB| && movesB[j].Round? && Apart(b, traceB, movesB, j)
    ensures !Sees(traceA[i], movesA[i].now, c.memory) || !Sees(traceB[j], movesB[j].now, c.memory)
  {
    assert |a + b| == |a| + |b|;
    if 2 * |a| <= |a + b| {
      SideSeesNoQuorum(c, a, |a + b|, traceA, movesA, i);
    } else {
      SideSeesNoQuorum(c, b, |a + b|, traceB, movesB, j);
    }
  }

  /** A round of a cluster that is whole counts all of it. */
  lemma WholeClusterIsRemembered(n: Node, now: nat, c: Config)
    requires !MemoryOver(n, now, c.memory)
    ensures ApplyPolicy(n, now, c).quorumSize >= Known(n.view)
  {
  }

  // ------------------------------------------------------------------- leaves replayed

  /** A leave heard from someone unknown, and counted. */
  function HeardToLeave(n: Node, leave: Update, now: nat): Node {
    Departed(n.(view := n.view.Apply(leave, now).1), leave.member)
  }

  /** Any node that does not hold the leaver counts its leave, whoever else it knows,
      and those it knows are as many as before. */
  lemma ReplayTakesOne(n: Node, leave: Update, now: nat)
    requires leave.member !in n.view.members && leave.member != n.view.local && leave.status == Dead
    requires n.view.Known() < n.view.max
    ensures var heard := HeardToLeave(n, leave, now);
            && heard.quorumSize == Max(SatSub(n.quorumSize, 1), Known(n.view))
            && AlivePeers(heard.view) == AlivePeers(n.view) && Known(heard.view) == Known(n.view)
            && heard.view.members.Keys == n.view.members.Keys + {leave.member}
            && heard.withoutSince == n.withoutSince
  {
    var m := leave.member;
    var u := n.view.Apply(leave, now).1;
    var v := u.Depart(m);
    assert v.members.Keys == n.view.members.Keys + {m} && v.members[m].departed;
    assert forall x :: x in n.view.members ==> v.members[x] == n.view.members[x];
    assert v.LiveSet() == n.view.LiveSet() && MaybeServing(v) == MaybeServing(n.view);
    assert AlivePeers(v) == AlivePeers(n.view);
  }

  /** It holds no dead: they have all been forgotten. */
  ghost predicate HoldsNoDead(v: View) {
    v.local !in v.members && forall m :: m in v.members ==> v.members[m].status != Dead
  }

  /** The leave replayed at `now`, and forgotten a tombstone's time after. */
  function Replayed(n: Node, leave: Update, now: nat, ttl: nat): Node {
    var heard := HeardToLeave(n, leave, now);
    heard.(view := heard.view.ForgetDead(now + ttl, ttl))
  }

  lemma ReplayedIsForgotten(n: Node, leave: Update, now: nat, ttl: nat)
    requires HoldsNoDead(n.view) && leave.member !in n.view.members && leave.member != n.view.local
    requires leave.status == Dead && n.view.Known() < n.view.max
    ensures Replayed(n, leave, now, ttl) == n.(quorumSize := Max(SatSub(n.quorumSize, 1), Known(n.view)))
  {
    ReplayTakesOne(n, leave, now);
    var heard := HeardToLeave(n, leave, now);
    assert heard.view.ForgetDead(now + ttl, ttl).members == n.view.members;
  }

  /** Replayed at such times, each once the tombstone before it is gone. */
  function Replays(n: Node, leave: Update, times: seq<nat>, ttl: nat): Node {
    if times == [] then n
    else Replayed(Replays(n, leave, times[..|times| - 1], ttl), leave, times[|times| - 1], ttl)
  }

  /** A node that has forgotten the dead and does not hold the leaver. */
  ghost predicate Replayable(n: Node, leave: Update) {
    && HoldsNoDead(n.view) && leave.member !in n.view.members && leave.member != n.view.local
    && leave.status == Dead && n.view.Known() < n.view.max && n.quorumSize >= Known(n.view)
  }

  lemma {:induction false} ReplaysTakeOneEach(n: Node, leave: Update, times: seq<nat>, ttl: nat)
    requires Replayable(n, leave)
    ensures Replays(n, leave, times, ttl) == n.(quorumSize := Max(n.quorumSize - |times|, Known(n.view)))
    decreases |times|
  {
    if times != [] {
      var k := |times| - 1;
      ReplaysTakeOneEach(n, leave, times[..k], ttl);
      ReplayedIsForgotten(Replays(n, leave, times[..k], ttl), leave, times[k], ttl);
    }
  }

  /** That each departure counts once is needed: whoever it knows alive or suspect, a
      node that has forgotten the dead counts one less with each replay, and sees a
      quorum again exactly when the replays make up for what it lacks. */
  lemma ReplayedLeavesMakeAQuorum(n: Node, leave: Update, times: seq<nat>, ttl: nat, at: nat, memory: nat)
    requires Replayable(n, leave) && !MemoryOver(n, at, memory)
    ensures Replays(n, leave, times, ttl).quorumSize == Max(n.quorumSize - |times|, Known(n.view))
    ensures Sees(Replays(n, leave, times, ttl), at, memory)
            <==> 2 * AliveCount(n.view) > Known(n.view) && 2 * AliveCount(n.view) + |times| > n.quorumSize
  {
    ReplaysTakeOneEach(n, leave, times, ttl);
    var after := n.(quorumSize := Max(n.quorumSize - |times|, Known(n.view)));
    assert Sees(after, at, memory) <==> 2 * AliveCount(n.view) > Counted(after);
  }

  // --------------------------------------------------------------------------- the cap

  /** Why a node is held at a floor, as of `now`. */
  datatype Held = Held(joining: bool, learning: bool, withoutQuorum: bool, membersFull: bool)

  function Floor(beta: real, size: nat): real
    requires size > 0
  {
    beta / size as real
  }

  function Lower(a: Option<real>, b: real): real { if a.Some? && a.value < b then a.value else b }

  /** The lowest of the floors that apply, as a part of each key's limit. */
  method RefreshCap(c: Config, held: Held, seeds: nat, shareSize: nat, quorumSize: nat) returns (cap: Option<real>)
    requires shareSize > 0 && quorumSize > 0
    ensures cap.None? <==> held == Held(false, false, false, false)
    ensures held.joining ==> cap.value <= Floor(c.beta, 1 + seeds)
    ensures held.learning || held.membersFull ==> cap.value <= Floor(c.beta, shareSize)
    ensures held.withoutQuorum ==> cap.value <= Floor(c.beta, quorumSize)
    ensures cap.Some? ==>
              || (held.joining && cap.value == Floor(c.beta, 1 + seeds))
              || ((held.learning || held.membersFull) && cap.value == Floor(c.beta, shareSize))
              || (held.withoutQuorum && cap.value == Floor(c.beta, quorumSize))
  {
    cap := None;
    if held.joining {
      cap := Some(Lower(cap, Floor(c.beta, 1 + seeds)));
    }
    if held.learning {
      cap := Some(Lower(cap, Floor(c.beta, shareSize)));
    }
    if held.withoutQuorum {
      cap := Some(Lower(cap, Floor(c.beta, quorumSize)));
    }
    if held.membersFull {
      cap := Some(Lower(cap, Floor(c.beta, shareSize)));
    }
  }

  /** A round without a quorum holds the node at the floor for as long as peers
      need to hear it, and all the nodes it sees alive, so held, take no more than
      half of what the floors are made of. */
  lemma MinorityTakesHalfTheFloor(n: Node, now: nat, c: Config)
    requires !Sees(n, now, c.memory) && c.beta >= 0.0 && c.period > 0
    ensures var m := ApplyPolicy(n, now, c);
            && now < m.flooredUntil && m.quorumSize > 0
            && 2.0 * AliveCount(n.view) as real * Floor(c.beta, m.quorumSize) <= c.beta
  {
    var m := ApplyPolicy(n, now, c);
    assert 2 * AliveCount(n.view) <= m.quorumSize;
    Product(StaleAfterRounds(CountedAt(n, now, c.memory)), c.period);
    Halves(2 * AliveCount(n.view), m.quorumSize, c.beta);
  }

  lemma Product(a: nat, b: nat)
    requires a > 0 && b > 0
    ensures a * b > 0
  {
  }

  lemma Halves(a: nat, q: nat, beta: real)
    requires a <= q && q > 0 && beta >= 0.0
    ensures a as real * Floor(beta, q) <= beta
  {
    var f := beta / q as real;
    assert f * q as real == beta;
    assert f >= 0.0;
    ScaleWeakly(a as real, q as real, f);
  }
}
