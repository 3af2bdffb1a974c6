/** Whom a node probes next: SWIM's shuffled round robin, with newcomers put among
    the peers still to come (`follow_changes`, `next_target` and `take_live` of
    rateguard-core/src/node.rs).
 */
module ProbeOrder {
  import opened Wrappers
  import opened Quotas
  import opened Member

  /** What comes before `next` has been probed this round. */
  datatype Probing = Probing(order: seq<nat>, next: nat) {
    ghost predicate Valid() { next <= |order| && Distinct(order[next..]) }

    function Ahead(): seq<nat>
      requires next <= |order|
    {
      order[next..]
    }
  }

  /** The first live one from `next` on. */
  function TakeLive(p: Probing, live: set<nat>): (r: (Option<nat>, Probing))
    requires p.next <= |p.order|
    ensures r.1.order == p.order && p.next <= r.1.next <= |p.order|
    decreases |p.order| - p.next
  {
    if p.next == |p.order| then (None, p)
    else if p.order[p.next] in live then (Some(p.order[p.next]), p.(next := p.next + 1))
    else TakeLive(p.(next := p.next + 1), live)
  }

  /** A new round starts in the order given once this one is over. */
  function NextTarget(p: Probing, live: set<nat>, shuffled: seq<nat>): (Option<nat>, Probing)
    requires p.next <= |p.order|
  {
    var (target, q) := TakeLive(p, live);
    if target.Some? then (target, q) else TakeLive(Probing(shuffled, 0), live)
  }

  /** Whoever joins is put among those to come, at the place drawn. */
  function Follow(p: Probing, c: Change, draw: nat): Probing
    requires p.next <= |p.order|
  {
    if c.Left? || c.peer in p.Ahead() then p
    else
      var at := p.next + Min(draw, |p.order| - p.next);
      p.(order := p.order[..at] + [c.peer] + p.order[at..])
  }

  function FollowAll(p: Probing, changes: seq<Change>, draws: seq<nat>): (r: Probing)
    requires p.next <= |p.order| && |draws| == |changes|
    ensures r.next == p.next && r.next <= |r.order|
  {
    if changes == [] then p
    else
      var n := |changes| - 1;
      Follow(FollowAll(p, changes[..n], draws[..n]), changes[n], draws[n])
  }

  class Prober {
    var order: seq<nat>
    var next: nat

    function Abs(): Probing
      reads this
    {
      Probing(order, next)
    }

    constructor ()
      ensures Abs() == Probing([], 0)
    {
      order, next := [], 0;
    }

    method FollowChanges(changes: seq<Change>, draws: seq<nat>)
      requires next <= |order| && |draws| == |changes|
      modifies this`order
      ensures Abs() == FollowAll(old(Abs()), changes, draws)
    {
      var i := 0;
      while i < |changes|
        invariant i <= |changes| && next <= |order|
        invariant Abs() == FollowAll(old(Abs()), changes[..i], draws[..i])
      {
        assert changes[..i + 1][..i] == changes[..i] && draws[..i + 1][..i] == draws[..i];
        match changes[i] {
          case Joined(peer) =>
            if peer !in order[next..] {
              var at := next + Min(draws[i], |order| - next);
              order := order[..at] + [peer] + order[at..];
            }
          case Left(_) =>
        }
        i := i + 1;
      }
      assert changes[..i] == changes && draws[..i] == draws;
    }

    method TakeALive(live: seq<nat>) returns (target: Option<nat>)
      requires next <= |order| && Ascending(live)
      modifies this`next
      ensures (target, Abs()) == TakeLive(old(Abs()), Elements(live))
    {
      while next < |order|
        invariant next <= |order|
        invariant TakeLive(Abs(), Elements(live)) == TakeLive(old(Abs()), Elements(live))
      {
        var peer := order[next];
        next := next + 1;
        var found, at := BinarySearch(live, peer);
        if found {
          return Some(peer);
        }
      }
      return None;
    }

    /** `shuffled` is the live list in whatever order the draws give. */
    method Next(live: seq<nat>, shuffled: seq<nat>) returns (target: Option<nat>)
      requires next <= |order| && Ascending(live)
      modifies this
      ensures (target, Abs()) == NextTarget(old(Abs()), Elements(live), shuffled)
    {
      target := TakeALive(live);
      if target.Some? {
        return;
      }
      order, next := shuffled, 0;
      target := TakeALive(live);
    }
  }

  // -------------------------------------------------------------- who is still to come

  /** The live ones among those to come, in order. */
  function Due(ahead: seq<nat>, live: set<nat>): (r: seq<nat>) {
    if ahead == [] then []
    else if ahead[0] in live then [ahead[0]] + Due(ahead[1..], live)
    else Due(ahead[1..], live)
  }

  lemma {:induction false} DueIsLive(ahead: seq<nat>, live: set<nat>)
    ensures forall x :: x in Due(ahead, live) <==> x in ahead && x in live
    ensures Distinct(ahead) ==> Distinct(Due(ahead, live))
    ensures (forall x :: x in ahead ==> x in live) ==> Due(ahead, live) == ahead
  {
    if ahead != [] {
      DueIsLive(ahead[1..], live);
      assert ahead == [ahead[0]] + ahead[1..];
      if Distinct(ahead) {
        assert ahead[0] !in ahead[1..];
      }
    }
  }

  lemma {:induction false} TakesTheFirstDue(p: Probing, live: set<nat>)
    requires p.next <= |p.order|
    ensures var due := Due(p.Ahead(), live); var (target, q) := TakeLive(p, live);
            if due == [] then target.None? && q.Ahead() == []
            else target == Some(due[0]) && Due(q.Ahead(), live) == due[1..]
    ensures var q := TakeLive(p, live).1; exists n :: 0 <= n <= |p.Ahead()| && q.Ahead() == p.Ahead()[n..]
    decreases |p.order| - p.next
  {
    if p.next < |p.order| {
      var step := p.(next := p.next + 1);
      assert p.Ahead()[1..] == step.Ahead();
      if p.order[p.next] !in live {
        TakesTheFirstDue(step, live);
        var n :| 0 <= n <= |step.Ahead()| && TakeLive(step, live).1.Ahead() == step.Ahead()[n..];
        assert p.Ahead()[n + 1..] == step.Ahead()[n..];
      }
    } else {
      assert p.Ahead()[0..] == p.Ahead();
    }
  }

  lemma InsertKeepsDistinct(s: seq<nat>, at: nat, x: nat)
    requires Distinct(s) && x !in s && at <= |s|
    ensures Distinct(s[..at] + [x] + s[at..])
  {
  }

  /** A newcomer is among those to come, nobody drops out, and nobody comes twice. */
  lemma FollowKeepsEveryoneDue(p: Probing, c: Change, draw: nat)
    requires p.Valid()
    ensures Follow(p, c, draw).Valid()
    ensures forall x :: x in Follow(p, c, draw).Ahead() <==> x in p.Ahead() || c == Joined(x)
  {
    var q := Follow(p, c, draw);
    if c.Joined? && c.peer !in p.Ahead() {
      var at := Min(draw, |p.order| - p.next);
      assert q.Ahead() == p.Ahead()[..at] + [c.peer] + p.Ahead()[at..];
      InsertKeepsDistinct(p.Ahead(), at, c.peer);
      assert p.Ahead() == p.Ahead()[..at] + p.Ahead()[at..];
    }
  }

  /** A live list in some order. */
  ghost predicate ShuffleOf(s: seq<nat>, live: set<nat>) { Distinct(s) && Elements(s) == live }

  lemma NextKeepsValid(p: Probing, live: set<nat>, shuffled: seq<nat>)
    requires p.Valid() && ShuffleOf(shuffled, live)
    ensures NextTarget(p, live, shuffled).1.Valid()
  {
    TakesTheFirstDue(p, live);
    assert Probing(shuffled, 0).Ahead() == shuffled;
    TakesTheFirstDue(Probing(shuffled, 0), live);
  }

  /** So many calls while membership is stable: whom they give. */
  function Targets(p: Probing, live: set<nat>, shuffles: seq<seq<nat>>): (r: seq<nat>)
    requires p.next <= |p.order|
    ensures |r| <= |shuffles|
    decreases |shuffles|
  {
    if shuffles == [] then []
    else
      var (target, q) := NextTarget(p, live, shuffles[0]);
      (if target.Some? then [target.value] else []) + Targets(q, live, shuffles[1..])
  }

  /** Someone due is given before the round is over, at its place. */
  lemma {:induction false} DueIsNext(p: Probing, live: set<nat>, shuffles: seq<seq<nat>>, i: nat)
    requires p.next <= |p.order| && i < |Due(p.Ahead(), live)| && i < |shuffles|
    ensures i < |Targets(p, live, shuffles)| && Targets(p, live, shuffles)[i] == Due(p.Ahead(), live)[i]
    decreases i
  {
    TakesTheFirstDue(p, live);
    if i > 0 {
      DueIsNext(NextTarget(p, live, shuffles[0]).1, live, shuffles[1..], i - 1);
    }
  }

  /** Once those due are through, the next call starts a new round. */
  lemma {:induction false} ThenComesTheNextRound(p: Probing, live: set<nat>, shuffles: seq<seq<nat>>, i: nat)
    requires p.next <= |p.order| && live != {} && |Due(p.Ahead(), live)| + i < |shuffles| && i < |live|
    requires forall j :: 0 <= j < |shuffles| ==> ShuffleOf(shuffles[j], live)
    ensures var due := |Due(p.Ahead(), live)|;
            && due + i < |Targets(p, live, shuffles)|
            && i < |shuffles[due]| && Targets(p, live, shuffles)[due + i] == shuffles[due][i]
    decreases |Due(p.Ahead(), live)|
  {
    TakesTheFirstDue(p, live);
    var due := Due(p.Ahead(), live);
    if due == [] {
      var anew := Probing(shuffles[0], 0);
      NewRound(shuffles[0], live);
      TakesTheFirstDue(anew, live);
      if i > 0 {
        DueIsNext(NextTarget(p, live, shuffles[0]).1, live, shuffles[1..], i - 1);
      }
    } else {
      ThenComesTheNextRound(NextTarget(p, live, shuffles[0]).1, live, shuffles[1..], i);
    }
  }

  lemma NewRound(shuffled: seq<nat>, live: set<nat>)
    requires ShuffleOf(shuffled, live)
    ensures Probing(shuffled, 0).Ahead() == shuffled && Due(shuffled, live) == shuffled && |shuffled| == |live|
  {
    DistinctCount(shuffled);
    forall x | x in shuffled ensures x in live {
      assert x in Elements(shuffled);
    }
    DueIsLive(shuffled, live);
  }

  /** A newcomer, say: within this round, before any peer comes again. */
  lemma ProbedThisRound(p: Probing, live: set<nat>, shuffles: seq<seq<nat>>, peer: nat) returns (i: nat)
    requires p.Valid() && peer in live && peer in p.Ahead() && |shuffles| >= |live|
    ensures i < |live| && i < |Targets(p, live, shuffles)| && Targets(p, live, shuffles)[i] == peer
  {
    var due := Due(p.Ahead(), live);
    DueIsLive(p.Ahead(), live);
    DistinctCount(due);
    SubsetIsSmaller(Elements(due), live);
    i :| 0 <= i < |due| && due[i] == peer;
    DueIsNext(p, live, shuffles, i);
  }

  lemma ProbedNextRound(p: Probing, live: set<nat>, shuffles: seq<seq<nat>>, peer: nat) returns (i: nat)
    requires p.Valid() && peer in live && peer !in p.Ahead() && |shuffles| >= 2 * |live|
    requires forall j :: 0 <= j < |shuffles| ==> ShuffleOf(shuffles[j], live)
    ensures i < 2 * |live| - 1 && i < |Targets(p, live, shuffles)| && Targets(p, live, shuffles)[i] == peer
  {
    var due := |Due(p.Ahead(), live)|;
    OthersAreDue(p, live, peer);
    NewRound(shuffles[due], live);
    var j := PlaceOf(shuffles[due], live, peer);
    ThenComesTheNextRound(p, live, shuffles, j);
    i := due + j;
  }

  lemma OthersAreDue(p: Probing, live: set<nat>, peer: nat)
    requires p.Valid() && peer in live && peer !in p.Ahead()
    ensures |Due(p.Ahead(), live)| <= |live| - 1
  {
    var due := Due(p.Ahead(), live);
    DueIsLive(p.Ahead(), live);
    DistinctCount(due);
    SubsetIsSmaller(Elements(due), live - {peer});
  }

  lemma PlaceOf(s: seq<nat>, live: set<nat>, peer: nat) returns (j: nat)
    requires ShuffleOf(s, live) && peer in live
    ensures j < |s| && s[j] == peer
  {
    assert peer in Elements(s);
    j :| 0 <= j < |s| && s[j] == peer;
  }

  /** Main result: while membership is stable, a peer is given within as many calls as
      others are due and a whole round more: within 2N - 1 of its last probe. */
  lemma EveryPeerIsProbed(p: Probing, live: set<nat>, shuffles: seq<seq<nat>>, peer: nat) returns (i: nat)
    requires p.Valid() && peer in live && |shuffles| >= 2 * |live|
    requires forall j :: 0 <= j < |shuffles| ==> ShuffleOf(shuffles[j], live)
    ensures i < |Targets(p, live, shuffles)| && Targets(p, live, shuffles)[i] == peer
    ensures i < if peer in p.Ahead() then |live| else 2 * |live| - 1
  {
    if peer in p.Ahead() {
      i := ProbedThisRound(p, live, shuffles, peer);
    } else {
      i := ProbedNextRound(p, live, shuffles, peer);
    }
  }
}
