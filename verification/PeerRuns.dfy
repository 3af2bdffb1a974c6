/** What counts of the peers after any run of reports, leaves and expiries, told by the
    reports themselves (rateguard-core/src/peer_demand.rs).
 */
module PeerRuns {
  import opened Wrappers
  import opened Quotas
  import opened Proto
  import opened PeerDemand

  datatype Op =
    | Told(from: nat, report: DemandReport, now: nat)
    | Gone(peer: nat, now: nat, hold: nat)
    | Expiry(now: nat, maxAge: nat)

  function After(peers: Peers, op: Op): Peers {
    match op
    case Told(from, r, now) => Applied(peers, from, r, now)
    case Gone(peer, now, hold) => Left(peers, peer, now, hold)
    case Expiry(now, maxAge) => ExpireAll(peers, now, maxAge)
  }

  /** From nothing heard. */
  ghost predicate RunOf(trace: seq<Peers>, ops: seq<Op>) {
    && |trace| == |ops| + 1 && trace[0] == map[]
    && forall i, j :: 0 <= i < j < |trace| && j == i + 1 ==> trace[j] == After(trace[i], ops[i])
  }

  // ------------------------------------------------------------------ nothing is made up

  /** The peer's own report gives the key a word. */
  predicate GivesWord(op: Op, m: nat, k: nat) {
    op.Told? && op.from == m && op.report.origin == m && k in KeysOf(op.report.keys)
  }

  predicate GivesDemand(op: Op, m: nat, k: nat, d: real) {
    GivesWord(op, m, k) && KeysOf(op.report.keys)[k].demand == d
  }

  predicate GivesPrimary(op: Op, m: nat, k: nat) {
    GivesWord(op, m, k) && KeysOf(op.report.keys)[k].primary
  }

  /** Some report up to state `i` gave the key that demand, and if need be one called it
      primary. */
  ghost predicate Said(ops: seq<Op>, m: nat, k: nat, i: nat, h: Heard) {
    && (exists j :: 0 <= j < i <= |ops| && GivesDemand(ops[j], m, k, h.demand))
    && (h.primary ==> exists j :: 0 <= j < i <= |ops| && GivesPrimary(ops[j], m, k))
  }

  predicate DemandIs(h: Option<Heard>, d: real) { h.Some? && h.value.demand == d }

  predicate IsPrimary(h: Option<Heard>) { h.Some? && h.value.primary }

  /** A word comes from one of two before it or from the operation. */
  predicate Sourced(h: Option<Heard>, a: Option<Heard>, b: Option<Heard>, op: Op, m: nat, k: nat) {
    h.Some? ==>
      && (DemandIs(a, h.value.demand) || DemandIs(b, h.value.demand) || GivesDemand(op, m, k, h.value.demand))
      && (h.value.primary ==> IsPrimary(a) || IsPrimary(b) || GivesPrimary(op, m, k))
  }

  lemma ReportSources(p: Peer, r: DemandReport, now: nat, m: nat, k: nat)
    requires r.origin == m
    ensures var q := ApplyTo(p, r, now);
            && Sourced(SnapshotWord(q, k), SnapshotWord(p, k), None, Told(m, r, now), m, k)
            && Sourced(ContestedWord(q, k), SnapshotWord(p, k), ContestedWord(p, k), Told(m, r, now), m, k)
  {
  }

  lemma StepSources(peers: Peers, op: Op, m: nat, k: nat)
    ensures var p, q := PeerAt(peers, m), PeerAt(After(peers, op), m);
            && Sourced(SnapshotWord(q, k), SnapshotWord(p, k), None, op, m, k)
            && Sourced(ContestedWord(q, k), SnapshotWord(p, k), ContestedWord(p, k), op, m, k)
  {
    match op
    case Told(from, r, now) =>
      if from == m && r.origin == m {
        ReportSources(PeerAt(peers, m), r, now, m, k);
      }
    case Gone(_, _, _) =>
    case Expiry(now, maxAge) => WhatLasts(peers, now, maxAge, m, k);
  }

  lemma SaidBySource(ops: seq<Op>, m: nat, k: nat, i: nat, h: Option<Heard>, a: Option<Heard>, b: Option<Heard>)
    requires i < |ops| && Sourced(h, a, b, ops[i], m, k)
    requires a.Some? ==> Said(ops, m, k, i, a.value)
    requires b.Some? ==> Said(ops, m, k, i, b.value)
    ensures h.Some? ==> Said(ops, m, k, i + 1, h.value)
  {
  }

  ghost predicate BothSaid(ops: seq<Op>, m: nat, k: nat, i: nat, p: Peer) {
    && (SnapshotWord(p, k).Some? ==> Said(ops, m, k, i, SnapshotWord(p, k).value))
    && (ContestedWord(p, k).Some? ==> Said(ops, m, k, i, ContestedWord(p, k).value))
  }

  lemma StepSaid(ops: seq<Op>, m: nat, k: nat, i: nat, p: Peer, q: Peer)
    requires i < |ops| && BothSaid(ops, m, k, i, p)
    requires Sourced(SnapshotWord(q, k), SnapshotWord(p, k), None, ops[i], m, k)
    requires Sourced(ContestedWord(q, k), SnapshotWord(p, k), ContestedWord(p, k), ops[i], m, k)
    ensures BothSaid(ops, m, k, i + 1, q)
  {
    SaidBySource(ops, m, k, i, SnapshotWord(q, k), SnapshotWord(p, k), None);
    SaidBySource(ops, m, k, i, ContestedWord(q, k), SnapshotWord(p, k), ContestedWord(p, k));
  }

  /** Main result: whatever counts of a key for a peer, taken or contested, through every
      order of reports, leaves and expiries, is a demand that peer itself reported of that
      key, and primary only if it said so. */
  lemma WordsWereSaid(trace: seq<Peers>, ops: seq<Op>, m: nat, k: nat, i: nat)
    requires RunOf(trace, ops) && i < |trace|
    ensures HeardOf(PeerAt(trace[i], m), k).Some? ==> Said(ops, m, k, i, HeardOf(PeerAt(trace[i], m), k).value)
  {
    BothWordsWereSaid(trace, ops, m, k, i);
  }

  lemma {:induction false} BothWordsWereSaid(trace: seq<Peers>, ops: seq<Op>, m: nat, k: nat, i: nat)
    requires RunOf(trace, ops) && i < |trace|
    ensures BothSaid(ops, m, k, i, PeerAt(trace[i], m))
  {
    if i > 0 {
      BothWordsWereSaid(trace, ops, m, k, i - 1);
      assert trace[i] == After(trace[i - 1], ops[i - 1]);
      StepSources(trace[i - 1], ops[i - 1], m, k);
      StepSaid(ops, m, k, i - 1, PeerAt(trace[i - 1], m), PeerAt(trace[i], m));
    }
  }

  // ----------------------------------------------------------------------- the others

  /** A report or a leave changes nothing of any peer but its own. */
  lemma OthersStay(peers: Peers, op: Op, m: nat)
    requires match op case Told(from, _, _) => from != m case Gone(peer, _, _) => peer != m case Expiry(_, _) => false
    ensures PeerAt(After(peers, op), m) == PeerAt(peers, m)
    ensures m in After(peers, op) <==> m in peers
  {
  }

  /** What a leave holds counts on as it was, and a report taken ends the hold; one that is
      not leaves it. */
  lemma HoldEndsWithNews(peers: Peers, m: nat, now: nat, hold: nat, r: DemandReport, later: nat)
    requires m in peers && r.origin == m && hold > 0
    ensures var held := After(peers, Gone(m, now, hold)); var after := After(held, Told(m, r, later));
            && m in held && held[m] == peers[m].(heldUntil := Some(SatAdd(now, hold)))
            && m in after
            && after[m].heldUntil == if Takes(peers[m], r) then None else Some(SatAdd(now, hold))
  {
  }
}
