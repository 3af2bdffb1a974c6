/** What a member table has recorded after any run of its operations, told by the
    operations and their times (rateguard-core/src/member.rs).
 */
module MemberRuns {
  import opened Wrappers
  import opened Proto
  import opened Quotas
  import opened Member

  datatype Op =
    | Hear(update: Update, now: nat)
    | Miss(peer: nat, now: nat)              // a probe of it failed
    | Expire(now: nat, timeout: nat)
    | Forget(now: nat, ttl: nat)
    | Depart(peer: nat)                      // it said itself that it leaves
    | Cap(max: nat)

  function After(v: View, op: Op): View {
    match op
    case Hear(u, now) => v.Apply(u, now).1
    case Miss(peer, now) => v.SuspectAt(peer, now)
    case Expire(now, timeout) => v.ExpireSuspects(now, timeout)
    case Forget(now, ttl) => v.ForgetDead(now, ttl)
    case Depart(peer) => v.Depart(peer)
    case Cap(max) => v.(max := max)
  }

  function TimeOf(op: Op): nat { if op.Depart? || op.Cap? then 0 else op.now }

  /** From a table that knows only its own node. */
  ghost predicate Run(trace: seq<View>, ops: seq<Op>) {
    && |trace| == |ops| + 1 && trace[0].members == map[]
    && forall i :: 0 <= i < |ops| ==> trace[i + 1] == After(trace[i], ops[i])
  }

  /** What is believed of a member: news of it changes that, and nothing else does. */
  function Standing(v: View, m: nat): Option<nat> {
    if m in v.members then Some(Rank(v.members[m].incarnation, v.members[m].status)) else None
  }

  predicate Changed(v: View, w: View, m: nat) { Standing(v, m) != Standing(w, m) }

  /** The operation before state `i` that last brought news of the member. */
  function LastNews(trace: seq<View>, m: nat, i: nat): (r: nat)
    requires i < |trace|
    ensures i > 0 ==> r < i
  {
    if i == 0 then 0 else if Changed(trace[i - 1], trace[i], m) then i - 1 else LastNews(trace, m, i - 1)
  }

  /** And it is the last: no operation after it brought any. */
  lemma {:induction false} LastNewsIsLast(trace: seq<View>, m: nat, i: nat)
    requires 0 < i < |trace| && trace[0].members == map[] && m in trace[i].members
    ensures Changed(trace[LastNews(trace, m, i)], trace[LastNews(trace, m, i) + 1], m)
    ensures forall j :: LastNews(trace, m, i) < j < i ==> !Changed(trace[j], trace[j + 1], m) && m in trace[j].members
  {
    if !Changed(trace[i - 1], trace[i], m) {
      LastNewsIsLast(trace, m, i - 1);
    }
  }

  // ----------------------------------------------------------------------- one step

  lemma StepStamps(v: View, op: Op, m: nat)
    requires m in After(v, op).members
    ensures Changed(v, After(v, op), m) ==>
              && After(v, op).members[m].since == TimeOf(op) && !After(v, op).members[m].departed
              && !op.Depart? && !op.Cap?
    ensures !Changed(v, After(v, op), m) ==>
              && m in v.members && After(v, op).members[m].since == v.members[m].since
              && (After(v, op).members[m].departed
                  <==> v.members[m].departed || (op == Depart(m) && v.members[m].status == Dead))
  {
  }

  lemma StepAddresses(v: View, op: Op, m: nat)
    requires m in After(v, op).members
    ensures op.Hear? && Changed(v, After(v, op), m) ==>
              op.update.member == m && After(v, op).members[m].addr == op.update.addr
    ensures !(op.Hear? && Changed(v, After(v, op), m)) ==>
              m in v.members && After(v, op).members[m].addr == v.members[m].addr
  {
  }

  /** The member comes in, or comes back to life. */
  predicate Comes(v: View, w: View, m: nat) { m in w.members && (m !in v.members || (!v.IsLive(m) && w.IsLive(m))) }

  lemma StepJoins(v: View, op: Op, m: nat)
    requires m in After(v, op).members
    ensures Comes(v, After(v, op), m) ==> op.Hear? && After(v, op).members[m].joined == TimeOf(op)
    ensures !Comes(v, After(v, op), m) ==> m in v.members && After(v, op).members[m].joined == v.members[m].joined
  {
  }

  // --------------------------------------------------------------------- over a run

  /** A record is stamped with the time of the last news of its member. */
  lemma {:induction false} StampIsLastNews(trace: seq<View>, ops: seq<Op>, m: nat, i: nat)
    requires Run(trace, ops) && i < |trace| && m in trace[i].members
    ensures i > 0 && trace[i].members[m].since == TimeOf(ops[LastNews(trace, m, i)])
  {
    StepStamps(trace[i - 1], ops[i - 1], m);
    if !Changed(trace[i - 1], trace[i], m) {
      StampIsLastNews(trace, ops, m, i - 1);
    }
  }

  /** Main result for suspects: one dies at an expiry if and only if the last news of it
      came at least the timeout before, and nobody else does. */
  lemma SuspectDiesOnTime(trace: seq<View>, ops: seq<Op>, m: nat, i: nat)
    requires Run(trace, ops) && i < |ops| && ops[i].Expire? && ops[i].timeout > 0 && m in trace[i].members
    ensures m in trace[i + 1].members
    ensures var news := TimeOf(ops[LastNews(trace, m, i)]); var now := ops[i].now;
            if trace[i].members[m].status == Suspect && now >= news + ops[i].timeout
            then
              && trace[i + 1].members[m].status == Dead
              && trace[i + 1].members[m].incarnation == trace[i].members[m].incarnation
            else trace[i + 1].members[m] == trace[i].members[m]
  {
    StampIsLastNews(trace, ops, m, i);
  }

  /** Main result for the dead: one is forgotten if and only if the news of its death is as
      old as a tombstone may get, and nobody else is. */
  lemma DeadIsForgottenOnTime(trace: seq<View>, ops: seq<Op>, m: nat, i: nat)
    requires Run(trace, ops) && i < |ops| && ops[i].Forget? && m in trace[i].members
    ensures var news := TimeOf(ops[LastNews(trace, m, i)]); var now := ops[i].now;
            m !in trace[i + 1].members
            <==> trace[i].members[m].status == Dead && (now >= news + ops[i].ttl || ops[i].ttl == 0)
    ensures m in trace[i + 1].members ==> trace[i + 1].members[m] == trace[i].members[m]
  {
    StampIsLastNews(trace, ops, m, i);
  }

  /** A failed probe makes an alive member a suspect, and no other. */
  lemma MissSuspects(trace: seq<View>, ops: seq<Op>, m: nat, i: nat)
    requires Run(trace, ops) && i < |ops| && ops[i].Miss? && m in trace[i].members
    requires m != trace[i].local
    ensures m in trace[i + 1].members
    ensures trace[i + 1].members[m].status
            == if m == ops[i].peer && trace[i].members[m].status == Alive then Suspect else trace[i].members[m].status
  {
  }

  /** The operation that last brought an address. */
  function LastHeard(trace: seq<View>, ops: seq<Op>, m: nat, i: nat): (r: nat)
    requires i < |trace| && |trace| == |ops| + 1
    ensures i > 0 ==> r < i
  {
    if i == 0 then 0
    else if ops[i - 1].Hear? && Changed(trace[i - 1], trace[i], m) then i - 1
    else LastHeard(trace, ops, m, i - 1)
  }

  lemma {:induction false} AddressIsLastHeard(trace: seq<View>, ops: seq<Op>, m: nat, i: nat)
    requires Run(trace, ops) && i < |trace| && m in trace[i].members
    ensures i > 0
    ensures var said := ops[LastHeard(trace, ops, m, i)];
            said.Hear? && said.update.member == m && trace[i].members[m].addr == said.update.addr
  {
    StepAddresses(trace[i - 1], ops[i - 1], m);
    if !(ops[i - 1].Hear? && Changed(trace[i - 1], trace[i], m)) {
      AddressIsLastHeard(trace, ops, m, i - 1);
    }
  }

  /** The operation by which it last came. */
  function LastCome(trace: seq<View>, m: nat, i: nat): (r: nat)
    requires i < |trace|
    ensures i > 0 ==> r < i
  {
    if i == 0 then 0 else if Comes(trace[i - 1], trace[i], m) then i - 1 else LastCome(trace, m, i - 1)
  }

  lemma {:induction false} JoinedIsLastCome(trace: seq<View>, ops: seq<Op>, m: nat, i: nat)
    requires Run(trace, ops) && i < |trace| && m in trace[i].members
    ensures i > 0 && Comes(trace[LastCome(trace, m, i)], trace[LastCome(trace, m, i) + 1], m)
    ensures trace[i].members[m].joined == TimeOf(ops[LastCome(trace, m, i)])
  {
    StepJoins(trace[i - 1], ops[i - 1], m);
    if !Comes(trace[i - 1], trace[i], m) {
      JoinedIsLastCome(trace, ops, m, i - 1);
    }
  }

  /** A member has departed if and only if it said so while dead, and no news of it came
      since. */
  lemma {:induction false} DepartedIsSaidLast(trace: seq<View>, ops: seq<Op>, m: nat, i: nat)
    requires Run(trace, ops) && i < |trace| && m in trace[i].members
    ensures trace[i].HasDeparted(m)
            <==> trace[i].members[m].status == Dead && exists d :: LastNews(trace, m, i) < d < i && ops[d] == Depart(m)
  {
    StepStamps(trace[i - 1], ops[i - 1], m);
    if !Changed(trace[i - 1], trace[i], m) {
      DepartedIsSaidLast(trace, ops, m, i - 1);
      assert trace[i].members[m].status == trace[i - 1].members[m].status by {
        SameStanding(trace[i - 1].members[m], trace[i].members[m]);
      }
      if ops[i - 1] == Depart(m) {
        assert LastNews(trace, m, i) < i - 1 || i == 1;
      }
    }
  }

  lemma SameStanding(a: Member, b: Member)
    requires Rank(a.incarnation, a.status) == Rank(b.incarnation, b.status)
    ensures a.incarnation == b.incarnation && a.status == b.status
  {
  }
}
