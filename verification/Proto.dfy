/** Membership news and the limits of one message (rateguard-proto/src/lib.rs). */
module Proto {
  const U32_MAX := 0xFFFF_FFFF
  const MAX_UPDATES := 12
  const MAX_REPORTS := 1
  const MAX_DEMAND_KEYS := 64

  datatype Status = Alive | Suspect | Dead

  /** The order of precedence within one incarnation. */
  function Precedence(s: Status): nat {
    match s case Alive => 0 case Suspect => 1 case Dead => 2
  }

  datatype Update = Update(member: nat, addr: nat, incarnation: nat, status: Status)

  /** Where a record stands in the order of news about its member: incarnations
      first, then the status. */
  function Rank(incarnation: nat, status: Status): nat {
    3 * incarnation + Precedence(status)
  }

  /** Callers compare news about one member only: the source panics otherwise. */
  predicate Supersedes(u: Update, other: Update)
    requires u.member == other.member
  {
    u.incarnation > other.incarnation
    || (u.incarnation == other.incarnation && Precedence(u.status) > Precedence(other.status))
  }

  /** News is totally ordered, and never supersedes itself: an echo is no news. */
  lemma SupersedesIsRank(u: Update, other: Update)
    requires u.member == other.member
    ensures Supersedes(u, other) <==> Rank(u.incarnation, u.status) > Rank(other.incarnation, other.status)
    ensures Rank(u.incarnation, u.status) == Rank(other.incarnation, other.status)
            <==> u.incarnation == other.incarnation && u.status == other.status
  {
  }

  datatype KeyDemand = KeyDemand(key: nat, demand: real, primary: bool)
  datatype DemandReport = DemandReport(origin: nat, epoch: nat, round: nat, keys: seq<KeyDemand>)

  datatype Error = TooManyUpdates(n: nat) | TooManyReports(n: nat) | TooManyDemandKeys(n: nat) | InvalidDemand
  datatype Outcome = Pass | Fail(error: Error)

  function KeysIn(reports: seq<DemandReport>): nat {
    if reports == [] then 0 else |reports[0].keys| + KeysIn(reports[1..])
  }

  /** The first limit a message breaks, in the order they are checked. */
  function CheckLimits(updates: seq<Update>, demand: seq<DemandReport>): (r: Outcome)
    ensures r.Pass? <==>
              && |updates| <= MAX_UPDATES && |demand| <= MAX_REPORTS && KeysIn(demand) <= MAX_DEMAND_KEYS
              && forall i, j :: 0 <= i < |demand| && 0 <= j < |demand[i].keys| ==> demand[i].keys[j].demand >= 0.0
  {
    if |updates| > MAX_UPDATES then Fail(TooManyUpdates(|updates|))
    else if |demand| > MAX_REPORTS then Fail(TooManyReports(|demand|))
    else if KeysIn(demand) > MAX_DEMAND_KEYS then Fail(TooManyDemandKeys(KeysIn(demand)))
    else if exists i, j :: 0 <= i < |demand| && 0 <= j < |demand[i].keys| && demand[i].keys[j].demand < 0.0 then
      Fail(InvalidDemand)
    else Pass
  }
}
