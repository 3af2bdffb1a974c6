/** A share falls at once and rises two rounds late (rateguard-core/src/node.rs,
    `apply_shares`): why the fleet stays at the limit while views disagree.
 */
module DelayedRise {
  import opened Wrappers
  import opened Quotas
  import opened GcraRuns
  import opened Allocation
  import Gcra

  /** The last two shares computed for a key, newest first. */
  type Recent = (real, real)

  /** A key with no past counts as having had this share all along. */
  function Past(past: Option<Recent>, share: real): Recent {
    if past.Some? then past.value else (share, share)
  }

  function Applied(past: Option<Recent>, share: real): real {
    MinReal(MinReal(share, Past(past, share).0), Past(past, share).1)
  }

  function Kept(past: Option<Recent>, share: real): Recent {
    (share, Past(past, share).0)
  }

  function Lookup(m: map<nat, Recent>, key: nat): Option<Recent> {
    if key in m then Some(m[key]) else None
  }

  /** What a round applies, from the shares it computes for the keys hot in it. */
  function AppliedIn(recent: map<nat, Recent>, computed: map<nat, real>): map<nat, real> {
    map key | key in computed :: Applied(Lookup(recent, key), computed[key])
  }

  /** And what it keeps: a key that cools for a round starts over. */
  function KeptIn(recent: map<nat, Recent>, computed: map<nat, real>): map<nat, Recent> {
    map key | key in computed :: Kept(Lookup(recent, key), computed[key])
  }

  /** `recent_shares`, rebuilt every round from the keys hot in it. */
  class RecentShares {
    var recent: map<nat, Recent>

    constructor ()
      ensures recent == map[]
    {
      recent := map[];
    }

    method ApplyShares(computed: map<nat, real>) returns (applied: map<nat, real>)
      modifies this
      ensures applied == AppliedIn(old(recent), computed) && recent == KeptIn(old(recent), computed)
    {
      var previous := recent;
      var kept: map<nat, Recent> := map[];
      applied := map[];
      var left := computed.Keys;
      while left != {}
        invariant left <= computed.Keys
        invariant applied == map key | key in computed && key !in left :: Applied(Lookup(previous, key), computed[key])
        invariant kept == map key | key in computed && key !in left :: Kept(Lookup(previous, key), computed[key])
      {
        var key :| key in left;
        var past := Lookup(previous, key);
        applied := applied[key := Applied(past, computed[key])];
        kept := kept[key := Kept(past, computed[key])];
        left := left - {key};
      }
      recent := kept;
    }
  }

  /** What is kept of a key hot for the rounds whose shares are `computed`. */
  function KeptAfter(computed: seq<real>): Option<Recent> {
    if computed == [] then None
    else Some(Kept(KeptAfter(computed[..|computed| - 1]), computed[|computed| - 1]))
  }

  /** What is applied after its round `k`. */
  function AppliedAt(computed: seq<real>, k: nat): real
    requires k < |computed|
  {
    Applied(KeptAfter(computed[..k]), computed[k])
  }

  lemma KeptAreTheLastTwo(computed: seq<real>)
    requires computed != []
    ensures
      var n := |computed|;
      KeptAfter(computed) == Some((computed[n - 1], if n >= 2 then computed[n - 2] else computed[n - 1]))
  {
    var init := computed[..|computed| - 1];
    if init != [] {
      assert init[..|init| - 1] == computed[..|computed| - 2];
    }
  }

  /** The applied share is the least of the last three computed, however long the
      key has been hot. */
  lemma AppliedIsLeastOfThree(computed: seq<real>, k: nat)
    requires k < |computed|
    ensures forall j :: 0 <= j <= k && k <= j + 2 ==> AppliedAt(computed, k) <= computed[j]
    ensures exists j :: 0 <= j <= k && k <= j + 2 && AppliedAt(computed, k) == computed[j]
  {
    if k > 0 {
      KeptAreTheLastTwo(computed[..k]);
    } else {
      assert AppliedAt(computed, 0) == computed[0];
    }
  }

  // ------------------------------------------------------------- round after round

  /** What is kept after the rounds, from nothing. */
  function RecentAfter(rounds: seq<map<nat, real>>): map<nat, Recent> {
    if rounds == [] then map[] else KeptIn(RecentAfter(rounds[..|rounds| - 1]), rounds[|rounds| - 1])
  }

  /** For how many rounds up to the last the key has been hot without a break. */
  function HotFor(rounds: seq<map<nat, real>>, key: nat): (n: nat)
    ensures n <= |rounds|
    ensures forall i :: |rounds| - n <= i < |rounds| ==> key in rounds[i]
    ensures n < |rounds| ==> key !in rounds[|rounds| - 1 - n]
  {
    if rounds == [] || key !in rounds[|rounds| - 1] then 0 else 1 + HotFor(rounds[..|rounds| - 1], key)
  }

  /** The shares computed for it in them. */
  function HotShares(rounds: seq<map<nat, real>>, key: nat): (s: seq<real>)
    ensures |s| == HotFor(rounds, key)
    ensures forall i :: 0 <= i < |s| ==> s[i] == rounds[|rounds| - |s| + i][key]
  {
    var n := HotFor(rounds, key);
    seq(n, i requires 0 <= i < n => rounds[|rounds| - n + i][key])
  }

  lemma OneRoundMore(rounds: seq<map<nat, real>>, computed: map<nat, real>, key: nat)
    ensures key in computed ==> HotShares(rounds + [computed], key) == HotShares(rounds, key) + [computed[key]]
    ensures key !in computed ==> HotShares(rounds + [computed], key) == []
  {
    var all := rounds + [computed];
    assert all[..|all| - 1] == rounds;
    if key in computed {
      assert HotFor(all, key) == 1 + HotFor(rounds, key);
    }
  }

  /** What is kept of a key is what its unbroken rounds leave. */
  lemma {:induction false} KeptOfARun(rounds: seq<map<nat, real>>, key: nat)
    ensures Lookup(RecentAfter(rounds), key) == KeptAfter(HotShares(rounds, key))
  {
    if rounds != [] {
      var init, last := rounds[..|rounds| - 1], rounds[|rounds| - 1];
      KeptOfARun(init, key);
      assert rounds == init + [last];
      OneRoundMore(init, last, key);
      var shares := HotShares(init, key);
      if key in last {
        var more := shares + [last[key]];
        assert more[..|more| - 1] == shares;
      }
    }
  }

  lemma AppliedOfARun(rounds: seq<map<nat, real>>, computed: map<nat, real>, key: nat)
    requires key in computed
    ensures var shares := HotShares(rounds + [computed], key);
            |shares| > 0 && AppliedIn(RecentAfter(rounds), computed)[key] == AppliedAt(shares, |shares| - 1)
  {
    var shares := HotShares(rounds + [computed], key);
    KeptOfARun(rounds, key);
    OneRoundMore(rounds, computed, key);
    assert shares[..|shares| - 1] == HotShares(rounds, key);
  }

  /** The least of the last three shares computed for a key since it was last not hot,
      in terms of the rounds alone. */
  ghost predicate LeastOfThree(rounds: seq<map<nat, real>>, key: nat, share: real) {
    var first := |rounds| - Min(HotFor(rounds, key), 3);
    && (forall i :: first <= i < |rounds| ==> share <= rounds[i][key])
    && (exists i :: first <= i < |rounds| && share == rounds[i][key])
  }

  lemma LastIsLeastOfThree(rounds: seq<map<nat, real>>, key: nat)
    requires HotFor(rounds, key) > 0
    ensures LeastOfThree(rounds, key, AppliedAt(HotShares(rounds, key), HotFor(rounds, key) - 1))
  {
    var shares, n := HotShares(rounds, key), HotFor(rounds, key);
    var share := AppliedAt(shares, n - 1);
    AppliedIsLeastOfThree(shares, n - 1);
    forall i | |rounds| - Min(n, 3) <= i < |rounds| ensures share <= rounds[i][key] {
      assert shares[i - (|rounds| - n)] == rounds[i][key];
    }
    var j :| 0 <= j <= n - 1 && n - 1 <= j + 2 && share == shares[j];
    assert shares[j] == rounds[|rounds| - n + j][key];
  }

  /** Main result for the rounds: what each applies to a key hot in it is the least of the
      last three shares computed for it, its own among them, of those since the key
      was last not hot; and that is `AppliedAt` of these. */
  lemma RoundsApplyTheLeastOfThree(rounds: seq<map<nat, real>>, computed: map<nat, real>, key: nat)
    requires key in computed
    ensures var applied := AppliedIn(RecentAfter(rounds), computed);
            && applied.Keys == computed.Keys
            && LeastOfThree(rounds + [computed], key, applied[key])
            && HotFor(rounds + [computed], key) > 0
            && applied[key] == AppliedAt(HotShares(rounds + [computed], key), HotFor(rounds + [computed], key) - 1)
  {
    AppliedOfARun(rounds, computed, key);
    LastIsLeastOfThree(rounds + [computed], key);
  }

  // ------------------------------------------------------------ the fleet in time

  /** One node's rounds: when each ran and the share it computed for the key. */
  datatype Rounds = Rounds(at: seq<int>, computed: seq<real>)

  /** Rounds come a period apart or later, and no later than `gap`; the key has
      been hot for three of them before the change at 0. Their phase is the
      node's own. */
  ghost predicate Paced(r: Rounds, period: int, gap: int) {
    && |r.at| == |r.computed| >= 3 && r.at[2] < 0
    && forall k :: 0 < k < |r.at| ==> period <= r.at[k] - r.at[k - 1] <= gap
  }

  /** The last round at or before `t`, with nothing missing up to `t`. */
  ghost predicate Current(r: Rounds, t: int, gap: int, k: nat) {
    && |r.at| == |r.computed| && k < |r.at| && r.at[k] <= t
    && (if k + 1 < |r.at| then t < r.at[k + 1] else t < r.at[k] + gap)
  }

  /** Node `i`'s shares before the change at 0, and from `settled` on, come from
      one view consistent across the fleet; in between they are arbitrary. */
  ghost predicate Follows(r: Rounds, i: nat, limit: real, beta: real, before: seq<real>, after: seq<real>, settled: int)
    requires i < |before| && i < |after|
  {
    forall k :: 0 <= k < |r.at| && k < |r.computed| ==>
      && (r.at[k] < 0 ==> r.computed[k] == Share(Consistent(limit, beta, before, i)))
      && (r.at[k] >= settled ==> r.computed[k] == Share(Consistent(limit, beta, after, i)))
  }

  /** Before change + 2 rounds a node still holds itself to its old share, and
      from then on to its new one. */
  lemma OldThenNew(r: Rounds, period: int, gap: int, i: nat, limit: real, beta: real, before: seq<real>,
                   after: seq<real>,
                   settled: int, t: int, k: nat)
    requires i < |before| && i < |after| && 0 < period <= gap && settled + gap <= 2 * period
    requires Paced(r, period, gap) && Follows(r, i, limit, beta, before, after, settled)
    requires Current(r, t, gap, k) && r.at[2] <= t
    ensures t < 2 * period ==> AppliedAt(r.computed, k) <= Share(Consistent(limit, beta, before, i))
    ensures t >= 2 * period ==> AppliedAt(r.computed, k) <= Share(Consistent(limit, beta, after, i))
  {
    AppliedIsLeastOfThree(r.computed, k);
    assert r.at[2] - r.at[1] >= period;
    assert k >= 2;
    assert r.at[k] - r.at[k - 1] >= period && r.at[k - 1] - r.at[k - 2] >= period;
    assert k + 1 < |r.at| ==> r.at[k + 1] - r.at[k] <= gap;
  }

  /** What the fleet applies at `t`, `last[i]` being node `i`'s last round. */
  function FleetShares(fleet: seq<Rounds>, last: seq<nat>): (s: seq<real>)
    requires |fleet| == |last| && forall i :: 0 <= i < |fleet| ==> last[i] < |fleet[i].computed|
    ensures |s| == |fleet|
  {
    seq(|fleet|, i requires 0 <= i < |fleet| => AppliedAt(fleet[i].computed, last[i]))
  }

  lemma {:induction false} SumMonotone(a: seq<real>, b: seq<real>)
    requires |a| == |b| && forall i :: 0 <= i < |a| ==> a[i] <= b[i]
    ensures Sum(a) <= Sum(b)
  {
    if a != [] {
      SumMonotone(a[1..], b[1..]);
    }
  }

  /** Main result: after one step change of demand, if every node's view is
      consistent again soon enough for every round to fit, then at every moment,
      whatever the phases and whatever the nodes computed in between, the applied
      shares of a key hot on every node add up to no more than the limit. With
      rounds exactly a period apart, soon enough is within one round. */
  lemma DelayedRiseKeepsTheLimit(fleet: seq<Rounds>, last: seq<nat>, period: int, gap: int, limit: real, beta: real,
                                 before: seq<real>, after: seq<real>, settled: int, t: int)
    requires 0 < period <= gap && settled + gap <= 2 * period
    requires |fleet| == |last| == |before| == |after| > 0
    requires forall i :: 0 <= i < |fleet| ==> last[i] < |fleet[i].computed|
    requires forall i :: 0 <= i < |fleet| ==> before[i] >= 0.0 && after[i] >= 0.0
    requires forall i :: 0 <= i < |fleet| ==>
               && Paced(fleet[i], period, gap) && Current(fleet[i], t, gap, last[i]) && fleet[i].at[2] <= t
               && Follows(fleet[i], i, limit, beta, before, after, settled)
    ensures Sum(FleetShares(fleet, last)) <= limit
  {
    var applied := FleetShares(fleet, last);
    var bound := Shares(limit, beta, if t < 2 * period then before else after, |fleet|);
    forall i | 0 <= i < |fleet| ensures applied[i] <= bound[i] {
      OldThenNew(fleet[i], period, gap, i, limit, beta, before, after, settled, t, last[i]);
    }
    SumMonotone(applied, bound);
    SharesAddUpToTheLimit(limit, beta, before);
    SharesAddUpToTheLimit(limit, beta, after);
  }

  /** The last share and the one before, were they held to the least of two. */
  function LeastOfTwo(r: Rounds, k: nat): real
    requires 0 < k < |r.computed|
  {
    MinReal(r.computed[k], r.computed[k - 1])
  }

  /** Two nodes of period 10 share a limit of 10 by demands of 2 to 8, and from 0 on
      of 8 to 2, their views consistent again at 10. */
  const RISING := Rounds([-30, -20, -10, 0, 10], [2.0, 2.0, 2.0, 8.0, 8.0])
  const FALLING := Rounds([-31, -21, -11, -1, 9], [8.0, 8.0, 8.0, 8.0, 8.0])

  /** A node's part of it, in its place in the fleet. */
  ghost predicate TakesPart(r: Rounds, i: nat)
    requires i < 2
  {
    Paced(r, 10, 10) && Current(r, 10, 10, 4) && Follows(r, i, 10.0, 0.0, [2.0, 8.0], [8.0, 2.0], 10)
  }

  lemma RisingFollows()
    ensures TakesPart(RISING, 0)
  {
    TwoShares([2.0, 8.0]);
    TwoShares([8.0, 2.0]);
  }

  lemma FallingFollows()
    ensures TakesPart(FALLING, 1)
  {
    TwoShares([2.0, 8.0]);
    TwoShares([8.0, 2.0]);
  }

  /** One round of delay would not do: held to the least of the last two shares these
      two take 16 out of 10 at that moment, held to the least of three exactly 10. */
  lemma OneRoundIsNotEnough()
    ensures LeastOfTwo(RISING, 4) + LeastOfTwo(FALLING, 4) == 16.0
    ensures AppliedAt(RISING.computed, 4) + AppliedAt(FALLING.computed, 4) == 10.0
  {
    AppliedOfThree(RISING.computed, 2.0);
    AppliedOfThree(FALLING.computed, 8.0);
  }

  lemma AppliedOfThree(computed: seq<real>, least: real)
    requires |computed| == 5 && computed[2] == least && computed[3] >= least && computed[4] >= least
    ensures AppliedAt(computed, 4) == least
  {
    AppliedIsLeastOfThree(computed, 4);
  }

  /** Two nodes' shares of 10 with no floor, where 10 is asked for. */
  lemma TwoShares(demand: seq<real>)
    requires |demand| == 2 && demand[0] + demand[1] == 10.0
    ensures Share(Consistent(10.0, 0.0, demand, 0)) == demand[0]
    ensures Share(Consistent(10.0, 0.0, demand, 1)) == demand[1]
  {
    var rest := demand[1..];
    assert rest[1..] == [] && Sum(rest[1..]) == 0.0;
    assert Sum(rest) == demand[1];
  }

  // ---------------------------------------------------------------- in admissions

  /** The slowest rate a quota holds, for each of `n` nodes. */
  function Slowest(n: nat): real {
    if n == 0 then 0.0 else Slowest(n - 1) + ONE_SEC as real / MAX_INTERVAL as real
  }

  lemma QuotaOfShare(share: real, burst: nat)
    requires 0 < burst <= MAX_BURST && share >= 0.0
    ensures PerSecond(share, burst).interval > 0
    ensures Rate(PerSecond(share, burst)) <= share + ONE_SEC as real / MAX_INTERVAL as real
  {
    PerSecondIsWithin(share, burst, share);
  }

  /** Quotas made from shares are together no looser than these, but for the
      slowest rate of each node whose share is slower than that. */
  lemma {:induction false} QuotasOfShares(fleet: seq<Gcra.State>, shares: seq<real>, burst: nat)
    requires |fleet| == |shares| && 0 < burst <= MAX_BURST
    requires forall i :: 0 <= i < |fleet| ==>
               fleet[i].Valid() && fleet[i].quota == PerSecond(shares[i], burst) && shares[i] >= 0.0
    ensures FleetRate(fleet) <= Sum(shares) + Slowest(|fleet|)
  {
    if fleet != [] {
      QuotaOfShare(shares[0], burst);
      QuotasOfShares(fleet[1..], shares[1..], burst);
    }
  }

  // ------------------------------------------------- what the fleet admits meanwhile

  /** A step change of demand at `change`, and the rounds of the nodes around it. */
  datatype Change = Change(limit: real, beta: real, before: seq<real>, after: seq<real>, rounds: seq<Rounds>,
                           period: int, gap: int, settled: int, change: nat)
  {
    ghost predicate Valid() {
      && limit > 0.0 && 0.0 <= beta <= 1.0 && 0 < period <= gap && settled + gap <= 2 * period
      && |rounds| == |before| == |after| > 0
      && (forall i :: 0 <= i < |before| ==> before[i] >= 0.0 && after[i] >= 0.0)
      && (forall i :: 0 <= i < |rounds| ==>
            Paced(rounds[i], period, gap) && Follows(rounds[i], i, limit, beta, before, after, settled))
      && forall i, k :: 0 <= i < |rounds| && 0 <= k < |rounds[i].computed| ==> rounds[i].computed[k] >= 0.0
    }
  }

  /** Each node's quota is made of the share it applied in its last round. */
  ghost predicate Applies(c: Change, fleet: seq<Gcra.State>, last: seq<nat>, at: nat, burst: nat)
    requires 0 < burst <= MAX_BURST
  {
    && |fleet| == |last| == |c.rounds|
    && (forall i :: 0 <= i < |last| ==>
          && |c.rounds[i].at| >= 3 && c.rounds[i].at[2] <= at - c.change
          && last[i] < |c.rounds[i].computed| && Current(c.rounds[i], at - c.change, c.gap, last[i]))
    && forall i :: 0 <= i < |fleet| ==> fleet[i].quota == PerSecond(AppliedAt(c.rounds[i].computed, last[i]), burst)
  }

  /** The requests and quota changes of such a fleet: whenever time passes every
      node is at the share of its last round. */
  ghost predicate StepRun(c: Change, fleet: seq<Gcra.State>, at: nat, events: seq<Event>, burst: nat)
    decreases |events|
  {
    && 0 < burst <= MAX_BURST && FleetOk(fleet, burst)
    && (events != [] ==>
          var e := events[0];
          && e.node < |fleet| && at <= e.op.now && ValidOp(e.op, burst)
          && (at < e.op.now ==> exists last :: Applies(c, fleet, last, at, burst))
          && StepRun(c, FleetAfter(fleet, e), e.op.now, events[1..], burst))
  }

  lemma AppliedIsNotNegative(computed: seq<real>, k: nat)
    requires k < |computed| && forall j :: 0 <= j < |computed| ==> computed[j] >= 0.0
    ensures AppliedAt(computed, k) >= 0.0
  {
    AppliedIsLeastOfThree(computed, k);
  }

  lemma {:induction false} AppliedRates(c: Change, fleet: seq<Gcra.State>, last: seq<nat>, at: nat, burst: nat)
    requires c.Valid() && 0 < burst <= MAX_BURST && FleetOk(fleet, burst) && Applies(c, fleet, last, at, burst)
    ensures FleetRate(fleet) <= c.limit + Slowest(|fleet|)
  {
    var shares := FleetShares(c.rounds, last);
    DelayedRiseKeepsTheLimit(c.rounds, last, c.period, c.gap, c.limit, c.beta, c.before, c.after, c.settled,
        at - c.change);
    forall i | 0 <= i < |shares| ensures shares[i] >= 0.0 {
      AppliedIsNotNegative(c.rounds[i].computed, last[i]);
    }
    QuotasOfShares(fleet, shares, burst);
  }

  lemma {:induction false} StepRunIsWithin(c: Change, fleet: seq<Gcra.State>, at: nat, events: seq<Event>, burst: nat)
    requires c.Valid() && StepRun(c, fleet, at, events, burst)
    ensures FleetRun(fleet, at, events, burst, c.limit + Slowest(|fleet|))
    decreases |events|
  {
    if events != [] {
      var e := events[0];
      if at < e.op.now {
        var last :| Applies(c, fleet, last, at, burst);
        AppliedRates(c, fleet, last, at, burst);
      }
      StepRunIsWithin(c, FleetAfter(fleet, e), e.op.now, events[1..], burst);
    }
  }

  /** Main result: through one step change of demand, whatever the phases of the
      rounds and whatever the nodes computed until their views agreed again, a
      fleet whose quotas follow its applied shares admits at most
      limit x window + N x burst, plus the rounding slack of its quota changes,
      and one request per longest interval for each node. */
  lemma {:induction false} FleetThroughAStepChange(c: Change, fleet: seq<Gcra.State>, at: nat, events: seq<Event>,
                                                  burst: nat, limit: real)
    requires c.Valid() && StepRun(c, fleet, at, events, burst)
    requires limit == c.limit + Slowest(|fleet|)
    ensures FleetRun(fleet, at, events, burst, limit) && at <= End(at, events)
    ensures FleetAdmits(fleet, at, events, burst, limit) as real
            <= Passes(limit, End(at, events) - at) + Bursts(|fleet|, burst) + FleetSlack(fleet, at, events, burst,
                limit)
  {
    StepRunIsWithin(c, fleet, at, events, burst);
    FleetBound(fleet, at, events, burst, limit);
  }
}
