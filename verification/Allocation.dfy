/** One node's share of a hot key's limit (rateguard-core/src/allocation.rs), and
    the delay on a rising one (rateguard-core/src/node.rs).
 */
module Allocation {
  import opened Quotas
  import opened GcraRuns

  datatype View = View(limit: real, clusterSize: nat, floorFactor: real, own: real, others: real) {
    ghost predicate Valid() {
      limit > 0.0 && clusterSize > 0 && 0.0 <= floorFactor <= 1.0 && own >= 0.0 && others >= 0.0
    }
  }

  function Floor(view: View): real
    requires view.clusterSize > 0
  {
    view.limit * view.floorFactor / view.clusterSize as real
  }

  /** What the floors leave. */
  function Rest(view: View): real { view.limit * (1.0 - view.floorFactor) }

  function Share(view: View): (s: real)
    requires view.clusterSize > 0
  {
    var total := view.own + view.others;
    if total > 0.0 then Floor(view) + Rest(view) * (view.own / total)
    else view.limit / view.clusterSize as real
  }

  /** Node `i`'s view when every node knows the demand of all the others. */
  function Consistent(limit: real, beta: real, demand: seq<real>, i: nat): View
    requires i < |demand|
  {
    View(limit, |demand|, beta, demand[i], Sum(demand) - demand[i])
  }

  /** The shares of the first `n` nodes under one consistent view. */
  function Shares(limit: real, beta: real, demand: seq<real>, n: nat): (s: seq<real>)
    requires n <= |demand|
    ensures |s| == n
    ensures forall i :: 0 <= i < n ==> s[i] == Share(Consistent(limit, beta, demand, i))
  {
    seq(n, i requires 0 <= i < n => Share(Consistent(limit, beta, demand, i)))
  }

  lemma {:induction false} SumNonNegative(v: seq<real>)
    requires forall i :: 0 <= i < |v| ==> v[i] >= 0.0
    ensures Sum(v) >= 0.0
    ensures forall i :: 0 <= i < |v| ==> v[i] <= Sum(v)
  {
    if v != [] {
      SumNonNegative(v[1..]);
      forall i | 0 <= i < |v| ensures v[i] <= Sum(v) {
        if i > 0 {
          assert v[i] == v[1..][i - 1];
        }
      }
    }
  }

  /** So much each, and so much per demand. */
  function Line(demand: seq<real>, floor: real, slope: real): (r: seq<real>)
    ensures |r| == |demand|
  {
    if demand == [] then [] else [floor + slope * demand[0]] + Line(demand[1..], floor, slope)
  }

  lemma {:induction false} LineAt(demand: seq<real>, floor: real, slope: real, i: nat)
    requires i < |demand|
    ensures Line(demand, floor, slope)[i] == floor + slope * demand[i]
  {
    if i > 0 {
      LineAt(demand[1..], floor, slope, i - 1);
    }
  }

  lemma {:induction false} SumOfLine(demand: seq<real>, floor: real, slope: real)
    ensures Sum(Line(demand, floor, slope)) == |demand| as real * floor + slope * Sum(demand)
  {
    if demand != [] {
      var line, rest := Line(demand, floor, slope), demand[1..];
      SumOfLine(rest, floor, slope);
      assert line[1..] == Line(rest, floor, slope);
      Distribute(slope, demand[0], Sum(rest));
      Distribute(floor, |rest| as real, 1.0);
    }
  }

  lemma SliceOf(a: real, own: real, total: real)
    requires total > 0.0
    ensures a * (own / total) == a / total * own
  {
    var inverse := 1.0 / total;
    assert own / total == own * inverse;
    assert a / total == a * inverse;
  }

  lemma Distribute(a: real, x: real, y: real)
    ensures a * (x + y) == a * x + a * y
  {
  }

  lemma {:induction false} SumOfEqual(v: seq<real>, x: real)
    requires forall i :: 0 <= i < |v| ==> v[i] == x
    ensures Sum(v) == |v| as real * x
  {
    if v != [] {
      SumOfEqual(v[1..], x);
      Distribute(x, |v[1..]| as real, 1.0);
    }
  }

  lemma ShareIsLinear(view: View, total: real, floor: real, slope: real)
    requires view.clusterSize > 0 && total == view.own + view.others && total > 0.0
    requires floor == Floor(view) && slope == Rest(view) / total
    ensures Share(view) == floor + slope * view.own
  {
    SliceOf(Rest(view), view.own, total);
  }

  lemma FloorAndSlopeMakeTheLimit(limit: real, beta: real, n: real, total: real, floor: real, slope: real)
    requires n > 0.0 && total > 0.0 && floor == limit * beta / n && slope == limit * (1.0 - beta) / total
    ensures n * floor + slope * total == limit
  {
    DivTimes(limit * beta, n);
    DivTimes(limit * (1.0 - beta), total);
    Distribute(limit, beta, 1.0 - beta);
  }

  lemma ConsistentParts(limit: real, beta: real, demand: seq<real>, i: nat)
    requires i < |demand|
    ensures Floor(Consistent(limit, beta, demand, i)) == limit * beta / |demand| as real
    ensures Rest(Consistent(limit, beta, demand, i)) == limit * (1.0 - beta)
  {
  }

  lemma ShareOnTheLine(limit: real, beta: real, demand: seq<real>, floor: real, slope: real, i: nat)
    requires i < |demand| && Sum(demand) > 0.0
    requires floor == limit * beta / |demand| as real && slope == limit * (1.0 - beta) / Sum(demand)
    ensures Share(Consistent(limit, beta, demand, i)) == Line(demand, floor, slope)[i]
  {
    ConsistentParts(limit, beta, demand, i);
    ShareIsLinear(Consistent(limit, beta, demand, i), Sum(demand), floor, slope);
    LineAt(demand, floor, slope, i);
  }

  lemma SharesWithDemand(limit: real, beta: real, demand: seq<real>, floor: real, slope: real)
    requires |demand| > 0 && Sum(demand) > 0.0
    requires floor == limit * beta / |demand| as real && slope == limit * (1.0 - beta) / Sum(demand)
    ensures Shares(limit, beta, demand, |demand|) == Line(demand, floor, slope)
  {
    var s := Shares(limit, beta, demand, |demand|);
    forall i | 0 <= i < |demand| ensures s[i] == Line(demand, floor, slope)[i] {
      ShareOnTheLine(limit, beta, demand, floor, slope, i);
    }
  }

  lemma LineAddsUp(limit: real, beta: real, demand: seq<real>, floor: real, slope: real)
    requires |demand| > 0 && Sum(demand) > 0.0
    requires floor == limit * beta / |demand| as real && slope == limit * (1.0 - beta) / Sum(demand)
    ensures Sum(Line(demand, floor, slope)) == limit
  {
    SumOfLine(demand, floor, slope);
    FloorAndSlopeMakeTheLimit(limit, beta, |demand| as real, Sum(demand), floor, slope);
  }

  lemma SharesOfDemand(limit: real, beta: real, demand: seq<real>)
    requires |demand| > 0 && Sum(demand) > 0.0
    ensures Sum(Shares(limit, beta, demand, |demand|)) == limit
  {
    var floor, slope := limit * beta / |demand| as real, limit * (1.0 - beta) / Sum(demand);
    SharesWithDemand(limit, beta, demand, floor, slope);
    LineAddsUp(limit, beta, demand, floor, slope);
  }

  lemma SharesOfNoDemand(limit: real, beta: real, demand: seq<real>)
    requires |demand| > 0 && Sum(demand) == 0.0
    ensures Sum(Shares(limit, beta, demand, |demand|)) == limit
  {
    var n := |demand|;
    SumOfEqual(Shares(limit, beta, demand, n), limit / n as real);
    DivTimes(limit, n as real);
  }

  /** With one consistent view the shares of all nodes add up to exactly the
      limit, whatever their demand, none at all included. */
  lemma SharesAddUpToTheLimit(limit: real, beta: real, demand: seq<real>)
    requires |demand| > 0 && forall i :: 0 <= i < |demand| ==> demand[i] >= 0.0
    ensures Sum(Shares(limit, beta, demand, |demand|)) == limit
  {
    SumNonNegative(demand);
    if Sum(demand) > 0.0 {
      SharesOfDemand(limit, beta, demand);
    } else {
      SharesOfNoDemand(limit, beta, demand);
    }
  }

  lemma QuotientInUnit(a: real, total: real)
    requires 0.0 <= a <= total && total > 0.0
    ensures 0.0 <= a / total <= 1.0
  {
    var part := a / total;
    assert part * total == a;
    if part < 0.0 {
      Scale(part, 0.0, total);
    }
    if part > 1.0 {
      Scale(1.0, part, total);
    }
  }

  lemma PartOf(rest: real, part: real)
    requires rest >= 0.0 && 0.0 <= part <= 1.0
    ensures 0.0 <= rest * part <= rest
  {
    ScaleWeakly(0.0, part, rest);
    ScaleWeakly(part, 1.0, rest);
  }

  lemma RestIsThere(view: View)
    requires view.Valid()
    ensures Rest(view) >= 0.0
  {
    ScaleWeakly(0.0, 1.0 - view.floorFactor, view.limit);
  }

  /** An even split is the floor and an even part of the rest. */
  lemma EvenSplitIsBounded(view: View)
    requires view.Valid()
    ensures Floor(view) <= view.limit / view.clusterSize as real <= Floor(view) + Rest(view)
  {
    var n := view.clusterSize as real;
    RestIsThere(view);
    PartOf(view.limit, view.floorFactor);
    QuotientFollows(view.limit * view.floorFactor, view.limit, n);
    QuotientIsLess(Rest(view), n);
    Distribute(view.limit, view.floorFactor, 1.0 - view.floorFactor);
    QuotientsAdd(view.limit * view.floorFactor, Rest(view), n);
  }

  lemma QuotientsAdd(a: real, b: real, n: real)
    requires n > 0.0
    ensures (a + b) / n == a / n + b / n
  {
    DivTimes(a, n);
    DivTimes(b, n);
    DivTimes(a + b, n);
    var x, y := a / n + b / n, (a + b) / n;
    assert x * n == y * n;
    CancelTimes(x, y, n);
    CancelTimes(y, x, n);
  }

  lemma QuotientIsLess(a: real, n: real)
    requires a >= 0.0 && n >= 1.0
    ensures a / n <= a
  {
    DivTimes(a, n);
    if a / n > a {
      Scale(a, a / n, n);
      ScaleWeakly(1.0, n, a);
    }
  }

  /** Every node gets at least its floor, and none more than the limit less the
      floors of the others, the even split of no demand included. */
  lemma ShareIsBounded(view: View)
    requires view.Valid()
    ensures Floor(view) <= Share(view) <= Floor(view) + Rest(view)
    ensures view.own + view.others == 0.0 ==> Share(view) == view.limit / view.clusterSize as real
  {
    var total := view.own + view.others;
    if total > 0.0 {
      RestIsThere(view);
      QuotientInUnit(view.own, total);
      PartOf(Rest(view), view.own / total);
    } else {
      EvenSplitIsBounded(view);
    }
  }

  lemma QuotientFollows(a: real, b: real, total: real)
    requires a <= b && total > 0.0
    ensures a / total <= b / total
  {
    var x, y := a / total, b / total;
    assert x * total == a && y * total == b;
    if x > y {
      Scale(y, x, total);
    }
  }

  lemma PartFollows(rest: real, a: real, b: real)
    requires rest >= 0.0 && a <= b
    ensures rest * a <= rest * b
  {
    ScaleWeakly(a, b, rest);
  }

  /** More demand never means a smaller share. */
  lemma ShareFollowsDemand(view: View, own: real)
    requires view.Valid() && view.own <= own <= view.own + view.others
    ensures Share(view) <= Share(view.(own := own, others := view.own + view.others - own))
  {
    var total := view.own + view.others;
    if total > 0.0 {
      RestIsThere(view);
      QuotientFollows(view.own, own, total);
      PartFollows(Rest(view), view.own / total, own / total);
    }
  }
}
