/** Member tables converge: what a table knows of a peer is the newest it heard,
    whatever the order (rateguard-core/src/member.rs).
 */
module MemberOrder {
  import opened Proto
  import opened Member

  /** News with the moment it was heard. */
  datatype News = News(update: Update, now: nat)

  function Hear(v: View, news: seq<News>): View {
    if news == [] then v
    else
      var last := news[|news| - 1];
      Hear(v, news[..|news| - 1]).Apply(last.update, last.now).1
  }

  /** Where the table's record of a peer stands; -1 for a stranger. */
  function RankOf(v: View, m: nat): int {
    if m in v.members then Rank(v.members[m].incarnation, v.members[m].status) else -1
  }

  /** The newest news of a peer among `news`, -1 with none. */
  function MaxHeard(news: seq<News>, m: nat): (r: int)
    ensures r >= -1
  {
    if news == [] then -1
    else
      var u := news[|news| - 1].update;
      var rest := MaxHeard(news[..|news| - 1], m);
      var rank := Rank(u.incarnation, u.status);
      if u.member == m && rank > rest then rank else rest
  }

  lemma HearOne(v: View, u: Update, now: nat, m: nat)
    requires m != v.local
    ensures
      var v' := v.Apply(u, now).1;
      && v'.local == v.local && v'.refused >= v.refused
      && (u.member != m ==> RankOf(v', m) == RankOf(v, m))
      && (u.member == m && v'.refused == v.refused ==>
            var rank := Rank(u.incarnation, u.status);
            RankOf(v', m) == if rank > RankOf(v, m) then rank else RankOf(v, m))
  {
    if u.member == m && m in v.members {
      SupersedesIsRank(u, v.Record(m));
    }
  }

  lemma {:induction false} HearKeeps(v: View, news: seq<News>)
    ensures Hear(v, news).local == v.local && Hear(v, news).refused >= v.refused
  {
    if news != [] {
      HearKeeps(v, news[..|news| - 1]);
    }
  }

  /** As long as none was refused, a table ends with the newest of what it held
      and all it heard. */
  lemma {:induction false} HearIsMax(v: View, news: seq<News>, m: nat)
    requires m != v.local && Hear(v, news).refused == v.refused
    ensures RankOf(Hear(v, news), m) == if MaxHeard(news, m) > RankOf(v, m) then MaxHeard(news, m) else RankOf(v, m)
  {
    if news != [] {
      var init, last := news[..|news| - 1], news[|news| - 1];
      HearKeeps(v, init);
      HearOne(Hear(v, init), last.update, last.now, m);
      HearIsMax(v, init, m);
    }
  }

  lemma {:induction false} MaxHeardIsAttained(news: seq<News>, m: nat)
    ensures forall i :: 0 <= i < |news| && news[i].update.member == m ==>
              Rank(news[i].update.incarnation, news[i].update.status) <= MaxHeard(news, m)
    ensures MaxHeard(news, m) == -1 ||
            exists i :: 0 <= i < |news| && news[i].update.member == m &&
                        Rank(news[i].update.incarnation, news[i].update.status) == MaxHeard(news, m)
  {
    if news != [] {
      var n := |news| - 1;
      MaxHeardIsAttained(news[..n], m);
      if MaxHeard(news[..n], m) != -1 {
        var i :| 0 <= i < n && news[..n][i].update.member == m &&
                 Rank(news[..n][i].update.incarnation, news[..n][i].update.status) == MaxHeard(news[..n], m);
        assert news[i] == news[..n][i];
      }
      forall i | 0 <= i < |news| && news[i].update.member == m
        ensures Rank(news[i].update.incarnation, news[i].update.status) <= MaxHeard(news, m)
      {
        if i < n {
          assert news[i] == news[..n][i];
        }
      }
    }
  }

  /** Every update of one list is in the other, however often and whenever. */
  ghost predicate Covers(news: seq<News>, other: seq<News>) {
    forall i :: 0 <= i < |other| ==> exists j :: 0 <= j < |news| && news[j].update == other[i].update
  }

  lemma CoveringHearsNoLess(news: seq<News>, other: seq<News>, m: nat)
    requires Covers(news, other)
    ensures MaxHeard(other, m) <= MaxHeard(news, m)
  {
    MaxHeardIsAttained(news, m);
    MaxHeardIsAttained(other, m);
    if MaxHeard(other, m) != -1 {
      var i :| 0 <= i < |other| && other[i].update.member == m &&
               Rank(other[i].update.incarnation, other[i].update.status) == MaxHeard(other, m);
      var j :| 0 <= j < |news| && news[j].update == other[i].update;
    }
  }

  /** The same rank is the same incarnation and status. */
  lemma SameRank(v: View, w: View, m: nat)
    requires RankOf(v, m) == RankOf(w, m)
    ensures m in v.members <==> m in w.members
    ensures m in v.members ==>
              v.members[m].incarnation == w.members[m].incarnation && v.members[m].status == w.members[m].status
  {
    if m in v.members && m in w.members {
      SupersedesIsRank(v.Record(m), w.Record(m));
    }
  }

  /** Two tables that start alike and hear the same updates, in any two orders,
      each any number of times, end with the same incarnation and status for
      every peer, and so with the same live list. */
  lemma OrderDoesNotMatter(v: View, news: seq<News>, other: seq<News>, m: nat)
    requires m != v.local && Covers(news, other) && Covers(other, news)
    requires Hear(v, news).refused == v.refused && Hear(v, other).refused == v.refused
    ensures m in Hear(v, news).members <==> m in Hear(v, other).members
    ensures m in Hear(v, news).members ==>
              && Hear(v, news).members[m].incarnation == Hear(v, other).members[m].incarnation
              && Hear(v, news).members[m].status == Hear(v, other).members[m].status
    ensures Hear(v, news).IsLive(m) <==> Hear(v, other).IsLive(m)
  {
    CoveringHearsNoLess(news, other, m);
    CoveringHearsNoLess(other, news, m);
    HearIsMax(v, news, m);
    HearIsMax(v, other, m);
    SameRank(Hear(v, news), Hear(v, other), m);
  }
}
