/** Which denied keys have a name after any run of denials, told by the denials themselves
    (rateguard-sidecar/src/denied.rs).
 */
module DeniedRuns {
  import opened Member
  import opened Denied

  /** Two empty tables. */
  function Empty(capacity: nat): Tables { Tables(Lru(capacity, [], map[]), Lru(capacity, [], map[])) }

  predicate WasDenied(denials: seq<Denial>, h: nat) {
    exists i :: 0 <= i < |denials| && denials[i].Really? && denials[i].hash == h
  }

  /** The other keys really denied since `h` last was. */
  function DeniedSince(denials: seq<Denial>, h: nat): set<nat> {
    if denials == [] then {}
    else
      var before, d := DeniedSince(denials[..|denials| - 1], h), denials[|denials| - 1];
      if d.InShadow? then before else if d.hash == h then {} else before + {d.hash}
  }

  /** What comes after `h` in a list. */
  function Later(list: seq<nat>, h: nat): set<nat> {
    if list == [] || list[|list| - 1] == h then {}
    else Later(list[..|list| - 1], h) + {list[|list| - 1]}
  }

  lemma LaterOfAppend(list: seq<nat>, g: nat, h: nat)
    ensures Later(list + [g], h) == if g == h then {} else Later(list, h) + {g}
  {
    assert (list + [g])[..|list|] == list;
  }

  lemma {:induction false} LaterWithout(list: seq<nat>, g: nat, h: nat)
    requires g != h
    ensures Later(Without(list, g), h) == Later(list, h) - {g}
  {
    if list != [] {
      var init, last := list[..|list| - 1], list[|list| - 1];
      LaterWithout(init, g, h);
      if last != g {
        LaterOfAppend(Without(init, g), last, h);
      }
    }
  }

  lemma {:induction false} LaterIsShorter(list: seq<nat>, h: nat)
    requires h in list
    ensures |Later(list, h)| < |list|
  {
    var init, last := list[..|list| - 1], list[|list| - 1];
    if last != h {
      LaterIsShorter(init, h);
      assert |Later(init, h) + {last}| <= |Later(init, h)| + 1;
    }
  }

  lemma {:induction false} LaterOfRest(list: seq<nat>, h: nat)
    requires list != [] && Distinct(list)
    ensures h in list[1..] ==> Later(list[1..], h) == Later(list, h)
    ensures h == list[0] ==> Later(list, h) == Elements(list[1..])
  {
    if |list| > 1 {
      var init, last := list[..|list| - 1], list[|list| - 1];
      LaterOfRest(init, h);
      assert init[1..] == list[1..][..|list| - 2] && list[1..] == init[1..] + [last];
      assert Elements(list[1..]) == Elements(init[1..]) + {last};
      assert list[0] != last;
    } else {
      assert Elements(list[1..]) == {} && Later(list[..0], h) == {};
    }
  }

  /** A key is named by the real table just in case not so many others came since, and those
      are what its list holds after it. */
  ghost predicate Kept(l: Lru, since: set<nat>, was: bool, h: nat) {
    && (h in l.names <==> was && |since| < l.capacity)
    && (h in l.names ==> h in l.list && Later(l.list, h) == since)
  }

  lemma RefreshKeeps(l: Lru, since: set<nat>, was: bool, h: nat, g: nat)
    requires l.Valid() && Kept(l, since, was, h) && g in l.names
    ensures Kept(l.Refresh(g), if g == h then {} else since + {g}, was || g == h, h)
  {
    RefreshMovesToTheEnd(l, g);
    LaterOfAppend(Without(l.list, g), g, h);
    var r := l.Refresh(g);
    assert g in Elements(l.list) && r.list[|r.list| - 1] == g;
    if g != h {
      LaterWithout(l.list, g, h);
      More(since, g);
      if h in l.names {
        assert h in Elements(r.list);
        LaterIsShorter(r.list, h);
      }
    }
  }

  lemma More(s: set<nat>, g: nat)
    ensures |s| <= |s + {g}| <= |s| + 1 && (g !in s ==> |s + {g}| == |s| + 1)
  {
    if g in s {
      assert s + {g} == s;
    }
  }

  lemma InsertKeeps(l: Lru, since: set<nat>, was: bool, h: nat, g: nat, name: Named)
    requires l.Valid() && Kept(l, since, was, h) && g !in l.names
    ensures l.Insert(g, name).capacity == l.capacity
    ensures Kept(l.Insert(g, name), if g == h then {} else since + {g}, was || g == h, h)
  {
    More(since, g);
    if l.capacity > 0 {
      InsertDropsTheOldest(l, g, name);
      InsertKeepsValid(l, g, name);
      var r := l.Insert(g, name);
      var rest := if |l.list| < l.capacity then l.list else l.list[1..];
      assert r.list == rest + [g];
      LaterOfAppend(rest, g, h);
      assert r.list[|rest|] == g;
      if g != h && h in l.names {
        if |l.list| == l.capacity {
          FullListKeeps(l, since, h, g);
        }
        if h in rest {
          assert r.list[..|rest|] == rest;
          LaterIsShorter(r.list, h);
        }
      }
    }
  }

  /** Of a full list the first has as many after it as stay. */
  lemma FullListKeeps(l: Lru, since: set<nat>, h: nat, g: nat)
    requires l.Valid() && |l.list| == l.capacity > 0 && h in l.list && Later(l.list, h) == since && g !in l.names
    ensures h in l.list[1..] ==> h != l.list[0] && Later(l.list[1..], h) == since
    ensures h !in l.list[1..] ==> h == l.list[0] && |since + {g}| == l.capacity
  {
    LaterOfRest(l.list, h);
    assert l.list == [l.list[0]] + l.list[1..];
    if h !in l.list[1..] {
      DistinctCount(l.list[1..]);
      assert g !in Elements(l.list);
      assert g !in Elements(l.list[1..]);
    }
  }

  lemma {:induction false} RunKeeps(capacity: nat, denials: seq<Denial>, h: nat)
    ensures var t := Run(Empty(capacity), denials);
            t.denied.capacity == capacity && t.shadow.capacity == capacity
            && Kept(t.denied, DeniedSince(denials, h), WasDenied(denials, h), h)
  {
    if denials != [] {
      var init, d := denials[..|denials| - 1], denials[|denials| - 1];
      RunKeeps(capacity, init, h);
      EmptyIsApart(capacity);
      TablesStayApart(Empty(capacity), init);
      var before := Run(Empty(capacity), init);
      OneMoreDenial(init, d, h);
      assert denials == init + [d];
      if d.Really? {
        if d.hash in before.denied.names {
          RefreshKeeps(before.denied, DeniedSince(init, h), WasDenied(init, h), h, d.hash);
        } else {
          InsertKeeps(before.denied, DeniedSince(init, h), WasDenied(init, h), h, d.hash,
                      if d.hash in before.shadow.names then before.shadow.names[d.hash] else d.name);
        }
      }
    }
  }

  lemma OneMoreDenial(denials: seq<Denial>, d: Denial, h: nat)
    ensures WasDenied(denials + [d], h) <==> WasDenied(denials, h) || (d.Really? && d.hash == h)
    ensures (denials + [d])[..|denials|] == denials
  {
    var all := denials + [d];
    assert all[|denials|] == d;
    forall i | 0 <= i < |denials| ensures all[i] == denials[i] {
    }
    if i :| 0 <= i < |denials| && denials[i].Really? && denials[i].hash == h {
      assert all[i].Really? && all[i].hash == h;
    }
  }

  lemma EmptyIsApart(capacity: nat)
    ensures Apart(Empty(capacity))
  {
    assert Elements([]) == {};
  }

  /** Main result: of the keys really denied the table names just those since whose last
      denial fewer than `capacity` others were really denied, whatever shadows deny. */
  lemma TheLastDeniedAreNamed(capacity: nat, denials: seq<Denial>, h: nat)
    ensures h in Run(Empty(capacity), denials).denied.names
            <==> WasDenied(denials, h) && |DeniedSince(denials, h)| < capacity
  {
    RunKeeps(capacity, denials, h);
  }

  // -------------------------------------------------------------------------- the names

  predicate Gave(d: Denial, h: nat, name: Named) { d.hash == h && d.name == name }

  ghost predicate WasGiven(denials: seq<Denial>, h: nat, name: Named) {
    exists i :: 0 <= i < |denials| && Gave(denials[i], h, name)
  }

  lemma GivenBefore(denials: seq<Denial>, d: Denial, h: nat, name: Named)
    requires WasGiven(denials, h, name) || Gave(d, h, name)
    ensures WasGiven(denials + [d], h, name)
  {
    var all := denials + [d];
    if WasGiven(denials, h, name) {
      var i :| 0 <= i < |denials| && Gave(denials[i], h, name);
      assert all[i] == denials[i];
    } else {
      assert all[|denials|] == d;
    }
  }

  lemma NamesAfterInsert(l: Lru, g: nat, name: Named, h: nat)
    requires l.Valid() && g !in l.names && h in l.Insert(g, name).names
    ensures h == g ==> l.Insert(g, name).names[h] == name
    ensures h != g ==> h in l.names && l.Insert(g, name).names[h] == l.names[h]
  {
    if l.capacity > 0 {
      InsertDropsTheOldest(l, g, name);
    }
  }

  /** A name one of the tables has, if either does. */
  ghost predicate Names(t: Tables, h: nat, name: Named) {
    (h in t.denied.names && t.denied.names[h] == name) || (h in t.shadow.names && t.shadow.names[h] == name)
  }

  /** And every name is one that some denial of that very key gave. */
  lemma {:induction false} NamesWereGiven(capacity: nat, denials: seq<Denial>, h: nat, name: Named)
    requires Names(Run(Empty(capacity), denials), h, name)
    ensures WasGiven(denials, h, name)
  {
    if denials != [] {
      var init, d := denials[..|denials| - 1], denials[|denials| - 1];
      EmptyIsApart(capacity);
      TablesStayApart(Empty(capacity), init);
      var before := Run(Empty(capacity), init);
      NamesOfStep(before, d, h, name);
      if Names(before, h, name) {
        NamesWereGiven(capacity, init, h, name);
      }
      GivenBefore(init, d, h, name);
      assert denials == init + [d];
    }
  }

  lemma NamesOfStep(t: Tables, d: Denial, h: nat, name: Named)
    requires Apart(t)
    requires Names(if d.Really? then t.Recorded(d.hash, d.name) else t.RecordedShadow(d.hash, d.name), h, name)
    ensures Names(t, h, name) || Gave(d, h, name)
  {
    if d.hash !in t.denied.names {
      var given := if d.hash in t.shadow.names then t.shadow.names[d.hash] else d.name;
      if d.Really? && h in t.denied.Insert(d.hash, given).names {
        NamesAfterInsert(t.denied, d.hash, given, h);
      }
      if d.InShadow? && d.hash !in t.shadow.names && h in t.shadow.Insert(d.hash, d.name).names {
        NamesAfterInsert(t.shadow, d.hash, d.name, h);
      }
    }
  }
}
