/**
 How both expansions choose their groups: walk some ordered sets one behind the other, keep
 what is new in order of discovery, and stop at a limit.
 */
module Discovery {
  import opened Lexicographic
  import opened ImportGraph

  lemma {:induction false} LeastExists(s: set<string>) returns (m: string)
    requires s != {}
    ensures m in s && forall x | x in s :: x == m || LexLess(m, x)
    decreases |s|
  {
    var y :| y in s;
    if s == {y} {
      m := y;
    } else {
      var n := LeastExists(s - {y});
      LexTrichotomy(y, n);
      m := if LexLess(y, n) then y else n;
      forall x | x in s
        ensures x == m || LexLess(m, x)
      {
        if m == y && x != y && x != n {
          LexTransitive(y, n, x);
        }
      }
    }
  }

  lemma {:induction false} ListingExists(s: set<string>)
    ensures exists r :: Lists(r, s)
    decreases |s|
  {
    if s == {} {
      assert Lists([], s);
    } else {
      var m := LeastExists(s);
      ListingExists(s - {m});
      var r :| Lists(r, s - {m});
      assert ([m] + r)[0] == m;
      forall x | x in s
        ensures x in [m] + r
      {
      }
      assert Lists([m] + r, s);
    }
  }

  /** The one listing of a set in text order. */
  ghost function Listing(s: set<string>): (r: seq<string>)
    ensures Lists(r, s)
  {
    ListingExists(s);
    var r :| Lists(r, s);
    r
  }

  /** The sets listed one behind the other. */
  ghost function Walk(sets: seq<set<string>>): seq<string> {
    if sets == [] then [] else Walk(sets[..|sets| - 1]) + Listing(sets[|sets| - 1])
  }

  /** Each text once. */
  predicate Once(xs: seq<string>) {
    forall i, j | 0 <= i < j < |xs| :: xs[i] != xs[j]
  }

  /** What is new, at its first occurrence. */
  function Fresh(xs: seq<string>, have: set<string>): seq<string> {
    if xs == [] then []
    else
      var r := Fresh(xs[..|xs| - 1], have);
      var x := xs[|xs| - 1];
      if x in have || x in r then r else r + [x]
  }

  function FirstFew(xs: seq<string>, limit: nat): seq<string> {
    if |xs| <= limit then xs else xs[..limit]
  }

  ghost function Discovered(sets: seq<set<string>>, have: set<string>, limit: nat): seq<string> {
    FirstFew(Fresh(Walk(sets), have), limit)
  }

  lemma FreshPush(xs: seq<string>, x: string, have: set<string>)
    ensures Fresh(xs + [x], have) ==
      if x in have || x in Fresh(xs, have) then Fresh(xs, have) else Fresh(xs, have) + [x]
  {
    assert (xs + [x])[..|xs|] == xs;
  }

  lemma {:induction false} FreshGrows(a: seq<string>, b: seq<string>, have: set<string>)
    ensures Fresh(a, have) <= Fresh(a + b, have)
    decreases |b|
  {
    if b == [] {
      assert a + b == a;
    } else {
      var init, x := b[..|b| - 1], b[|b| - 1];
      FreshGrows(a, init, have);
      FreshPush(a + init, x, have);
      assert a + b == a + init + [x];
    }
  }

  /** The fresh texts are those walked that were not there, each once. */
  lemma {:induction false} FreshIsExact(xs: seq<string>, have: set<string>)
    ensures forall x :: x in Fresh(xs, have) <==> x in xs && x !in have
    ensures Once(Fresh(xs, have))
  {
    if xs != [] {
      var init, x := xs[..|xs| - 1], xs[|xs| - 1];
      FreshIsExact(init, have);
      assert xs == init + [x];
    }
  }

  predicate InSome(sets: seq<set<string>>, x: string) {
    exists k | 0 <= k < |sets| :: x in sets[k]
  }

  lemma {:induction false} WalkIsExact(sets: seq<set<string>>, x: string)
    ensures x in Walk(sets) <==> InSome(sets, x)
  {
    if sets != [] {
      var init, last := sets[..|sets| - 1], sets[|sets| - 1];
      WalkIsExact(init, x);
      assert x in Listing(last) <==> x in last;
      if k :| 0 <= k < |init| && x in init[k] {
        assert sets[k] == init[k];
      }
    }
  }

  /** The texts of the sets that are new, each once. */
  lemma FreshlyWalked(sets: seq<set<string>>, have: set<string>)
    ensures var all := Fresh(Walk(sets), have);
      (forall x :: x in all <==> InSome(sets, x) && x !in have) && Once(all)
  {
    hide Walk, Fresh, InSome, Once;
    FreshIsExact(Walk(sets), have);
    forall x
      ensures x in Fresh(Walk(sets), have) <==> InSome(sets, x) && x !in have
    {
      WalkIsExact(sets, x);
    }
  }

  /** What is discovered: distinct, new, from the sets, and all of it when below the limit. */
  lemma DiscoveredMeaning(sets: seq<set<string>>, have: set<string>, limit: nat)
    ensures var r := Discovered(sets, have, limit);
      && |r| <= limit && Once(r)
      && (forall i | 0 <= i < |r| :: r[i] !in have && InSome(sets, r[i]))
      && (|r| < limit ==> forall x | InSome(sets, x) && x !in have :: x in r)
  {
    hide Walk, Fresh, InSome, Once;
    var all := Fresh(Walk(sets), have);
    FreshlyWalked(sets, have);
    FirstFewOf(all, limit);
  }

  lemma FirstFewOf(xs: seq<string>, limit: nat)
    requires Once(xs)
    ensures var r := FirstFew(xs, limit);
      (forall x | x in r :: x in xs) && (|r| < limit ==> r == xs) && Once(r)
  {
    var r := FirstFew(xs, limit);
    assert forall i | 0 <= i < |r| :: r[i] == xs[i];
  }

  lemma WalkPush(sets: seq<set<string>>, s: set<string>, listing: seq<string>)
    requires Lists(listing, s)
    ensures Walk(sets + [s]) == Walk(sets) + listing
  {
    ListingIsUnique(listing, Listing(s), s);
    assert (sets + [s])[..|sets|] == sets;
  }

  lemma {:induction false} WalkGrows(sets: seq<set<string>>, n: nat) returns (rest: seq<string>)
    requires n <= |sets|
    ensures Walk(sets) == Walk(sets[..n]) + rest
    decreases |sets|
  {
    if n == |sets| {
      assert sets[..n] == sets;
      rest := [];
    } else {
      var init := sets[..|sets| - 1];
      rest := WalkGrows(init, n);
      assert init[..n] == sets[..n];
      rest := rest + Listing(sets[|sets| - 1]);
    }
  }

  /** Once the limit is reached, the rest of the walk changes nothing. */
  lemma FullAt(sets: seq<set<string>>, have: set<string>, limit: nat, n: nat, walked: seq<string>, rest: seq<string>)
    requires n <= |sets| && Walk(sets[..n]) == walked + rest && |Fresh(walked, have)| == limit
    ensures Discovered(sets, have, limit) == Fresh(walked, have)
  {
    hide Walk, Fresh;
    var more := WalkGrows(sets, n);
    assert Walk(sets) == walked + (rest + more);
    FreshGrows(walked, rest + more, have);
  }

  // ----- The order of discovery -----

  /** The first set that holds a text. */
  function FirstSet(sets: seq<set<string>>, x: string): (k: nat)
    ensures k <= |sets| && (k < |sets| ==> x in sets[k]) && forall i | 0 <= i < k :: x !in sets[i]
  {
    if sets == [] || x in sets[0] then 0 else 1 + FirstSet(sets[1..], x)
  }

  /** `x` is met before `y`: in an earlier set, or in the same one ahead of it in text order. */
  predicate Precedes(sets: seq<set<string>>, x: string, y: string) {
    FirstSet(sets, x) < FirstSet(sets, y) || (FirstSet(sets, x) == FirstSet(sets, y) && LexLess(x, y))
  }

  predicate Ascends(xs: seq<string>) {
    forall i, j | 0 <= i < j < |xs| :: LexLess(xs[i], xs[j])
  }

  lemma AscendsPush(xs: seq<string>, x: string)
    requires Ascends(xs) && forall y | y in xs :: LexLess(y, x)
    ensures Ascends(xs + [x])
  {
    hide LexLess;
  }

  lemma BeginningIsBelow(l: seq<string>, n: nat)
    requires n < |l| && Ascends(l)
    ensures forall y | y in l[..n] :: LexLess(y, l[n])
  {
    hide LexLess;
  }

  /** What a sorted listing adds: new texts, in its order. */
  lemma {:induction false} FreshOfListing(a: seq<string>, l: seq<string>, n: nat, have: set<string>)
    returns (tail: seq<string>)
    requires n <= |l| && Ascends(l)
    ensures Fresh(a + l[..n], have) == Fresh(a, have) + tail && Ascends(tail)
    ensures forall x | x in tail :: x in l[..n] && x !in Fresh(a, have) && x !in have
  {
    hide LexLess, Ascends, Fresh;
    if n == 0 {
      tail := [];
      assert a + l[..0] == a && Fresh(a, have) + [] == Fresh(a, have);
      NothingAscends();
    } else {
      var t := FreshOfListing(a, l, n - 1, have);
      var x := l[n - 1];
      BeginningIsBelow(l, n - 1);
      assert a + l[..n] == a + l[..n - 1] + [x] && l[..n] == l[..n - 1] + [x];
      FreshPush(a + l[..n - 1], x, have);
      if x in have || x in Fresh(a + l[..n - 1], have) {
        tail := t;
      } else {
        tail := t + [x];
        AscendsPush(t, x);
        assert Fresh(a, have) + t + [x] == Fresh(a, have) + tail;
      }
    }
  }

  lemma NothingAscends()
    ensures Ascends([])
  {
  }

  lemma SameFirstSet(init: seq<set<string>>, last: set<string>, x: string)
    ensures InSome(init, x) ==> FirstSet(init + [last], x) == FirstSet(init, x) < |init|
    ensures !InSome(init, x) && x in last ==> FirstSet(init + [last], x) == |init|
  {
    var all := init + [last];
    var k := FirstSet(all, x);
    assert forall i | 0 <= i < |init| :: all[i] == init[i];
    assert all[|init|] == last;
    if InSome(init, x) {
      var m := FirstSet(init, x);
      assert !(k < m) && !(m < k);
    }
  }

  lemma {:induction false} FreshInOrder(sets: seq<set<string>>, have: set<string>)
    ensures var all := Fresh(Walk(sets), have);
      forall i, j | 0 <= i < j < |all| :: Precedes(sets, all[i], all[j])
  {
    hide LexLess;
    if sets != [] {
      var init, last := sets[..|sets| - 1], sets[|sets| - 1];
      assert sets == init + [last];
      FreshInOrder(init, have);
      var before, listing := Fresh(Walk(init), have), Listing(last);
      assert listing[..|listing|] == listing;
      var tail := FreshOfListing(Walk(init), listing, |listing|, have);
      FreshlyWalked(init, have);
      var all := Fresh(Walk(sets), have);
      assert all == before + tail;
      forall x | x in before
        ensures FirstSet(sets, x) == FirstSet(init, x) < |init|
      {
        SameFirstSet(init, last, x);
      }
      forall x | x in tail
        ensures FirstSet(sets, x) == |init|
      {
        SameFirstSet(init, last, x);
      }
      forall i, j | 0 <= i < j < |all|
        ensures Precedes(sets, all[i], all[j])
      {
        JoinedInOrder(init, sets, before, tail, i, j);
      }
    }
  }

  lemma JoinedInOrder(init: seq<set<string>>, sets: seq<set<string>>, before: seq<string>, tail: seq<string>,
                      i: nat, j: nat)
    requires i < j < |before + tail| && Ascends(tail)
    requires forall k, l | 0 <= k < l < |before| :: Precedes(init, before[k], before[l])
    requires forall x | x in before :: FirstSet(sets, x) == FirstSet(init, x) < |init|
    requires forall x | x in tail :: FirstSet(sets, x) == |init|
    ensures Precedes(sets, (before + tail)[i], (before + tail)[j])
  {
    hide LexLess, FirstSet;
    var all := before + tail;
    if j < |before| {
      assert all[i] in before && all[j] in before && Precedes(init, before[i], before[j]);
    } else {
      assert all[j] in tail;
      if i < |before| {
        assert all[i] in before;
      } else {
        assert all[i] in tail && LexLess(tail[i - |before|], tail[j - |before|]);
      }
    }
  }

  /** What is discovered comes in order, and whatever is left out at the limit comes later. */
  lemma DiscoveredInOrder(sets: seq<set<string>>, have: set<string>, limit: nat)
    ensures var r := Discovered(sets, have, limit);
      && (forall i, j | 0 <= i < j < |r| :: Precedes(sets, r[i], r[j]))
      && forall y | InSome(sets, y) && y !in have && y !in r :: forall i | 0 <= i < |r| :: Precedes(sets, r[i], y)
  {
    hide Walk, Fresh, InSome, Precedes;
    var all := Fresh(Walk(sets), have);
    FreshInOrder(sets, have);
    FreshlyWalked(sets, have);
    var r := FirstFew(all, limit);
    assert forall i | 0 <= i < |r| :: r[i] == all[i];
    forall y, i | InSome(sets, y) && y !in have && y !in r && 0 <= i < |r|
      ensures Precedes(sets, r[i], y)
    {
      var k :| 0 <= k < |all| && all[k] == y;
      assert k >= |r|;
    }
  }
}
