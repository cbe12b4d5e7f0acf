/**
 The one ranking order of the engine: the score rounded to six decimals, descending, and
 then the chunk id, ascending (src/embedder.rs, src/retriever.rs, src/vector_store.rs).
 Scores are exact reals.
 */
module RankOrder {
  import opened Lexicographic

  /** Rounds half away from zero, as `f64::round` does. */
  function Round(x: real): int {
    if x >= 0.0 then (x + 0.5).Floor else -((-x + 0.5).Floor)
  }

  /** The integer key scores are compared by. */
  function ScoreKey(x: real): int {
    Round(x * 1000000.0)
  }

  lemma ScoreKeyIsMonotone(x: real, y: real)
    requires x <= y
    ensures ScoreKey(x) <= ScoreKey(y)
  {
  }

  /** The key is the nearest integer to a million times the score, halves going away from zero. */
  lemma ScoreKeyIsNearest(x: real)
    ensures x >= 0.0 ==> ScoreKey(x) as real <= x * 1000000.0 + 0.5 < ScoreKey(x) as real + 1.0
    ensures ScoreKey(-x) == -ScoreKey(x)
  {
    assert (-x) * 1000000.0 == -(x * 1000000.0);
  }

  /** A document, by its index, with its score and the chunk id that breaks ties. */
  datatype Scored = Scored(doc: nat, score: real, id: string)

  predicate Before(a: Scored, b: Scored) {
    ScoreKey(a.score) > ScoreKey(b.score) || (ScoreKey(a.score) == ScoreKey(b.score) && LexLess(a.id, b.id))
  }

  /** Alike in both things the order looks at. */
  predicate Tied(a: Scored, b: Scored) {
    ScoreKey(a.score) == ScoreKey(b.score) && a.id == b.id
  }

  lemma BeforeIsStrict(a: Scored, b: Scored)
    ensures !(Before(a, b) && Before(b, a)) && !Before(a, a)
    ensures !Before(a, b) && !Before(b, a) <==> Tied(a, b)
  {
    LexTrichotomy(a.id, b.id);
  }

  lemma NotAfterIsTransitive(a: Scored, b: Scored, c: Scored)
    requires !Before(b, a) && !Before(c, b)
    ensures !Before(c, a)
  {
    LexTrichotomy(a.id, b.id);
    LexTrichotomy(b.id, c.id);
    LexTrichotomy(a.id, c.id);
    if LexLess(a.id, b.id) && LexLess(b.id, c.id) {
      LexTransitive(a.id, b.id, c.id);
    }
  }

  predicate Ranked(s: seq<Scored>) {
    forall i, j | 0 <= i < j < |s| :: !Before(s[j], s[i])
  }

  /** In a ranking keys fall, and of equal keys the ids rise. */
  lemma RankedMeans(r: seq<Scored>, i: nat, j: nat)
    requires Ranked(r) && i < j < |r|
    ensures var a, b := r[i], r[j];
      || ScoreKey(a.score) > ScoreKey(b.score)
      || (ScoreKey(a.score) == ScoreKey(b.score) && (a.id == b.id || LexLess(a.id, b.id)))
  {
    hide ScoreKey, LexLess;
    LexTrichotomy(r[i].id, r[j].id);
    assert !Before(r[j], r[i]);
  }

  /** Puts `x` ahead of the elements it does not come after. */
  function Insert(x: Scored, s: seq<Scored>): seq<Scored> {
    if s == [] || !Before(s[0], x) then [x] + s else [s[0]] + Insert(x, s[1..])
  }

  /** The stable sort. */
  function Sort(s: seq<Scored>): seq<Scored> {
    if s == [] then [] else Insert(s[0], Sort(s[1..]))
  }

  lemma {:induction false} InsertPermutes(x: Scored, s: seq<Scored>)
    ensures multiset(Insert(x, s)) == multiset(s) + multiset{x}
  {
    hide Before;
    if s != [] && Before(s[0], x) {
      InsertPermutes(x, s[1..]);
      assert s == [s[0]] + s[1..];
    }
  }

  lemma {:induction false} InsertRanks(x: Scored, s: seq<Scored>)
    requires Ranked(s)
    ensures Ranked(Insert(x, s))
  {
    hide Before;
    var r := Insert(x, s);
    if s == [] {
    } else if !Before(s[0], x) {
      forall j | 0 < j < |r|
        ensures !Before(r[j], x)
      {
        if j > 1 {
          NotAfterIsTransitive(x, s[0], s[j - 1]);
        }
      }
    } else {
      InsertRanks(x, s[1..]);
      InsertPermutes(x, s[1..]);
      BeforeIsStrict(s[0], x);
      forall j | 0 < j < |r|
        ensures !Before(r[j], s[0])
      {
        assert r[j] == Insert(x, s[1..])[j - 1];
        assert r[j] in multiset(Insert(x, s[1..]));
      }
    }
  }

  /** Sorting ranks, and permutes. */
  lemma {:induction false} SortRanks(s: seq<Scored>)
    ensures Ranked(Sort(s)) && multiset(Sort(s)) == multiset(s) && |Sort(s)| == |s|
  {
    hide Before, Insert;
    if s != [] {
      SortRanks(s[1..]);
      InsertRanks(s[0], Sort(s[1..]));
      InsertPermutes(s[0], Sort(s[1..]));
      assert s == [s[0]] + s[1..];
    }
    assert |multiset(Sort(s))| == |Sort(s)|;
  }

  /** No two elements are tied. */
  predicate Untied(s: seq<Scored>) {
    forall i, j | 0 <= i < j < |s| :: !Tied(s[i], s[j])
  }

  lemma HeadsAgree(a: seq<Scored>, b: seq<Scored>)
    requires Ranked(a) && Ranked(b) && Untied(a) && multiset(a) == multiset(b) && a != [] && b != []
    ensures a[0] == b[0]
  {
    hide Before, Tied;
    assert a[0] in multiset(b) && b[0] in multiset(a);
    var i :| 0 <= i < |b| && b[i] == a[0];
    var j :| 0 <= j < |a| && a[j] == b[0];
    BeforeIsStrict(a[0], b[0]);
    BeforeIsStrict(a[0], a[0]);
  }

  lemma {:induction false} RankedIsUnique(a: seq<Scored>, b: seq<Scored>)
    requires Ranked(a) && Ranked(b) && Untied(a) && multiset(a) == multiset(b)
    ensures a == b
  {
    hide Before, Ranked, Untied;
    assert |multiset(a)| == |a| && |multiset(b)| == |b|;
    if a != [] {
      HeadsAgree(a, b);
      assert a == [a[0]] + a[1..] && b == [b[0]] + b[1..];
      assert multiset(a[1..]) == multiset(a) - multiset{a[0]};
      assert multiset(b[1..]) == multiset(b) - multiset{b[0]};
      TailRanked(a);
      TailRanked(b);
      RankedIsUnique(a[1..], b[1..]);
    }
  }

  lemma TailRanked(a: seq<Scored>)
    requires Ranked(a) && a != []
    ensures Ranked(a[1..]) && (Untied(a) ==> Untied(a[1..]))
  {
    hide Before, Tied;
  }

  /** Without ties the sort forgets the order its input came in. */
  lemma SortForgetsOrder(a: seq<Scored>, b: seq<Scored>)
    requires Untied(a) && multiset(a) == multiset(b)
    ensures Sort(a) == Sort(b)
  {
    hide Sort, Before, Tied;
    SortRanks(a);
    SortRanks(b);
    UntiedIsPermuted(a, Sort(a));
    RankedIsUnique(Sort(a), Sort(b));
  }

  lemma UntiedIsPermuted(a: seq<Scored>, b: seq<Scored>)
    requires Untied(a) && multiset(a) == multiset(b)
    ensures Untied(b)
  {
    hide Tied, Untied;
    forall i, j | 0 <= i < j < |b|
      ensures !Tied(b[i], b[j])
    {
      if Tied(b[i], b[j]) {
        assert b[i] in multiset(b) && b[j] in multiset(b);
        TiedIsSameElement(a, b[i], b[j]);
        TwiceInMultiset(b, i, j);
        OnceInMultiset(a, b[i]);
        assert false;
      }
    }
    assert Untied(b) by {
      AllUntied(b);
    }
  }

  lemma AllUntied(s: seq<Scored>)
    requires forall i, j | 0 <= i < j < |s| :: !Tied(s[i], s[j])
    ensures Untied(s)
  {
    hide Tied;
  }

  lemma TiedIsSameElement(a: seq<Scored>, x: Scored, y: Scored)
    requires Untied(a) && x in multiset(a) && y in multiset(a) && Tied(x, y)
    ensures x == y
  {
    var i :| 0 <= i < |a| && a[i] == x;
    var j :| 0 <= j < |a| && a[j] == y;
    if i != j {
      assert Tied(a[i], a[j]) && Tied(a[j], a[i]);
    }
  }

  lemma TwiceInMultiset(b: seq<Scored>, i: nat, j: nat)
    requires i < j < |b| && b[i] == b[j]
    ensures multiset(b)[b[i]] >= 2
  {
    assert b == b[..j] + [b[j]] + b[j + 1..];
    assert b[i] in multiset(b[..j]) by { assert b[..j][i] == b[i]; }
  }

  lemma {:induction false} OnceInMultiset(a: seq<Scored>, x: Scored)
    requires Untied(a)
    ensures multiset(a)[x] <= 1
  {
    hide Tied;
    if a != [] {
      UntiedTail(a);
      OnceInMultiset(a[1..], x);
      assert a == [a[0]] + a[1..];
    }
  }

  lemma UntiedTail(a: seq<Scored>)
    requires Untied(a) && a != []
    ensures Untied(a[1..]) && a[0] !in multiset(a[1..])
  {
    assert forall j | 0 <= j < |a[1..]| :: a[1..][j] == a[j + 1];
    assert Tied(a[0], a[0]);
  }

  // ----- The sort is stable -----

  /** The elements tied with one, in order. */
  function TiedWith(s: seq<Scored>, x: Scored): seq<Scored> {
    if s == [] then [] else (if Tied(s[0], x) then [s[0]] else []) + TiedWith(s[1..], x)
  }

  lemma {:induction false} InsertIsStable(y: Scored, s: seq<Scored>, x: Scored)
    ensures TiedWith(Insert(y, s), x) == (if Tied(y, x) then [y] else []) + TiedWith(s, x)
  {
    hide Before, Tied;
    if s != [] && Before(s[0], y) {
      InsertIsStable(y, s[1..], x);
      var r := Insert(y, s);
      assert r[0] == s[0] && r[1..] == Insert(y, s[1..]);
      NotBothTied(s[0], y, x);
    } else {
      assert ([y] + s)[1..] == s;
    }
  }

  lemma NotBothTied(a: Scored, b: Scored, x: Scored)
    requires Before(a, b)
    ensures !(Tied(a, x) && Tied(b, x))
  {
    LexTrichotomy(a.id, b.id);
  }

  /** Sorting keeps tied elements in the order they came in. */
  lemma {:induction false} SortIsStable(s: seq<Scored>, x: Scored)
    ensures TiedWith(Sort(s), x) == TiedWith(s, x)
  {
    hide Insert, Tied;
    if s != [] {
      SortIsStable(s[1..], x);
      InsertIsStable(s[0], Sort(s[1..]), x);
    }
  }

  /** The same elements, the tied ones in the same order. */
  ghost predicate SameTies(a: seq<Scored>, b: seq<Scored>) {
    forall x :: TiedWith(a, x) == TiedWith(b, x)
  }

  lemma {:induction false} TiedWithIsTied(s: seq<Scored>, x: Scored, y: Scored)
    requires y in TiedWith(s, x)
    ensures y in s && Tied(y, x)
  {
    if s != [] && y in TiedWith(s[1..], x) {
      TiedWithIsTied(s[1..], x, y);
    }
  }

  lemma TiedWithCons(y: Scored, s: seq<Scored>, x: Scored)
    ensures TiedWith([y] + s, x) == (if Tied(y, x) then [y] else []) + TiedWith(s, x)
  {
    assert ([y] + s)[1..] == s;
  }

  lemma {:induction false} TiedWithConcat(a: seq<Scored>, b: seq<Scored>, x: Scored)
    ensures TiedWith(a + b, x) == TiedWith(a, x) + TiedWith(b, x)
  {
    if a == [] {
      assert a + b == b;
    } else {
      hide TiedWith, Tied;
      var tail := a[1..];
      assert a == [a[0]] + tail;
      assert a + b == [a[0]] + (tail + b);
      TiedWithConcat(tail, b, x);
      TiedWithCons(a[0], tail, x);
      TiedWithCons(a[0], tail + b, x);
    }
  }

  /** The first of the elements tied with an element is the first element, if that is tied with it. */
  lemma FirstTied(s: seq<Scored>, x: Scored)
    requires s != [] && Tied(s[0], x)
    ensures TiedWith(s, x) == [s[0]] + TiedWith(s[1..], x)
  {
  }

  lemma HeadIsIn(a: seq<Scored>, b: seq<Scored>)
    requires a != [] && SameTies(a, b)
    ensures a[0] in b && TiedWith(b, a[0]) != [] && TiedWith(b, a[0])[0] == a[0]
  {
    var x := a[0];
    FirstTied(a, x);
    assert TiedWith(a, x) == TiedWith(b, x);
    TiedWithIsTied(b, x, x);
  }

  lemma RankedHeadsAgree(a: seq<Scored>, b: seq<Scored>)
    requires a != [] && b != [] && Ranked(a) && Ranked(b) && SameTies(a, b)
    ensures a[0] == b[0]
  {
    hide Before, TiedWith, Tied;
    HeadIsIn(a, b);
    assert SameTies(b, a);
    HeadIsIn(b, a);
    var i :| 0 <= i < |b| && b[i] == a[0];
    var j :| 0 <= j < |a| && a[j] == b[0];
    BeforeIsStrict(a[0], b[0]);
    BeforeIsStrict(a[0], a[0]);
    assert Tied(b[0], a[0]) by { TiedIsSymmetric(a[0], b[0]); }
    FirstTied(b, a[0]);
  }

  lemma TiedIsSymmetric(x: Scored, y: Scored)
    requires Tied(x, y)
    ensures Tied(y, x)
  {
  }

  lemma {:induction false} RankedByTies(a: seq<Scored>, b: seq<Scored>)
    requires Ranked(a) && Ranked(b) && SameTies(a, b)
    ensures a == b
  {
    hide Before, Tied, Ranked;
    if a == [] || b == [] {
      EmptyByTies(a, b);
    } else {
      RankedHeadsAgree(a, b);
      forall x
        ensures TiedWith(a[1..], x) == TiedWith(b[1..], x)
      {
        var head := if Tied(a[0], x) then [a[0]] else [];
        assert TiedWith(a[1..], x) == TiedWith(a, x)[|head|..];
      }
      TailRanked(a);
      TailRanked(b);
      RankedByTies(a[1..], b[1..]);
      assert a == [a[0]] + a[1..] && b == [b[0]] + b[1..];
    }
  }

  lemma EmptyByTies(a: seq<Scored>, b: seq<Scored>)
    requires (a == [] || b == []) && SameTies(a, b)
    ensures a == b
  {
    if a != [] {
      FirstTied(a, a[0]);
    }
    if b != [] {
      FirstTied(b, b[0]);
    }
  }

  /** Two inputs sort alike exactly when they hold the same elements, the tied ones in the same order. */
  lemma SortsAlikeIff(a: seq<Scored>, b: seq<Scored>)
    ensures Sort(a) == Sort(b) <==> SameTies(a, b)
  {
    hide Sort, Ranked, Tied;
    forall x
      ensures TiedWith(Sort(a), x) == TiedWith(a, x) && TiedWith(Sort(b), x) == TiedWith(b, x)
    {
      SortIsStable(a, x);
      SortIsStable(b, x);
    }
    if SameTies(a, b) {
      SortRanks(a);
      SortRanks(b);
      RankedByTies(Sort(a), Sort(b));
    }
  }

  lemma SortsAlikeConcat(a: seq<Scored>, b: seq<Scored>, u: seq<Scored>, v: seq<Scored>)
    requires Sort(a) == Sort(b) && Sort(u) == Sort(v)
    ensures Sort(a + u) == Sort(b + v)
  {
    hide Sort, Tied;
    SortsAlikeIff(a, b);
    SortsAlikeIff(u, v);
    forall x
      ensures TiedWith(a + u, x) == TiedWith(b + v, x)
    {
      TiedWithConcat(a, u, x);
      TiedWithConcat(b, v, x);
    }
    SortsAlikeIff(a + u, b + v);
  }

  /** Two tied elements that change places show in the sorted list. */
  lemma SwapShows(s: seq<Scored>, i: nat, j: nat)
    requires i < j < |s| && Tied(s[i], s[j]) && s[i] != s[j]
    ensures Sort(s) != Sort(s[i := s[j]][j := s[i]])
  {
    hide Sort;
    var t := s[i := s[j]][j := s[i]];
    var x := s[i];
    TiedWithConcat(s[..i], s[i..], x);
    TiedWithConcat(t[..i], t[i..], x);
    assert s == s[..i] + s[i..] && t == t[..i] + t[i..] && t[..i] == s[..i];
    FirstTied(s[i..], x);
    FirstTied(t[i..], x);
    var n := |TiedWith(s[..i], x)|;
    assert TiedWith(s, x)[n] == s[i] && TiedWith(t, x)[n] == s[j];
    SortsAlikeIff(s, t);
  }

  // ----- Documents listed once -----

  lemma {:induction false} OccurrencesOf(items: seq<Scored>, x: Scored)
    requires forall i, j | 0 <= i < j < |items| :: items[i] != items[j]
    ensures multiset(items)[x] == if x in items then 1 else 0
  {
    if items != [] {
      assert items == [items[0]] + items[1..];
      OccurrencesOf(items[1..], x);
    }
  }

  predicate DistinctDocs(s: seq<Scored>) {
    forall i, j | 0 <= i < j < |s| :: s[i].doc != s[j].doc
  }

  lemma SortKeepsDocsDistinct(s: seq<Scored>)
    requires DistinctDocs(s)
    ensures DistinctDocs(Sort(s))
  {
    hide Sort;
    SortRanks(s);
    var r := Sort(s);
    forall i, j | 0 <= i < j < |r|
      ensures r[i].doc != r[j].doc
    {
      if r[i].doc == r[j].doc {
        assert r[i] in multiset(s) && r[j] in multiset(s);
        var x :| 0 <= x < |s| && s[x] == r[i];
        var y :| 0 <= y < |s| && s[y] == r[j];
        assert x == y;
        TwiceInMultiset(r, i, j);
        OccurrencesOf(s, r[i]);
        assert false;
      }
    }
  }
}
