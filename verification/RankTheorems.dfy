/** What the core ranking guarantees: one result for every hash-map order, and bounded scores. */
module RankTheorems {
  import opened Options
  import opened Chunks
  import opened RankOrder
  import opened Tokenizer
  import opened KeywordStore
  import opened DiversityCap
  import opened RankCore

  // ----- Independence of the iteration order -----

  lemma {:induction false} MaxRrfBounds(s: Setting, order: seq<nat>)
    ensures MaxRrf(s, order) >= 0.0
    ensures forall doc | doc in order :: RrfOf(s, doc) <= MaxRrf(s, order)
    ensures MaxRrf(s, order) == 0.0 || exists doc | doc in order :: MaxRrf(s, order) == RrfOf(s, doc)
  {
    hide RrfOf;
    if order != [] {
      var init := order[..|order| - 1];
      MaxRrfBounds(s, init);
      assert order == init + [order[|order| - 1]];
    }
  }

  lemma MaxRrfForgetsOrder(s: Setting, a: seq<nat>, b: seq<nat>)
    requires forall doc :: doc in a <==> doc in b
    ensures MaxRrf(s, a) == MaxRrf(s, b)
  {
    hide RrfOf, MaxRrf;
    MaxRrfBounds(s, a);
    MaxRrfBounds(s, b);
  }

  lemma SameElementsSameMultiset(a: seq<Scored>, b: seq<Scored>)
    requires forall i, j | 0 <= i < j < |a| :: a[i] != a[j]
    requires forall i, j | 0 <= i < j < |b| :: b[i] != b[j]
    requires forall x :: x in a <==> x in b
    ensures multiset(a) == multiset(b)
  {
    forall x
      ensures multiset(a)[x] == multiset(b)[x]
    {
      OccurrencesOf(a, x);
      OccurrencesOf(b, x);
    }
  }

  /** Two listings of some documents score to the same collection. */
  lemma ScoreAllForgetsOrder(s: Setting, maxRrf: real, a: seq<nat>, b: seq<nat>, keys: set<nat>)
    requires ListsKeys(a, keys) && ListsKeys(b, keys) && forall doc | doc in keys :: doc < |s.chunks|
    ensures forall i | 0 <= i < |a| :: a[i] < |s.chunks|
    ensures forall i | 0 <= i < |b| :: b[i] < |s.chunks|
    ensures multiset(ScoreAll(s, maxRrf, a)) == multiset(ScoreAll(s, maxRrf, b))
  {
    hide RrfOf, FinalScore, Cosine;
    assert forall i | 0 <= i < |a| :: a[i] in a;
    assert forall i | 0 <= i < |b| :: b[i] in b;
    var x, y := ScoreAll(s, maxRrf, a), ScoreAll(s, maxRrf, b);
    forall e
      ensures e in x <==> e in y
    {
      if e in x {
        ScoredIn(s, maxRrf, a, b, e);
      }
      if e in y {
        ScoredIn(s, maxRrf, b, a, e);
      }
    }
    forall i, j | 0 <= i < j < |x|
      ensures x[i] != x[j] && x[i].doc == a[i]
    {
      assert x[i].doc == a[i] && x[j].doc == a[j];
    }
    forall i, j | 0 <= i < j < |y|
      ensures y[i] != y[j]
    {
      assert y[i].doc == b[i] && y[j].doc == b[j];
    }
    SameElementsSameMultiset(x, y);
  }

  lemma ScoredIn(s: Setting, maxRrf: real, a: seq<nat>, b: seq<nat>, e: Scored)
    requires forall i | 0 <= i < |a| :: a[i] < |s.chunks|
    requires forall i | 0 <= i < |b| :: b[i] < |s.chunks|
    requires e in ScoreAll(s, maxRrf, a) && forall doc :: doc in a <==> doc in b
    ensures e in ScoreAll(s, maxRrf, b)
  {
    hide RrfOf, FinalScore, Cosine;
    var i :| 0 <= i < |a| && ScoreAll(s, maxRrf, a)[i] == e;
    assert a[i] in b;
    var j :| 0 <= j < |b| && b[j] == a[i];
    assert ScoreAll(s, maxRrf, b)[j] == e;
  }

  lemma SameMax(s: Setting, a: seq<nat>, b: seq<nat>)
    requires Enumerates(a, s) && Enumerates(b, s)
    ensures MaxRrf(s, a) == MaxRrf(s, b)
  {
    hide MaxRrf;
    EachOnce(a, s);
    EachOnce(b, s);
    MaxRrfForgetsOrder(s, a, b);
  }

  /** The keys below `n`, in index order. */
  function Ascending(keys: set<nat>, n: nat): (r: seq<nat>)
    ensures forall i, j | 0 <= i < j < |r| :: r[i] < r[j]
    ensures forall doc :: doc in r <==> doc < n && doc in keys
    ensures |r| <= n && forall i | 0 <= i < |r| :: r[i] < n
  {
    if n == 0 then []
    else if n - 1 in keys then Ascending(keys, n - 1) + [n - 1]
    else Ascending(keys, n - 1)
  }

  /** The vector candidates and the BM25-only ones, each in index order. */
  function VectorPart(s: Setting): (r: seq<nat>)
    ensures forall i | 0 <= i < |r| :: r[i] < |s.chunks|
    ensures InCorpus(s) ==> ListsKeys(r, s.vrank.Keys)
  {
    Ascending(s.vrank.Keys, |s.chunks|)
  }

  function KeywordPart(s: Setting): (r: seq<nat>)
    ensures forall i | 0 <= i < |r| :: r[i] < |s.chunks|
    ensures InCorpus(s) ==> ListsKeys(r, s.frank.Keys - s.vrank.Keys)
  {
    Ascending(s.frank.Keys - s.vrank.Keys, |s.chunks|)
  }

  function InIndexOrder(s: Setting): (r: seq<nat>)
    ensures forall i | 0 <= i < |r| :: r[i] < |s.chunks|
  {
    VectorPart(s) + KeywordPart(s)
  }

  lemma IndexOrderEnumerates(s: Setting)
    requires InCorpus(s)
    ensures Enumerates(InIndexOrder(s), s)
  {
    hide VectorPart, KeywordPart, ListsKeys;
    var order, n := InIndexOrder(s), |VectorPart(s)|;
    assert order[..n] == VectorPart(s) && order[n..] == KeywordPart(s);
  }

  lemma {:induction false} DisjointLengths(a: set<nat>, b: set<nat>, n: nat)
    requires a !! b
    ensures |Ascending(a, n)| + |Ascending(b, n)| <= n
  {
    if n > 0 {
      DisjointLengths(a, b, n - 1);
    }
  }

  lemma IndexOrderLength(s: Setting)
    ensures |InIndexOrder(s)| <= |s.chunks|
  {
    DisjointLengths(s.vrank.Keys, s.frank.Keys - s.vrank.Keys, |s.chunks|);
  }

  /** The whole ranking of the candidates met in index order, without cap or cut. */
  function FullRanking(s: Setting): seq<Scored> {
    Sort(ScoreAll(s, MaxRrf(s, InIndexOrder(s)), InIndexOrder(s)))
  }

  /** The whole ranking when the hash maps yield the candidates in the given order. */
  function FullRankingInOrder(s: Setting, order: seq<nat>): seq<Scored>
    requires InCorpus(s) && Enumerates(order, s)
  {
    CandidatesInCorpus(order, s);
    Sort(ScoreAll(s, MaxRrf(s, order), order))
  }

  /** No two vector candidates are tied, and no two BM25-only ones. */
  predicate UntiedByKind(s: Setting) {
    var maxRrf := MaxRrf(s, InIndexOrder(s));
    Untied(ScoreAll(s, maxRrf, VectorPart(s))) && Untied(ScoreAll(s, maxRrf, KeywordPart(s)))
  }

  lemma ScoreAllConcat(s: Setting, maxRrf: real, a: seq<nat>, b: seq<nat>)
    requires (forall i | 0 <= i < |a| :: a[i] < |s.chunks|) && forall i | 0 <= i < |b| :: b[i] < |s.chunks|
    ensures ScoreAll(s, maxRrf, a + b) == ScoreAll(s, maxRrf, a) + ScoreAll(s, maxRrf, b)
  {
    hide ScoreOf;
  }

  lemma PartSortsAlike(s: Setting, maxRrf: real, a: seq<nat>, b: seq<nat>, keys: set<nat>)
    requires ListsKeys(a, keys) && ListsKeys(b, keys) && forall doc | doc in keys :: doc < |s.chunks|
    requires (forall i | 0 <= i < |b| :: b[i] < |s.chunks|) && Untied(ScoreAll(s, maxRrf, b))
    ensures forall i | 0 <= i < |a| :: a[i] < |s.chunks|
    ensures Sort(ScoreAll(s, maxRrf, a)) == Sort(ScoreAll(s, maxRrf, b))
  {
    hide ListsKeys, Untied, Sort, ScoreOf;
    ScoreAllForgetsOrder(s, maxRrf, a, b, keys);
    SortForgetsOrder(ScoreAll(s, maxRrf, b), ScoreAll(s, maxRrf, a));
  }

  /** Without ties within either kind every order gives the one full ranking. */
  lemma UntiedRanksAlike(s: Setting, order: seq<nat>)
    requires InCorpus(s) && Enumerates(order, s) && UntiedByKind(s)
    ensures FullRankingInOrder(s, order) == FullRanking(s)
  {
    hide MaxRrf, Sort, Untied, ScoreAll, VectorPart, KeywordPart, ListsKeys;
    IndexOrderEnumerates(s);
    SameMax(s, order, InIndexOrder(s));
    var m := MaxRrf(s, order);
    var n :| 0 <= n <= |order| && ListsKeys(order[..n], s.vrank.Keys)
          && ListsKeys(order[n..], s.frank.Keys - s.vrank.Keys);
    PartSortsAlike(s, m, order[..n], VectorPart(s), s.vrank.Keys);
    PartSortsAlike(s, m, order[n..], KeywordPart(s), s.frank.Keys - s.vrank.Keys);
    assert order == order[..n] + order[n..];
    ScoreAllConcat(s, m, order[..n], order[n..]);
    ScoreAllConcat(s, m, VectorPart(s), KeywordPart(s));
    SortsAlikeConcat(ScoreAll(s, m, order[..n]), ScoreAll(s, m, VectorPart(s)),
                     ScoreAll(s, m, order[n..]), ScoreAll(s, m, KeywordPart(s)));
  }

  function Swapped(order: seq<nat>, i: nat, j: nat): seq<nat>
    requires i < j < |order|
  {
    order[i := order[j]][j := order[i]]
  }

  lemma SwappedLists(order: seq<nat>, i: nat, j: nat, keys: set<nat>)
    requires ListsKeys(order, keys) && i < j < |order|
    ensures ListsKeys(Swapped(order, i, j), keys)
  {
    var r := Swapped(order, i, j);
    forall doc | doc in order
      ensures doc in r
    {
      var k :| 0 <= k < |order| && order[k] == doc;
      assert r[if k == i then j else if k == j then i else k] == doc;
    }
    forall doc | doc in r
      ensures doc in order
    {
      var k :| 0 <= k < |r| && r[k] == doc;
      assert order[if k == i then j else if k == j then i else k] == doc;
    }
  }

  lemma ListedOnce(order: seq<nat>, keys: set<nat>, i: nat, j: nat)
    requires ListsKeys(order, keys) && i < j < |order|
    ensures order[i] != order[j]
  {
  }

  /** Two tied candidates of one kind show: the orders with the two changed round rank differently. */
  lemma SwapRanksDiffer(s: Setting, v: seq<nat>, k: seq<nat>, i: nat, j: nat)
    requires InCorpus(s) && ListsKeys(v, s.vrank.Keys) && ListsKeys(k, s.frank.Keys - s.vrank.Keys)
    requires i < j < |v + k| && (i < |v| <==> j < |v|)
    requires var d, e := (v + k)[i], (v + k)[j]; var m := MaxRrf(s, v + k);
      d < |s.chunks| && e < |s.chunks| && Tied(ScoreOf(s, m, d), ScoreOf(s, m, e))
    ensures Enumerates(v + k, s) && Enumerates(Swapped(v + k, i, j), s)
    ensures FullRankingInOrder(s, v + k) != FullRankingInOrder(s, Swapped(v + k, i, j))
  {
    hide MaxRrf, Sort, Tied, ScoreOf, InCorpus, ListsKeys;
    var n, order := |v|, v + k;
    var other := Swapped(order, i, j);
    assert order[..n] == v && order[n..] == k;
    if j < n {
      SwappedLists(v, i, j, s.vrank.Keys);
      assert other[..n] == Swapped(v, i, j) && other[n..] == k;
    } else {
      SwappedLists(k, i - n, j - n, s.frank.Keys - s.vrank.Keys);
      assert other[..n] == v && other[n..] == Swapped(k, i - n, j - n);
    }
    SameMax(s, order, other);
    CandidatesInCorpus(order, s);
    CandidatesInCorpus(other, s);
    EachOnce(order, s);
    ListedOnce(order, s.vrank.Keys + s.frank.Keys, i, j);
    SwapShowsInScores(s, MaxRrf(s, order), order, i, j);
  }

  lemma SwapShowsInScores(s: Setting, m: real, order: seq<nat>, i: nat, j: nat)
    requires i < j < |order| && (forall k | 0 <= k < |order| :: order[k] < |s.chunks|) && order[i] != order[j]
    requires Tied(ScoreOf(s, m, order[i]), ScoreOf(s, m, order[j]))
    ensures forall k | 0 <= k < |order| :: Swapped(order, i, j)[k] < |s.chunks|
    ensures Sort(ScoreAll(s, m, order)) != Sort(ScoreAll(s, m, Swapped(order, i, j)))
  {
    hide Sort, FinalScore, Cosine, RrfOf, Tied;
    var a, b := ScoreAll(s, m, order), ScoreAll(s, m, Swapped(order, i, j));
    assert a[i].doc == order[i] && a[j].doc == order[j];
    assert b == a[i := a[j]][j := a[i]];
    SwapShows(a, i, j);
  }

  /** Every order of the hash maps gives the same full ranking. */
  ghost predicate OrderForgotten(s: Setting)
    requires InCorpus(s)
  {
    forall a, b | Enumerates(a, s) && Enumerates(b, s) :: FullRankingInOrder(s, a) == FullRankingInOrder(s, b)
  }

  /**
   The ranking before its cap is the same for every iteration order of the hash maps exactly
   when no two vector candidates share score key and chunk id, and no two BM25-only candidates
   do. A tie between the kinds never shows: the vector candidate comes first in any order.
   */
  lemma OrderForgottenIffUntied(s: Setting)
    requires InCorpus(s)
    ensures OrderForgotten(s) <==> UntiedByKind(s)
  {
    hide FullRankingInOrder, FullRanking, Enumerates, InCorpus, UntiedByKind;
    if UntiedByKind(s) {
      forall a | Enumerates(a, s)
        ensures FullRankingInOrder(s, a) == FullRanking(s)
      {
        UntiedRanksAlike(s, a);
      }
    } else {
      var a, b := TiedRanksDiffer(s);
    }
  }

  lemma TiedRanksDiffer(s: Setting) returns (a: seq<nat>, b: seq<nat>)
    requires InCorpus(s) && !UntiedByKind(s)
    ensures Enumerates(a, s) && Enumerates(b, s) && FullRankingInOrder(s, a) != FullRankingInOrder(s, b)
  {
    hide MaxRrf, Sort, Tied, VectorPart, KeywordPart, ListsKeys, Enumerates, InCorpus, ScoreOf, FullRankingInOrder;
    var v, k := VectorPart(s), KeywordPart(s);
    var m := MaxRrf(s, v + k);
    a := v + k;
    if !Untied(ScoreAll(s, m, v)) {
      var x, y := ScoreAll(s, m, v), v;
      var i, j :| 0 <= i < j < |x| && Tied(x[i], x[j]);
      SwapRanksDiffer(s, v, k, i, j);
      b := Swapped(a, i, j);
    } else {
      var x := ScoreAll(s, m, k);
      var i, j :| 0 <= i < j < |x| && Tied(x[i], x[j]);
      assert a[|v| + i] == k[i] && a[|v| + j] == k[j];
      SwapRanksDiffer(s, v, k, |v| + i, |v| + j);
      b := Swapped(a, |v| + i, |v| + j);
    }
  }

  /** Distinct chunk ids leave no ties. */
  lemma DistinctIdsAreUntied(s: Setting)
    requires InCorpus(s) && DistinctChunkIds(s.chunks)
    ensures UntiedByKind(s)
  {
    hide MaxRrf;
    var m := MaxRrf(s, InIndexOrder(s));
    PartIsUntied(s, m, s.vrank.Keys);
    PartIsUntied(s, m, s.frank.Keys - s.vrank.Keys);
  }

  lemma PartIsUntied(s: Setting, maxRrf: real, keys: set<nat>)
    requires DistinctChunkIds(s.chunks)
    ensures Untied(ScoreAll(s, maxRrf, Ascending(keys, |s.chunks|)))
  {
    hide RrfOf, FinalScore, Cosine, ScoreKey;
    var all := Ascending(keys, |s.chunks|);
    var r := ScoreAll(s, maxRrf, all);
    forall i, j | 0 <= i < j < |r|
      ensures !Tied(r[i], r[j])
    {
      assert all[i] < all[j];
      assert r[i].id == s.chunks[all[i]].id && r[j].id == s.chunks[all[j]].id;
    }
  }

  /** So with distinct chunk ids the results are the same whatever order the hash maps are walked in. */
  lemma RankingForgetsOrder(s: Setting, a: seq<nat>, b: seq<nat>, topK: nat)
    requires InCorpus(s) && Enumerates(a, s) && Enumerates(b, s) && DistinctChunkIds(s.chunks)
    ensures RankInOrder(s, a, topK) == RankInOrder(s, b, topK)
  {
    hide Sort, Cap, DistinctChunkIds, MaxRrf, ScoreAll, Enumerates, InCorpus, UntiedByKind;
    DistinctIdsAreUntied(s);
    UntiedRanksAlike(s, a);
    UntiedRanksAlike(s, b);
  }

  // ----- Bounds -----

  lemma RrfIsNonNegative(s: Setting, doc: nat)
    requires s.ftsWeight >= 0.0
    ensures RrfOf(s, doc) >= 0.0
  {
    var r := Contribution(Lookup(s.frank, doc));
    ContributionIsNonNegative(Lookup(s.vrank, doc));
    ContributionIsNonNegative(Lookup(s.frank, doc));
    assert s.ftsWeight * r >= 0.0;
  }

  lemma ContributionIsNonNegative(rank: Option<nat>)
    ensures Contribution(rank) >= 0.0
  {
  }

  lemma FractionWithin(x: real, m: real)
    requires 0.0 <= x <= m && m != 0.0
    ensures 0.0 <= x / m <= 1.0
  {
  }

  lemma FinalScoreBounds(chunk: Chunk, cos: real, terms: seq<string>, hints: seq<string>, rrf: real, maxRrf: real)
    requires 0.0 <= rrf <= maxRrf
    ensures 0.096 <= FinalScore(chunk, cos, terms, hints, rrf, maxRrf) <= 0.95
    ensures KeywordDistance(chunk, terms, hints) == 0.0 ==> FinalScore(chunk, cos, terms, hints, rrf, maxRrf) >= 0.16
  {
    hide KeywordDistance, HasPenaltyMarker, ScoreKey;
    assert KeywordDistance(chunk, terms, hints) == 0.0 || KeywordDistance(chunk, terms, hints) == 2.0 by {
      DistanceIsZeroOrTwo(chunk, terms, hints);
    }
    assert ScoreKey(0.0) == 0 by { ZeroKey(); }
    if maxRrf != 0.0 {
      FractionWithin(rrf, maxRrf);
    }
  }

  /** The bounds are met by the ideal and the worst evidence alone. */
  lemma BoundsAreMetExactly(chunk: Chunk, cos: real, terms: seq<string>, hints: seq<string>, rrf: real, maxRrf: real)
    requires 0.0 <= rrf <= maxRrf
    ensures FinalScore(chunk, cos, terms, hints, rrf, maxRrf) == 0.95 <==>
      cos >= 1.0 && KeywordDistance(chunk, terms, hints) == 0.0 && rrf == maxRrf
      && ScoreKey(maxRrf) != 0 && !HasPenaltyMarker(chunk.file)
    ensures FinalScore(chunk, cos, terms, hints, rrf, maxRrf) == 0.096 <==>
      cos <= -1.0 && KeywordDistance(chunk, terms, hints) == 2.0
      && (rrf == 0.0 || ScoreKey(maxRrf) == 0) && HasPenaltyMarker(chunk.file)
  {
    hide KeywordDistance, HasPenaltyMarker, ScoreKey;
    DistanceIsZeroOrTwo(chunk, terms, hints);
    ZeroKey();
    if maxRrf != 0.0 {
      FractionWithin(rrf, maxRrf);
      FractionEnds(rrf, maxRrf);
    }
  }

  lemma FractionEnds(x: real, m: real)
    requires 0.0 <= x <= m && m != 0.0
    ensures (x / m == 1.0 <==> x == m) && (x / m == 0.0 <==> x == 0.0)
  {
    assert x / m * m == x;
  }

  lemma FractionGrows(x: real, y: real, m: real)
    requires 0.0 <= x <= y && m > 0.0
    ensures x / m <= y / m
  {
  }

  /** Better evidence never scores less. */
  lemma BetterEvidenceScoresNoLess(a: Chunk, b: Chunk, cosA: real, cosB: real, terms: seq<string>, hints: seq<string>,
                                   rrfA: real, rrfB: real, maxRrf: real)
    requires 0.0 <= rrfA <= rrfB <= maxRrf && cosA <= cosB
    requires KeywordDistance(b, terms, hints) <= KeywordDistance(a, terms, hints)
    requires HasPenaltyMarker(b.file) ==> HasPenaltyMarker(a.file)
    ensures FinalScore(a, cosA, terms, hints, rrfA, maxRrf) <= FinalScore(b, cosB, terms, hints, rrfB, maxRrf)
  {
    hide KeywordDistance, HasPenaltyMarker, ScoreKey;
    FinalScoreBounds(a, cosA, terms, hints, rrfA, maxRrf);
    DistanceIsZeroOrTwo(a, terms, hints);
    DistanceIsZeroOrTwo(b, terms, hints);
    ZeroKey();
    if maxRrf != 0.0 {
      FractionGrows(rrfA, rrfB, maxRrf);
    }
  }

  lemma DistanceIsZeroOrTwo(chunk: Chunk, terms: seq<string>, hints: seq<string>)
    ensures KeywordDistance(chunk, terms, hints) == 0.0 || KeywordDistance(chunk, terms, hints) == 2.0
  {
  }

  lemma ZeroKey()
    ensures ScoreKey(0.0) == 0
  {
  }

  /** An element of the ranking is a scored candidate. */
  lemma RankedElement(s: Setting, order: seq<nat>, topK: nat, i: nat)
    requires InCorpus(s) && Enumerates(order, s) && i < |RankInOrder(s, order, topK)|
    ensures var e := RankInOrder(s, order, topK)[i];
      && e.doc in order && e.doc < |s.chunks| && (e.doc in s.vrank || e.doc in s.frank)
      && e == ScoreOf(s, MaxRrf(s, order), e.doc)
  {
    hide RrfOf, MaxRrf, Sort, FinalScore, Cosine, InFile, Enumerates;
    EachOnce(order, s);
    CandidatesInCorpus(order, s);
    var scored := ScoreAll(s, MaxRrf(s, order), order);
    SortRanks(scored);
    var e := RankInOrder(s, order, topK)[i];
    assert e in multiset(Sort(scored)) && e in multiset(scored);
    var k :| 0 <= k < |scored| && scored[k] == e;
    assert order[k] == e.doc;
  }

  /** Every core score lies in [0.096, 0.95]. */
  lemma ScoresAreBounded(s: Setting, order: seq<nat>, topK: nat, i: nat)
    requires InCorpus(s) && Enumerates(order, s) && i < |RankInOrder(s, order, topK)| && s.ftsWeight >= 0.0
    ensures 0.096 <= RankInOrder(s, order, topK)[i].score <= 0.95
  {
    hide RrfOf, MaxRrf, FinalScore, Cosine, RankInOrder, Enumerates, InCorpus;
    RankedElement(s, order, topK, i);
    var e := RankInOrder(s, order, topK)[i];
    MaxRrfBounds(s, order);
    RrfIsNonNegative(s, e.doc);
    var c := s.chunks[e.doc];
    FinalScoreBounds(c, Cosine(s.qvec, c.embedding), s.terms, s.hints, RrfOf(s, e.doc), MaxRrf(s, order));
  }

  // ----- Keyword candidates -----

  /** A chunk shares a token with the query. */
  predicate SharesToken(terms: seq<string>, chunk: Chunk) {
    exists i | 0 <= i < |terms| :: terms[i] in Tokens(chunk.content)
  }

  lemma SharedTokenMeansNoDistance(chunk: Chunk, terms: seq<string>, hints: seq<string>)
    requires SharesToken(terms, chunk)
    ensures KeywordDistance(chunk, terms, hints) == 0.0
  {
    var i :| 0 <= i < |terms| && terms[i] in Tokens(chunk.content);
    TokenIsSubstring(chunk.content, terms[i]);
  }

  /** Every keyword candidate shares a token with the query. */
  lemma KeywordCandidateSharesToken(corpus: Corpus, ln: real -> real, qvec: seq<real>, q: Query, topK: nat, doc: nat)
    requires corpus.Valid() && IsLog(ln)
    requires var s := SettingOf(corpus, ln, qvec, q, topK); doc in s.frank
    ensures doc < |corpus.chunks| && SharesToken(Unique(q.tokens), corpus.chunks[doc])
  {
    hide Describes, Sort, Tokens, IsLog, VectorRanks, Hits;
    var s := SettingOf(corpus, ln, qvec, q, topK);
    DescribedSizes(corpus.bm25, corpus.chunks);
    var hits := Hits(corpus.bm25, corpus.chunks, ln, s.terms, corpus.bm25.n);
    SortRanks(hits);
    var i :| 0 <= i < |Sort(hits)| && Sort(hits)[i].doc == doc;
    assert Sort(hits)[i] in multiset(hits);
    HitContainsToken(corpus.bm25, corpus.chunks, ln, s.terms, Sort(hits)[i]);
    var w :| w in s.terms && w in Tokens(corpus.chunks[doc].content);
    var k :| 0 <= k < |s.terms| && s.terms[k] == w;
  }

  /**
   Ranked keyword candidates score at least 0.16 and share a token with the query; with an
   empty query vector every result does.
   */
  lemma KeywordResults(corpus: Corpus, ln: real -> real, qvec: seq<real>, q: Query, topK: nat, order: seq<nat>, i: nat)
    requires corpus.Valid() && IsLog(ln)
    requires var s := SettingOf(corpus, ln, qvec, q, topK);
      InCorpus(s) && Enumerates(order, s) && i < |RankInOrder(s, order, topK)|
    ensures var s := SettingOf(corpus, ln, qvec, q, topK);
      var e := RankInOrder(s, order, topK)[i];
      && e.doc < |s.chunks|
      && (e.doc in s.frank ==> e.score >= 0.16 && KeywordDistance(s.chunks[e.doc], s.terms, s.hints) == 0.0)
      && (qvec == [] || e.doc in s.frank ==> SharesToken(s.terms, s.chunks[e.doc]))
  {
    hide RrfOf, MaxRrf, FinalScore, Cosine, RankInOrder, IsLog, Describes, KeywordRanks, RankByCosine, RankMap,
      KeywordDistance;
    var s := SettingOf(corpus, ln, qvec, q, topK);
    RankedElement(s, order, topK, i);
    var e := RankInOrder(s, order, topK)[i];
    if e.doc in s.frank {
      KeywordCandidateSharesToken(corpus, ln, qvec, q, topK, e.doc);
      var c := s.chunks[e.doc];
      SharedTokenMeansNoDistance(c, s.terms, s.hints);
      MaxRrfBounds(s, order);
      RrfIsNonNegative(s, e.doc);
      FinalScoreBounds(c, Cosine(s.qvec, c.embedding), s.terms, s.hints, RrfOf(s, e.doc), MaxRrf(s, order));
    }
  }
}
