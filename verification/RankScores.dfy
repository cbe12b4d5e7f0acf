/**
 What a core score is, read off the two rankings: the fusion of a document's places in them,
 blended with its cosine, its lexical hit and its path. Every number is written out.
 */
module RankScores {
  import opened Options
  import opened AsciiText
  import opened Chunks
  import opened RankOrder
  import opened KeywordStore
  import opened KeywordScores
  import opened Lexicographic
  import opened RankCore
  import opened RankTheorems

  // ----- Places in the two rankings -----

  /** Document `doc` stands at place `p` of the cosine ranking and is a vector candidate there. */
  predicate VectorPlace(chunks: seq<Chunk>, qvec: seq<real>, topK: nat, doc: nat, p: nat) {
    qvec != [] && p < |chunks| && (p == 0 || p < 3 * topK) && RankByCosine(qvec, chunks)[p].doc == doc
  }

  /** Document `doc` stands at place `p` of the BM25 ranking and is a BM25 candidate there. */
  predicate KeywordPlace(corpus: Corpus, ln: real -> real, q: Query, topK: nat, doc: nat, p: nat)
    requires corpus.Valid()
  {
    var ranked := KeywordRanking(corpus, ln, Unique(q.tokens));
    p < |ranked| && p < 3 * topK && ranked[p].doc == doc
  }

  /** The document's places: `v` in the cosine ranking and `k` in the BM25 ranking, if it is a candidate there. */
  ghost predicate Places(corpus: Corpus, ln: real -> real, qvec: seq<real>, q: Query, topK: nat, doc: nat,
                         v: Option<nat>, k: Option<nat>)
    requires corpus.Valid()
  {
    && (v.Some? ==> VectorPlace(corpus.chunks, qvec, topK, doc, v.value))
    && (v.None? ==> forall p :: !VectorPlace(corpus.chunks, qvec, topK, doc, p))
    && (k.Some? ==> KeywordPlace(corpus, ln, q, topK, doc, k.value))
    && (k.None? ==> forall p :: !KeywordPlace(corpus, ln, q, topK, doc, p))
  }

  lemma {:induction false} RankMapPlaces(ranked: seq<Scored>, n: nat, i: nat)
    requires i < n <= |ranked| && DistinctDocs(ranked)
    ensures ranked[i].doc in RankMap(ranked, n) && RankMap(ranked, n)[ranked[i].doc] == i
  {
    hide RankMap;
    LastPlace(ranked, n - 1);
    if i < n - 1 {
      RankMapPlaces(ranked, n - 1, i);
      assert ranked[i].doc != ranked[n - 1].doc;
    }
  }

  lemma LastPlace(ranked: seq<Scored>, n: nat)
    requires n < |ranked|
    ensures RankMap(ranked, n + 1) == RankMap(ranked, n)[ranked[n].doc := n]
  {
  }

  /** Where a rank map finds a document. */
  lemma RankMapFinds(ranked: seq<Scored>, n: nat, doc: nat)
    requires n <= |ranked| && DistinctDocs(ranked)
    ensures doc in RankMap(ranked, n) <==> exists p | 0 <= p < n :: ranked[p].doc == doc
    ensures doc in RankMap(ranked, n) ==> RankMap(ranked, n)[doc] < n && ranked[RankMap(ranked, n)[doc]].doc == doc
  {
    if doc in RankMap(ranked, n) {
      var p :| 0 <= p < n && ranked[p].doc == doc;
      RankMapPlaces(ranked, n, p);
    }
  }

  lemma CosineDocsDistinct(qvec: seq<real>, chunks: seq<Chunk>)
    ensures DistinctDocs(RankByCosine(qvec, chunks))
  {
    hide Cosine, Sort;
    SortKeepsDocsDistinct(CosineScored(qvec, chunks));
  }

  lemma KeywordDocsDistinct(corpus: Corpus, ln: real -> real, terms: seq<string>)
    requires corpus.Valid()
    ensures DistinctDocs(KeywordRanking(corpus, ln, terms))
  {
    hide Describes, Sort, ScoreDoc, ScoreKey;
    DescribedSizes(corpus.bm25, corpus.chunks);
    SortKeepsDocsDistinct(Hits(corpus.bm25, corpus.chunks, ln, terms, corpus.bm25.n));
  }

  lemma VectorRankIsPlace(qvec: seq<real>, chunks: seq<Chunk>, topK: nat, doc: nat, v: Option<nat>)
    requires v.Some? ==> VectorPlace(chunks, qvec, topK, doc, v.value)
    requires v.None? ==> forall p :: !VectorPlace(chunks, qvec, topK, doc, p)
    ensures Lookup(VectorRanks(qvec, chunks, topK), doc) == v
  {
    hide Cosine, Sort, RankMap;
    if qvec != [] {
      var ranked := RankByCosine(qvec, chunks);
      var n := if topK == 0 then 1 else 3 * topK;
      var m := if n < |chunks| then n else |chunks|;
      CosineDocsDistinct(qvec, chunks);
      RankMapFinds(ranked, m, doc);
      assert VectorRanks(qvec, chunks, topK) == RankMap(ranked, m);
      if v.Some? {
        RankMapPlaces(ranked, m, v.value);
      } else {
        forall p | 0 <= p < m
          ensures ranked[p].doc != doc
        {
          assert !VectorPlace(chunks, qvec, topK, doc, p);
        }
      }
    }
  }

  lemma KeywordRankIsPlace(corpus: Corpus, ln: real -> real, q: Query, topK: nat, doc: nat, k: Option<nat>)
    requires corpus.Valid()
    requires k.Some? ==> KeywordPlace(corpus, ln, q, topK, doc, k.value)
    requires k.None? ==> forall p :: !KeywordPlace(corpus, ln, q, topK, doc, p)
    ensures Lookup(KeywordRanks(corpus, ln, Unique(q.tokens), topK), doc) == k
  {
    hide KeywordRanking, RankMap, Describes, Unique;
    var ranked := KeywordRanking(corpus, ln, Unique(q.tokens));
    var m := if 3 * topK < |ranked| then 3 * topK else |ranked|;
    KeywordDocsDistinct(corpus, ln, Unique(q.tokens));
    RankMapFinds(ranked, m, doc);
    assert KeywordRanks(corpus, ln, Unique(q.tokens), topK) == RankMap(ranked, m);
    if k.Some? {
      RankMapPlaces(ranked, m, k.value);
    } else {
      forall p | 0 <= p < m
        ensures ranked[p].doc != doc
      {
        assert !KeywordPlace(corpus, ln, q, topK, doc, p);
      }
    }
  }

  /** Every document has places, and is a candidate exactly when it has one. */
  lemma PlacesExist(corpus: Corpus, ln: real -> real, qvec: seq<real>, q: Query, topK: nat, doc: nat)
    returns (v: Option<nat>, k: Option<nat>)
    requires corpus.Valid()
    ensures Places(corpus, ln, qvec, q, topK, doc, v, k)
    ensures var s := SettingOf(corpus, ln, qvec, q, topK);
      (v.Some? <==> doc in s.vrank) && (k.Some? <==> doc in s.frank)
  {
    hide VectorPlace, KeywordPlace, Describes, VectorRanks, KeywordRanks, Unique;
    v := if p :| VectorPlace(corpus.chunks, qvec, topK, doc, p) then Some(p) else None;
    k := if p :| KeywordPlace(corpus, ln, q, topK, doc, p) then Some(p) else None;
    VectorRankIsPlace(qvec, corpus.chunks, topK, doc, v);
    KeywordRankIsPlace(corpus, ln, q, topK, doc, k);
  }

  // ----- Fusion -----

  /** One over sixty and the place in each ranking, a BM25 place counting half as much again for a code lookup. */
  function Fusion(v: Option<nat>, k: Option<nat>, codeLookup: bool): real {
    (if v.Some? then 1.0 / (60 + v.value) as real else 0.0)
    + (if k.Some? then (if codeLookup then 1.5 else 1.0) / (60 + k.value) as real else 0.0)
  }

  lemma FusionByPlaces(corpus: Corpus, ln: real -> real, qvec: seq<real>, q: Query, topK: nat, doc: nat,
                       v: Option<nat>, k: Option<nat>)
    requires corpus.Valid() && Places(corpus, ln, qvec, q, topK, doc, v, k)
    ensures RrfOf(SettingOf(corpus, ln, qvec, q, topK), doc) == Fusion(v, k, q.codeLookup)
  {
    hide VectorPlace, KeywordPlace, Describes, VectorRanks, KeywordRanks, Unique;
    VectorRankIsPlace(qvec, corpus.chunks, topK, doc, v);
    KeywordRankIsPlace(corpus, ln, q, topK, doc, k);
    if v.Some? {
      assert 60.0 + v.value as real == (60 + v.value) as real;
    }
    if k.Some? {
      assert 60.0 + k.value as real == (60 + k.value) as real;
    }
  }

  /** The repository's own anchors: first and third, one ranking alone, none. */
  lemma FusionAnchors()
    ensures Fusion(Some(0), Some(2), false) == 1.0 / 60.0 + 1.0 / 62.0
    ensures Fusion(Some(0), None, false) == 1.0 / 60.0 && Fusion(None, Some(0), true) == 1.5 / 60.0
    ensures Fusion(None, None, false) == 0.0
  {
  }

  /** `a` is an earlier place than `b`; any place is earlier than none. */
  predicate Earlier(a: Option<nat>, b: Option<nat>) {
    a.Some? && (b.Some? ==> a.value < b.value)
  }

  lemma PlaceWeighs(w: real, a: nat, b: nat)
    requires w > 0.0 && a < b
    ensures w / (60 + a) as real > w / (60 + b) as real > 0.0
  {
    var x, y := (60 + a) as real, (60 + b) as real;
    var p, q := w / x, w / y;
    assert p * x == w && q * y == w;
    PositiveFactor(q, y);
    assert q * (y - x) > 0.0;
    assert (p - q) * x == q * (y - x);
    PositiveFactor(p - q, x);
  }

  lemma PositiveFactor(a: real, x: real)
    requires x > 0.0 && a * x > 0.0
    ensures a > 0.0
  {
  }

  /** An earlier place in one ranking and one no later in the other fuse to more. */
  lemma EarlierFusesToMore(v: Option<nat>, k: Option<nat>, v': Option<nat>, k': Option<nat>, codeLookup: bool)
    requires (Earlier(v, v') && (k == k' || Earlier(k, k'))) || (v == v' && Earlier(k, k'))
    ensures Fusion(v, k, codeLookup) > Fusion(v', k', codeLookup)
  {
    var w := if codeLookup then 1.5 else 1.0;
    if Earlier(v, v') {
      PlaceWeighs(1.0, v.value, if v'.Some? then v'.value else v.value + 1);
    }
    if Earlier(k, k') {
      PlaceWeighs(w, k.value, if k'.Some? then k'.value else k.value + 1);
    }
  }

  // ----- The blend -----

  /** Half of one plus the cosine, cut off at 0 and 1. */
  function Closeness(cos: real): real {
    if cos <= -1.0 then 0.0 else if cos >= 1.0 then 1.0 else (1.0 + cos) / 2.0
  }

  /** A token of the query occurs in the lowercased content, or a hint in the lowercased path. */
  predicate LexicalHit(c: Chunk, q: Query) {
    || (exists i | 0 <= i < |q.tokens| :: Occurs(q.tokens[i], Lower(c.content)))
    || (exists i | 0 <= i < |q.hints| :: Occurs(q.hints[i], Lower(c.file)))
  }

  /** The path of a test, a document or a plan. */
  predicate Marked(file: string) {
    var f := Lower(file);
    Occurs("tests/", f) || Occurs("test_", f) || Occurs("docs/", f) || Occurs("spec", f) || Occurs("plan", f)
  }

  lemma MarkedIsPenalized(file: string)
    ensures HasPenaltyMarker(file) <==> Marked(file)
  {
    hide Contains, Occurs;
    var f := Lower(file);
    ContainsIff(f, "tests/");
    ContainsIff(f, "test_");
    ContainsIff(f, "docs/");
    ContainsIff(f, "spec");
    ContainsIff(f, "plan");
    var marks := PATH_PENALTY_MARKERS;
    assert |marks| == 5 && marks[0] == "tests/" && marks[1] == "test_" && marks[2] == "docs/" && marks[3] == "spec"
        && marks[4] == "plan";
  }

  lemma HitIsAtDistanceZero(c: Chunk, q: Query)
    ensures KeywordDistance(c, Unique(q.tokens), q.hints) == if LexicalHit(c, q) then 0.0 else 2.0
  {
    hide Contains, Occurs, Unique;
    var terms := Unique(q.tokens);
    UniqueKeepsTokens(q.tokens);
    forall i | 0 <= i < |terms|
      ensures terms[i] in q.tokens && (Contains(Lower(c.content), terms[i]) <==> Occurs(terms[i], Lower(c.content)))
    {
      assert terms[i] in terms;
      ContainsIff(Lower(c.content), terms[i]);
    }
    forall i | 0 <= i < |q.tokens|
      ensures q.tokens[i] in terms
    {
      assert q.tokens[i] in q.tokens;
    }
    forall i | 0 <= i < |q.hints|
      ensures Contains(Lower(c.file), q.hints[i]) <==> Occurs(q.hints[i], Lower(c.file))
    {
      ContainsIff(Lower(c.file), q.hints[i]);
    }
  }

  lemma UniqueKeepsTokens(tokens: seq<string>)
    ensures forall w :: w in Unique(tokens) <==> w in tokens
  {
  }

  lemma BlendOf(c: Chunk, cos: real, q: Query, rrf: real, maxRrf: real)
    requires ScoreKey(maxRrf) != 0
    ensures maxRrf != 0.0
    ensures FinalScore(c, cos, Unique(q.tokens), q.hints, rrf, maxRrf)
         == (if Marked(c.file) then 0.8 else 1.0)
            * (0.25 * Closeness(cos) + 0.2 * (if LexicalHit(c, q) then 1.0 else 0.6) + 0.5 * (rrf / maxRrf))
  {
    hide KeywordDistance, HasPenaltyMarker, ScoreKey, LexicalHit, Marked, Unique;
    ZeroKey();
    HitIsAtDistanceZero(c, q);
    MarkedIsPenalized(c.file);
  }

  // ----- The score of a result -----

  /** The best fusion is that of some candidate, no candidate has more, and it is one sixtieth at least. */
  lemma BestFusion(corpus: Corpus, ln: real -> real, qvec: seq<real>, q: Query, topK: nat, order: seq<nat>)
    requires corpus.Valid()
    requires var s := SettingOf(corpus, ln, qvec, q, topK); InCorpus(s) && Enumerates(order, s) && order != []
    ensures var s := SettingOf(corpus, ln, qvec, q, topK); var best := MaxRrf(s, order);
      && best >= 1.0 / 60.0
      && (forall doc | doc in order :: RrfOf(s, doc) <= best)
      && exists doc | doc in order :: RrfOf(s, doc) == best
  {
    hide Describes, SettingOf, RrfOf, MaxRrf, Enumerates, InCorpus;
    var s := SettingOf(corpus, ln, qvec, q, topK);
    MaxRrfBounds(s, order);
    var doc := FirstPlaced(corpus, ln, qvec, q, topK, order);
    assert RrfOf(s, doc) <= MaxRrf(s, order);
  }

  lemma FirstPlaced(corpus: Corpus, ln: real -> real, qvec: seq<real>, q: Query, topK: nat, order: seq<nat>)
    returns (first: nat)
    requires corpus.Valid()
    requires var s := SettingOf(corpus, ln, qvec, q, topK); InCorpus(s) && Enumerates(order, s) && order != []
    ensures first in order && RrfOf(SettingOf(corpus, ln, qvec, q, topK), first) >= 1.0 / 60.0
  {
    hide Describes, SettingOf, RrfOf, Enumerates, InCorpus, KeywordRanking, RankByCosine, Unique;
    var s := SettingOf(corpus, ln, qvec, q, topK);
    EachOnce(order, s);
    var v, k := PlacesExist(corpus, ln, qvec, q, topK, order[0]);
    assert order[0] in order;
    assert v.Some? || k.Some?;
    if v.Some? {
      first := RankByCosine(qvec, corpus.chunks)[0].doc;
      var v', k' := PlacesExist(corpus, ln, qvec, q, topK, first);
      assert VectorPlace(corpus.chunks, qvec, topK, first, 0);
      FirstPlaceIsPlace(qvec, corpus.chunks, topK, first, v');
      FusionByPlaces(corpus, ln, qvec, q, topK, first, v', k');
      FusionIsNonNegative(None, k', q.codeLookup);
    } else {
      first := KeywordRanking(corpus, ln, Unique(q.tokens))[0].doc;
      var v', k' := PlacesExist(corpus, ln, qvec, q, topK, first);
      assert KeywordPlace(corpus, ln, q, topK, first, 0);
      FirstKeywordIsPlace(corpus, ln, q, topK, first, k');
      FusionByPlaces(corpus, ln, qvec, q, topK, first, v', k');
      FusionIsNonNegative(v', None, q.codeLookup);
    }
  }

  lemma FirstPlaceIsPlace(qvec: seq<real>, chunks: seq<Chunk>, topK: nat, doc: nat, v: Option<nat>)
    requires VectorPlace(chunks, qvec, topK, doc, 0)
    requires v.Some? ==> VectorPlace(chunks, qvec, topK, doc, v.value)
    requires v.None? ==> forall p :: !VectorPlace(chunks, qvec, topK, doc, p)
    ensures v == Some(0)
  {
    hide RankByCosine;
    CosineDocsDistinct(qvec, chunks);
  }

  lemma FirstKeywordIsPlace(corpus: Corpus, ln: real -> real, q: Query, topK: nat, doc: nat, k: Option<nat>)
    requires corpus.Valid() && KeywordPlace(corpus, ln, q, topK, doc, 0)
    requires k.Some? ==> KeywordPlace(corpus, ln, q, topK, doc, k.value)
    requires k.None? ==> forall p :: !KeywordPlace(corpus, ln, q, topK, doc, p)
    ensures k == Some(0)
  {
    hide KeywordRanking, Describes, Unique;
    KeywordDocsDistinct(corpus, ln, Unique(q.tokens));
  }

  lemma FusionIsNonNegative(v: Option<nat>, k: Option<nat>, codeLookup: bool)
    ensures Fusion(v, k, codeLookup) >= 0.0
  {
    if v.Some? {
      PlaceWeighs(1.0, v.value, v.value + 1);
    }
    if k.Some? {
      PlaceWeighs(if codeLookup then 1.5 else 1.0, k.value, k.value + 1);
    }
  }

  /**
   The score of a result: a quarter for its closeness, a fifth for a lexical hit and three
   fifths of that without one, a half for its fusion against the best, less a fifth on the
   path of a test, a document or a plan.
   */
  lemma ResultScore(corpus: Corpus, ln: real -> real, qvec: seq<real>, q: Query, topK: nat, order: seq<nat>, n: nat,
                    v: Option<nat>, k: Option<nat>)
    requires corpus.Valid()
    requires var s := SettingOf(corpus, ln, qvec, q, topK);
      && InCorpus(s) && Enumerates(order, s) && n < |RankInOrder(s, order, topK)|
      && Places(corpus, ln, qvec, q, topK, RankInOrder(s, order, topK)[n].doc, v, k)
    ensures var s := SettingOf(corpus, ln, qvec, q, topK);
      var e, best := RankInOrder(s, order, topK)[n], MaxRrf(s, order);
      && e.doc < |corpus.chunks| && best >= 1.0 / 60.0
      && var c := corpus.chunks[e.doc];
      && e.id == c.id
      && e.score == (if Marked(c.file) then 0.8 else 1.0)
                    * (0.25 * Closeness(Cosine(qvec, c.embedding)) + 0.2 * (if LexicalHit(c, q) then 1.0 else 0.6)
                       + 0.5 * (Fusion(v, k, q.codeLookup) / best))
  {
    hide Describes, RrfOf, MaxRrf, FinalScore, RankInOrder, Enumerates, InCorpus, Places, Fusion, Closeness, Marked,
      LexicalHit, Unique, Cosine;
    var s := SettingOf(corpus, ln, qvec, q, topK);
    RankedElement(s, order, topK, n);
    var e, best := RankInOrder(s, order, topK)[n], MaxRrf(s, order);
    BestFusion(corpus, ln, qvec, q, topK, order);
    SixtiethHasKey(best);
    FusionByPlaces(corpus, ln, qvec, q, topK, e.doc, v, k);
    var c := corpus.chunks[e.doc];
    BlendOf(c, Cosine(qvec, c.embedding), q, RrfOf(s, e.doc), best);
  }

  lemma SixtiethHasKey(x: real)
    requires x >= 1.0 / 60.0
    ensures ScoreKey(x) != 0
  {
    ScoreKeyIsMonotone(1.0 / 60.0, x);
    assert ScoreKey(1.0 / 60.0) == 16667;
  }

  /**
   Of two results alike in cosine, lexical hit and path, the one that stands earlier in one of
   the rankings, and no later in the other, scores strictly more.
   */
  lemma EarlierPlaceScoresMore(corpus: Corpus, ln: real -> real, qvec: seq<real>, q: Query, topK: nat,
                               order: seq<nat>, m: nat, n: nat, v: Option<nat>, k: Option<nat>, v': Option<nat>,
                               k': Option<nat>)
    requires corpus.Valid()
    requires var s := SettingOf(corpus, ln, qvec, q, topK);
      && InCorpus(s) && Enumerates(order, s)
      && m < |RankInOrder(s, order, topK)| && n < |RankInOrder(s, order, topK)|
      && Places(corpus, ln, qvec, q, topK, RankInOrder(s, order, topK)[m].doc, v, k)
      && Places(corpus, ln, qvec, q, topK, RankInOrder(s, order, topK)[n].doc, v', k')
      && RankInOrder(s, order, topK)[m].doc < |corpus.chunks| && RankInOrder(s, order, topK)[n].doc < |corpus.chunks|
      && var a := corpus.chunks[RankInOrder(s, order, topK)[m].doc];
      var b := corpus.chunks[RankInOrder(s, order, topK)[n].doc];
      && Cosine(qvec, a.embedding) == Cosine(qvec, b.embedding)
      && LexicalHit(a, q) == LexicalHit(b, q) && Marked(a.file) == Marked(b.file)
    requires (Earlier(v, v') && (k == k' || Earlier(k, k'))) || (v == v' && Earlier(k, k'))
    ensures var s := SettingOf(corpus, ln, qvec, q, topK);
      RankInOrder(s, order, topK)[m].score > RankInOrder(s, order, topK)[n].score
  {
    hide Describes, MaxRrf, RankInOrder, Enumerates, InCorpus, Places, Fusion, Closeness, Marked, LexicalHit, SettingOf,
      Cosine;
    var s := SettingOf(corpus, ln, qvec, q, topK);
    ResultScore(corpus, ln, qvec, q, topK, order, m, v, k);
    ResultScore(corpus, ln, qvec, q, topK, order, n, v', k');
    EarlierFusesToMore(v, k, v', k', q.codeLookup);
    MoreOfBest(Fusion(v, k, q.codeLookup), Fusion(v', k', q.codeLookup), MaxRrf(s, order));
  }

  lemma MoreOfBest(x: real, y: real, best: real)
    requires x > y && best > 0.0
    ensures x / best > y / best
  {
    var p, q := x / best, y / best;
    assert p * best == x && q * best == y;
    assert (p - q) * best == x - y;
    PositiveFactor(p - q, best);
  }

  // ----- The two rankings -----

  /** The cosine ranking lists every chunk once, at its cosine: keys fall, and of equal keys ids rise. */
  lemma CosineRankingIs(qvec: seq<real>, chunks: seq<Chunk>)
    ensures var r := RankByCosine(qvec, chunks);
      && |r| == |chunks| && DistinctDocs(r)
      && (forall i | 0 <= i < |r| ::
            && r[i].doc < |chunks| && r[i].id == chunks[r[i].doc].id
            && r[i].score == Cosine(qvec, chunks[r[i].doc].embedding))
      && InRankOrder(r)
  {
    hide Cosine, Sort, InRankOrder;
    var scored := CosineScored(qvec, chunks);
    SortRanks(scored);
    CosineDocsDistinct(qvec, chunks);
    var r := RankByCosine(qvec, chunks);
    RankedIsInRankOrder(r);
    forall i | 0 <= i < |r|
      ensures r[i] in scored
    {
      assert r[i] in multiset(scored);
    }
  }

  /** Keys fall, and of equal keys ids rise. */
  predicate InRankOrder(r: seq<Scored>) {
    forall i, j | 0 <= i < j < |r| ::
      || ScoreKey(r[i].score) > ScoreKey(r[j].score)
      || (ScoreKey(r[i].score) == ScoreKey(r[j].score) && (r[i].id == r[j].id || LexLess(r[i].id, r[j].id)))
  }

  lemma RankedIsInRankOrder(r: seq<Scored>)
    requires Ranked(r)
    ensures InRankOrder(r)
  {
    hide Ranked, ScoreKey, LexLess;
    forall i, j | 0 <= i < j < |r|
      ensures
        || ScoreKey(r[i].score) > ScoreKey(r[j].score)
        || (ScoreKey(r[i].score) == ScoreKey(r[j].score) && (r[i].id == r[j].id || LexLess(r[i].id, r[j].id)))
    {
      RankedMeans(r, i, j);
    }
  }

  /** The query's tokens, each once. */
  predicate Once(terms: seq<string>) {
    forall i, j | 0 <= i < j < |terms| :: terms[i] != terms[j]
  }

  lemma {:induction false} UniqueIsOnce(tokens: seq<string>)
    ensures Once(Unique(tokens)) && forall w :: w in Unique(tokens) <==> w in tokens
  {
    if tokens != [] {
      UniqueIsOnce(tokens[..|tokens| - 1]);
      assert tokens == tokens[..|tokens| - 1] + [tokens[|tokens| - 1]];
    }
  }

  /**
   The BM25 ranking lists once each chunk whose sum over the query's tokens, each counted once,
   does not round to zero: keys fall, and of equal keys ids rise.
   */
  lemma KeywordRankingIs(corpus: Corpus, ln: real -> real, q: Query)
    requires corpus.Valid()
    ensures Once(Unique(q.tokens)) && forall w :: w in Unique(q.tokens) <==> w in q.tokens
    ensures var r, terms := KeywordRanking(corpus, ln, Unique(q.tokens)), Unique(q.tokens);
      && DistinctDocs(r) && InRankOrder(r)
      && (forall i | 0 <= i < |r| ::
            && r[i].doc < |corpus.chunks| && r[i].id == corpus.chunks[r[i].doc].id
            && r[i].score == Bm25(corpus.chunks, ln, r[i].doc, terms) && ScoreKey(r[i].score) > 0)
      && forall d | 0 <= d < |corpus.chunks| && ScoreKey(Bm25(corpus.chunks, ln, d, terms)) > 0 ::
           exists i :: 0 <= i < |r| && r[i].doc == d
  {
    hide Sort, InRankOrder, Describes, Unique, Bm25, ScoreKey, Once;
    UniqueIsOnce(q.tokens);
    var terms := Unique(q.tokens);
    DescribedSizes(corpus.bm25, corpus.chunks);
    var hits := Hits(corpus.bm25, corpus.chunks, ln, terms, corpus.bm25.n);
    HitsAreExactly(corpus.bm25, corpus.chunks, ln, terms, corpus.bm25.n);
    SortRanks(hits);
    KeywordDocsDistinct(corpus, ln, terms);
    var r := KeywordRanking(corpus, ln, terms);
    RankedIsInRankOrder(r);
    forall i | 0 <= i < |r|
      ensures r[i] in hits
    {
      assert r[i] in multiset(hits);
    }
    forall d | 0 <= d < |corpus.chunks| && ScoreKey(Bm25(corpus.chunks, ln, d, terms)) > 0
      ensures exists i :: 0 <= i < |r| && r[i].doc == d
    {
      var x := Scored(d, Bm25(corpus.chunks, ln, d, terms), corpus.chunks[d].id);
      assert x in multiset(hits) && x in multiset(r);
    }
  }
}
