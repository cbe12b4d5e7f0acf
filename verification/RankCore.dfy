/**
 The core ranking of src/retriever.rs: vector and BM25 candidates, reciprocal rank fusion,
 confidence blend, path penalty, the ranking order, and the per-file cap. Scores are exact
 reals; a query is given by its tokens, its file hints and its intent.
 */
module RankCore {
  import opened Options
  import opened Chunks
  import opened RankOrder
  import opened AsciiText
  import opened KeywordStore
  import opened DiversityCap

  const RRF_K := 60.0
  const FTS_BOOST_CODE_LOOKUP := 1.5
  const CANDIDATE_MULTIPLIER := 3
  const CONFIDENCE_WEIGHT := 0.5
  const W_VECTOR := 0.5
  const W_KEYWORD := 0.4
  const W_RECENCY := 0.1
  const PATH_PENALTY := 0.8
  const PATH_PENALTY_MARKERS: seq<string> := ["tests/", "test_", "docs/", "spec", "plan"]

  datatype Query = Query(tokens: seq<string>, hints: seq<string>, codeLookup: bool)

  /** A corpus: its chunks and the BM25 index that describes them. */
  datatype Corpus = Corpus(chunks: seq<Chunk>, bm25: Bm25Index) {
    predicate Valid() {
      Describes(bm25, chunks)
    }
  }

  // ----- The pieces of a score -----

  function Contribution(rank: Option<nat>): real {
    match rank
    case None => 0.0
    case Some(r) => 1.0 / (RRF_K + r as real)
  }

  function Rrf(vrank: Option<nat>, frank: Option<nat>, ftsWeight: real): real {
    Contribution(vrank) + ftsWeight * Contribution(frank)
  }

  function Lookup(m: map<nat, nat>, doc: nat): Option<nat> {
    if doc in m then Some(m[doc]) else None
  }

  /** The ranks of the first `n` of a ranking, by document. */
  function RankMap(ranked: seq<Scored>, n: nat): (m: map<nat, nat>)
    requires n <= |ranked|
    ensures forall doc :: doc in m <==> exists i | 0 <= i < n :: ranked[i].doc == doc
  {
    if n == 0 then map[] else RankMap(ranked, n - 1)[ranked[n - 1].doc := n - 1]
  }

  /** The tokens in order of first occurrence. */
  function Unique(s: seq<string>): (r: seq<string>)
    ensures forall w :: w in r <==> w in s
  {
    if s == [] then []
    else
      var init := s[..|s| - 1];
      var w := s[|s| - 1];
      assert s == init + [w];
      if w in init then Unique(init) else Unique(init) + [w]
  }

  /** 0 when a query token occurs in the content or a hint in the path, else 2. */
  function KeywordDistance(chunk: Chunk, terms: seq<string>, hints: seq<string>): real {
    if exists i | 0 <= i < |terms| :: Contains(Lower(chunk.content), terms[i]) then 0.0
    else if exists i | 0 <= i < |hints| :: Contains(Lower(chunk.file), hints[i]) then 0.0
    else 2.0
  }

  predicate HasPenaltyMarker(file: string) {
    exists i | 0 <= i < |PATH_PENALTY_MARKERS| :: Contains(Lower(file), PATH_PENALTY_MARKERS[i])
  }

  function Clamp(x: real, lo: real, hi: real): real {
    if x < lo then lo else if x > hi then hi else x
  }

  function FinalScore(chunk: Chunk, cos: real, terms: seq<string>, hints: seq<string>, rrf: real, maxRrf: real): real {
    var vectorScore := 1.0 - Clamp((1.0 - cos) / 2.0, 0.0, 1.0);
    var k := 1.0 - KeywordDistance(chunk, terms, hints) / 5.0;
    var keywordScore := if k > 0.0 then k else 0.0;
    var confidence := W_VECTOR * vectorScore + W_KEYWORD * keywordScore + W_RECENCY * 0.0;
    assert ScoreKey(0.0) == 0;
    var normRrf := if ScoreKey(maxRrf) != 0 then rrf / maxRrf else 0.0;
    var final := CONFIDENCE_WEIGHT * confidence + (1.0 - CONFIDENCE_WEIGHT) * normRrf;
    if HasPenaltyMarker(chunk.file) then final * PATH_PENALTY else final
  }

  // ----- Candidates -----

  function CosineScored(qvec: seq<real>, chunks: seq<Chunk>): (r: seq<Scored>)
    ensures |r| == |chunks|
    ensures forall i | 0 <= i < |r| :: r[i] == Scored(i, Cosine(qvec, chunks[i].embedding), chunks[i].id)
  {
    seq(|chunks|, i requires 0 <= i < |chunks| => Scored(i, Cosine(qvec, chunks[i].embedding), chunks[i].id))
  }

  /** Every chunk, best cosine first. */
  function RankByCosine(qvec: seq<real>, chunks: seq<Chunk>): (r: seq<Scored>)
    ensures |r| == |chunks| && multiset(r) == multiset(CosineScored(qvec, chunks))
  {
    SortRanks(CosineScored(qvec, chunks));
    Sort(CosineScored(qvec, chunks))
  }

  function VectorRanks(qvec: seq<real>, chunks: seq<Chunk>, topK: nat): map<nat, nat> {
    if qvec == [] then map[]
    else
      var wanted := if topK * CANDIDATE_MULTIPLIER < 1 then 1 else topK * CANDIDATE_MULTIPLIER;
      RankMap(RankByCosine(qvec, chunks), Min(wanted, |chunks|))
  }

  function KeywordRanking(corpus: Corpus, ln: real -> real, terms: seq<string>): seq<Scored>
    requires corpus.Valid()
  {
    Sort(Hits(corpus.bm25, corpus.chunks, ln, terms, corpus.bm25.n))
  }

  function KeywordRanks(corpus: Corpus, ln: real -> real, terms: seq<string>, topK: nat): map<nat, nat>
    requires corpus.Valid()
  {
    var ranked := KeywordRanking(corpus, ln, terms);
    RankMap(ranked, Min(topK * CANDIDATE_MULTIPLIER, |ranked|))
  }

  /** What the candidates are scored from. */
  datatype Setting = Setting(chunks: seq<Chunk>, qvec: seq<real>, terms: seq<string>, hints: seq<string>,
                             ftsWeight: real, vrank: map<nat, nat>, frank: map<nat, nat>)

  function SettingOf(corpus: Corpus, ln: real -> real, qvec: seq<real>, q: Query, topK: nat): Setting
    requires corpus.Valid()
  {
    var terms := Unique(q.tokens);
    Setting(corpus.chunks, qvec, terms, q.hints, if q.codeLookup then FTS_BOOST_CODE_LOOKUP else 1.0,
            VectorRanks(qvec, corpus.chunks, topK), KeywordRanks(corpus, ln, terms, topK))
  }

  function RrfOf(s: Setting, doc: nat): real {
    Rrf(Lookup(s.vrank, doc), Lookup(s.frank, doc), s.ftsWeight)
  }

  function Larger(a: real, b: real): real {
    if a < b then b else a
  }

  /** The largest fusion score, folded over the candidates in the given order. */
  function MaxRrf(s: Setting, order: seq<nat>): real {
    if order == [] then 0.0 else Larger(MaxRrf(s, order[..|order| - 1]), RrfOf(s, order[|order| - 1]))
  }

  function ScoreOf(s: Setting, maxRrf: real, doc: nat): Scored
    requires doc < |s.chunks|
  {
    var c := s.chunks[doc];
    Scored(doc, FinalScore(c, Cosine(s.qvec, c.embedding), s.terms, s.hints, RrfOf(s, doc), maxRrf), c.id)
  }

  function ScoreAll(s: Setting, maxRrf: real, order: seq<nat>): (r: seq<Scored>)
    requires forall i | 0 <= i < |order| :: order[i] < |s.chunks|
    ensures |r| == |order| && forall i | 0 <= i < |r| :: r[i] == ScoreOf(s, maxRrf, order[i])
  {
    seq(|order|, i requires 0 <= i < |order| => ScoreOf(s, maxRrf, order[i]))
  }

  /** `order` lists the keys, each once. */
  ghost predicate ListsKeys(order: seq<nat>, keys: set<nat>) {
    (forall i, j | 0 <= i < j < |order| :: order[i] != order[j]) && forall doc :: doc in order <==> doc in keys
  }

  /** `order` is what chaining the keys of two hash maps yields: the vector candidates, then the BM25-only ones. */
  ghost predicate Enumerates(order: seq<nat>, s: Setting) {
    exists n | 0 <= n <= |order| ::
      ListsKeys(order[..n], s.vrank.Keys) && ListsKeys(order[n..], s.frank.Keys - s.vrank.Keys)
  }

  /** Such an order lists each candidate once. */
  lemma EachOnce(order: seq<nat>, s: Setting)
    requires Enumerates(order, s)
    ensures ListsKeys(order, s.vrank.Keys + s.frank.Keys)
  {
    hide ListsKeys;
    var n :| 0 <= n <= |order| && ListsKeys(order[..n], s.vrank.Keys)
          && ListsKeys(order[n..], s.frank.Keys - s.vrank.Keys);
    ListsBoth(order[..n], order[n..], s.vrank.Keys, s.frank.Keys - s.vrank.Keys);
    assert order == order[..n] + order[n..];
    assert s.vrank.Keys + (s.frank.Keys - s.vrank.Keys) == s.vrank.Keys + s.frank.Keys;
  }

  lemma ListsBoth(a: seq<nat>, b: seq<nat>, x: set<nat>, y: set<nat>)
    requires ListsKeys(a, x) && ListsKeys(b, y) && x !! y
    ensures ListsKeys(a + b, x + y)
  {
    assert forall i | 0 <= i < |a| :: a[i] in x;
    assert forall j | 0 <= j < |b| :: b[j] in y;
  }

  lemma ListsOneMore(order: seq<nat>, keys: set<nat>, doc: nat)
    requires ListsKeys(order, keys) && doc !in keys
    ensures ListsKeys(order + [doc], keys + {doc})
  {
    assert ListsKeys([doc], {doc});
    ListsBoth(order, [doc], keys, {doc});
  }

  lemma CandidatesInCorpus(order: seq<nat>, s: Setting)
    requires InCorpus(s) && Enumerates(order, s)
    ensures forall i | 0 <= i < |order| :: order[i] < |s.chunks|
  {
    EachOnce(order, s);
    assert forall i | 0 <= i < |order| :: order[i] in order;
  }

  /** Every candidate is a document of the corpus. */
  predicate InCorpus(s: Setting) {
    (forall doc | doc in s.vrank :: doc < |s.chunks|) && (forall doc | doc in s.frank :: doc < |s.chunks|)
  }

  /** The ranking when the candidates are met in the given order. */
  function RankInOrder(s: Setting, order: seq<nat>, topK: nat): seq<Scored>
    requires InCorpus(s) && Enumerates(order, s)
  {
    CandidatesInCorpus(order, s);
    Cap(FilesOf(s.chunks), Sort(ScoreAll(s, MaxRrf(s, order), order)), topK)
  }

  lemma SettingInCorpus(corpus: Corpus, ln: real -> real, qvec: seq<real>, q: Query, topK: nat)
    requires corpus.Valid()
    ensures InCorpus(SettingOf(corpus, ln, qvec, q, topK))
  {
    hide Describes, Cosine, ScoreDoc, Sort;
    var s := SettingOf(corpus, ln, qvec, q, topK);
    DescribedSizes(corpus.bm25, corpus.chunks);
    forall doc | doc in s.vrank
      ensures doc < |s.chunks|
    {
      var ranked := RankByCosine(qvec, corpus.chunks);
      var i :| 0 <= i < |ranked| && ranked[i].doc == doc;
      assert ranked[i] in multiset(CosineScored(qvec, corpus.chunks));
    }
    forall doc | doc in s.frank
      ensures doc < |s.chunks|
    {
      var hits := Hits(corpus.bm25, corpus.chunks, ln, s.terms, corpus.bm25.n);
      SortRanks(hits);
      var i :| 0 <= i < |Sort(hits)| && Sort(hits)[i].doc == doc;
      assert Sort(hits)[i] in multiset(hits);
    }
  }

  /** Appends the keys not yet seen, in whatever order the hash map yields them. */
  method TakeKeys(keys: set<nat>, before: seq<nat>, seenBefore: set<nat>) returns (order: seq<nat>, seen: set<nat>)
    requires ListsKeys(before, seenBefore)
    ensures before <= order && ListsKeys(order[|before|..], keys - seenBefore)
    ensures seen == seenBefore + keys && ListsKeys(order, seen)
  {
    hide ListsKeys;
    order, seen := before, seenBefore;
    var left := keys;
    assert ListsKeys([], {}) by { NothingListed(); }
    assert order[|before|..] == [] && keys - left - seenBefore == {};
    while left != {}
      invariant left <= keys && seen + left == seenBefore + keys && seen - seenBefore == keys - left - seenBefore
      invariant before <= order && ListsKeys(order[|before|..], keys - left - seenBefore) && ListsKeys(order, seen)
      invariant seenBefore <= seen
      decreases left
    {
      var doc :| doc in left;
      ghost var taken := keys - left - seenBefore;
      left := left - {doc};
      if doc !in seen {
        ListsOneMore(order, seen, doc);
        ListsOneMore(order[|before|..], taken, doc);
        assert (order + [doc])[|before|..] == order[|before|..] + [doc];
        order, seen := order + [doc], seen + {doc};
        assert keys - left - seenBefore == taken + {doc};
      } else {
        assert keys - left - seenBefore == taken;
      }
    }
    assert keys - left - seenBefore == keys - seenBefore;
  }

  lemma NothingListed()
    ensures ListsKeys([], {})
  {
  }

  method MaxLoop(s: Setting, order: seq<nat>) returns (maxRrf: real)
    ensures maxRrf == MaxRrf(s, order)
  {
    maxRrf := 0.0;
    assert order[..0] == [];
    for i := 0 to |order|
      invariant maxRrf == MaxRrf(s, order[..i])
    {
      assert order[..i + 1][..i] == order[..i];
      maxRrf := Larger(maxRrf, RrfOf(s, order[i]));
    }
    assert order[..|order|] == order;
  }

  method ScoreLoop(s: Setting, cosines: seq<real>, maxRrf: real, order: seq<nat>) returns (scored: seq<Scored>)
    requires forall i | 0 <= i < |order| :: order[i] < |s.chunks|
    requires |cosines| == |s.chunks|
    requires forall doc | doc in s.vrank && doc < |s.chunks| :: cosines[doc] == Cosine(s.qvec, s.chunks[doc].embedding)
    ensures scored == ScoreAll(s, maxRrf, order)
  {
    hide Cosine, FinalScore, RrfOf;
    scored := [];
    for i := 0 to |order|
      invariant |scored| == i && forall k | 0 <= k < i :: scored[k] == ScoreOf(s, maxRrf, order[k])
    {
      var doc := order[i];
      var c := s.chunks[doc];
      var cos := if doc in s.vrank then cosines[doc] else Cosine(s.qvec, c.embedding);
      scored := scored + [Scored(doc, FinalScore(c, cos, s.terms, s.hints, RrfOf(s, doc), maxRrf), c.id)];
    }
  }

  /** The loops of `rank_core`; the candidates come out of the hash maps in an order of their own. */
  method Rank(corpus: Corpus, ln: real -> real, qvec: seq<real>, q: Query, topK: nat)
    returns (kept: seq<Scored>, ghost order: seq<nat>)
    requires corpus.Valid()
    ensures q.tokens == [] || corpus.chunks == [] ==> kept == []
    ensures q.tokens != [] && corpus.chunks != [] ==>
      var s := SettingOf(corpus, ln, qvec, q, topK);
      InCorpus(s) && Enumerates(order, s) && kept == RankInOrder(s, order, topK)
  {
    hide Describes, Sort, Cosine, FinalScore, RrfOf, Cap, ListsKeys;
    if q.tokens == [] || corpus.chunks == [] {
      return [], [];
    }
    var terms := Unique(q.tokens);
    var vrank, cosines := VectorCandidates(qvec, corpus.chunks, topK);
    var ranked := Score(corpus.bm25, corpus.chunks, ln, terms);
    var frank := RankLoop(ranked, Min(topK * CANDIDATE_MULTIPLIER, |ranked|));
    var s := Setting(corpus.chunks, qvec, terms, q.hints,
                     if q.codeLookup then FTS_BOOST_CODE_LOOKUP else 1.0, vrank, frank);
    SettingInCorpus(corpus, ln, qvec, q, topK);
    NothingListed();
    var candidates, seen := TakeKeys(vrank.Keys, [], {});
    assert seen == vrank.Keys;
    ghost var first := candidates;
    candidates, seen := TakeKeys(frank.Keys, candidates, seen);
    order := candidates;
    assert order[..|first|] == first;
    CandidatesInCorpus(order, s);
    var maxRrf := MaxLoop(s, candidates);
    var scored := ScoreLoop(s, cosines, maxRrf, candidates);
    kept := CapLoop(FilesOf(corpus.chunks), Sort(scored), topK);
  }

  method RankLoop(ranked: seq<Scored>, n: nat) returns (m: map<nat, nat>)
    requires n <= |ranked|
    ensures m == RankMap(ranked, n)
  {
    m := map[];
    for rank := 0 to n
      invariant m == RankMap(ranked, rank)
    {
      m := m[ranked[rank].doc := rank];
    }
  }

  /** Every cosine by document, and the ranks of the best; none of either for an empty query vector. */
  method VectorCandidates(qvec: seq<real>, chunks: seq<Chunk>, topK: nat)
    returns (vrank: map<nat, nat>, cosines: seq<real>)
    ensures vrank == VectorRanks(qvec, chunks, topK)
    ensures |cosines| == |chunks| && forall doc | doc in vrank && doc < |chunks| ::
      cosines[doc] == Cosine(qvec, chunks[doc].embedding)
  {
    hide Sort, Cosine;
    cosines := seq(|chunks|, i => 0.0);
    vrank := map[];
    if qvec != [] {
      var ranked := RankByCosine(qvec, chunks);
      for i := 0 to |ranked|
        invariant |cosines| == |chunks|
        invariant forall k | 0 <= k < i :: ranked[k].doc < |chunks| ==>
          cosines[ranked[k].doc] == Cosine(qvec, chunks[ranked[k].doc].embedding)
      {
        assert ranked[i] in multiset(CosineScored(qvec, chunks));
        cosines := cosines[ranked[i].doc := ranked[i].score];
      }
      var wanted := if topK * CANDIDATE_MULTIPLIER < 1 then 1 else topK * CANDIDATE_MULTIPLIER;
      vrank := RankLoop(ranked, Min(wanted, |chunks|));
    }
  }
}
