/**
 The recall of src/memory.rs: rank the whole store, keep what scores high enough and shares
 a token with the query, stop at `top_k` hits. The embedder is a parameter.
 */
module MemoryRecall {
  import opened Options
  import opened AsciiText
  import opened Chunks
  import opened RankOrder
  import opened Tokenizer
  import opened KeywordStore
  import opened DiversityCap
  import opened RankCore
  import opened RankTheorems
  import opened MemoryStore

  datatype RecallHit = RecallHit(rank: nat, entry: MemoryEntry, score: real)

  function WithTags(text: string, tags: seq<string>): string {
    if tags == [] then text else WithTags(text, tags[..|tags| - 1]) + " " + tags[|tags| - 1]
  }

  function Searchable(e: MemoryEntry): string {
    WithTags(e.text, e.tags) + match e.area { case None => "" case Some(a) => " " + a }
  }

  function EntryChunk(e: MemoryEntry, embed: string -> seq<real>): Chunk {
    Chunk(e.id, e.id, 0, 0, "decision", Searchable(e), embed(Searchable(e)))
  }

  function EntryChunks(entries: seq<MemoryEntry>, embed: string -> seq<real>): (r: seq<Chunk>)
    ensures |r| == |entries| && forall i | 0 <= i < |r| :: r[i] == EntryChunk(entries[i], embed)
  {
    seq(|entries|, i requires 0 <= i < |entries| => EntryChunk(entries[i], embed))
  }

  predicate EntrySharesToken(tokens: seq<string>, e: MemoryEntry) {
    exists i | 0 <= i < |Tokens(Searchable(e))| :: Tokens(Searchable(e))[i] in tokens
  }

  /** Entries by id; a later one replaces an earlier one. */
  function ById(entries: seq<MemoryEntry>): (m: map<string, MemoryEntry>)
    ensures forall id | id in m :: m[id].id == id && m[id] in entries
    ensures forall e | e in entries :: e.id in m
  {
    if entries == [] then map[]
    else
      var init := entries[..|entries| - 1];
      var last := entries[|entries| - 1];
      assert entries == init + [last];
      ById(init)[last.id := last]
  }

  /** The hits of a ranking, none dropped for number. */
  function AllHits(ranked: seq<Scored>, byId: map<string, MemoryEntry>, tokens: seq<string>,
      minScore: real): (r: seq<RecallHit>)
    ensures |r| <= |ranked|
  {
    if ranked == [] then []
    else
      var hits := AllHits(ranked[..|ranked| - 1], byId, tokens, minScore);
      var x := ranked[|ranked| - 1];
      if x.score < minScore || x.id !in byId || !EntrySharesToken(tokens, byId[x.id]) then hits
      else hits + [RecallHit(|hits| + 1, byId[x.id], x.score)]
  }

  lemma {:induction false} AllHitsGrow(ranked: seq<Scored>, n: nat, byId: map<string, MemoryEntry>,
      tokens: seq<string>, minScore: real)
    requires n <= |ranked|
    ensures AllHits(ranked[..n], byId, tokens, minScore) <= AllHits(ranked, byId, tokens, minScore)
    decreases |ranked|
  {
    if n < |ranked| {
      AllHitsGrow(ranked[..|ranked| - 1], n, byId, tokens, minScore);
      assert ranked[..|ranked| - 1][..n] == ranked[..n];
    } else {
      assert ranked[..n] == ranked;
    }
  }

  /** The number of hits the loop can end with: its check comes behind the push. */
  function Limit(topK: nat): nat {
    if topK == 0 then 1 else topK
  }

  function Take(s: seq<RecallHit>, n: nat): seq<RecallHit> {
    if n < |s| then s[..n] else s
  }

  method FilterLoop(ranked: seq<Scored>, byId: map<string, MemoryEntry>, tokens: seq<string>, topK: nat, minScore: real)
    returns (hits: seq<RecallHit>)
    ensures hits == Take(AllHits(ranked, byId, tokens, minScore), Limit(topK))
  {
    hits := [];
    for i := 0 to |ranked|
      invariant hits == AllHits(ranked[..i], byId, tokens, minScore) && |hits| < Limit(topK)
    {
      var r := ranked[i];
      assert ranked[..i + 1][..i] == ranked[..i];
      if r.score < minScore {
        continue;
      }
      if r.id !in byId {
        continue;
      }
      if !EntrySharesToken(tokens, byId[r.id]) {
        continue;
      }
      hits := hits + [RecallHit(|hits| + 1, byId[r.id], r.score)];
      if |hits| >= topK {
        AllHitsGrow(ranked, i + 1, byId, tokens, minScore);
        return;
      }
    }
    assert ranked[..|ranked|] == ranked;
  }

  /** The setting in which a store is ranked: every entry is a candidate that could be one. */
  function StoreSetting(corpus: Corpus, ln: real -> real, qvec: seq<real>, q: Query): Setting
    requires corpus.Valid()
  {
    SettingOf(corpus, ln, qvec, q, |corpus.chunks|)
  }

  /** The entries of a store that qualify, best first. */
  function Qualifying(entries: seq<MemoryEntry>, corpus: Corpus, ln: real -> real, qvec: seq<real>, q: Query,
                      minScore: real): seq<RecallHit>
    requires corpus.Valid()
  {
    if entries == [] || q.tokens == [] then []
    else AllHits(FullRanking(StoreSetting(corpus, ln, qvec, q)), ById(entries), q.tokens, minScore)
  }

  /** What a recall over the store of the corpus returns, its ids being distinct: the first that qualify. */
  predicate Recalls(hits: seq<RecallHit>, entries: seq<MemoryEntry>, corpus: Corpus, ln: real -> real, qvec: seq<real>,
                    q: Query, topK: nat, minScore: real)
    requires corpus.Valid()
  {
    && (entries == [] || q.tokens == [] ==> hits == [])
    && (DistinctEntryIds(entries) ==> hits == Take(Qualifying(entries, corpus, ln, qvec, q, minScore), Limit(topK)))
  }

  method Recall(entries: seq<MemoryEntry>, embed: string -> seq<real>, ln: real -> real, qvec: seq<real>, q: Query,
                topK: nat, minScore: real) returns (hits: seq<RecallHit>, ghost corpus: Corpus)
    ensures corpus.chunks == EntryChunks(entries, embed) && corpus.Valid()
    ensures Recalls(hits, entries, corpus, ln, qvec, q, topK, minScore)
  {
    hide Describes, Sort, RankInOrder, Enumerates, EntrySharesToken;
    var chunks := EntryChunks(entries, embed);
    var bm25 := Build(chunks);
    corpus := Corpus(chunks, bm25);
    if entries == [] {
      hits := [];
      return;
    }
    var generous := if topK > |entries| then topK else |entries|;
    var ranked, order := Rank(Corpus(chunks, bm25), ln, qvec, q, generous);
    hits := FilterLoop(ranked, ById(entries), q.tokens, topK, minScore);
    if q.tokens != [] && DistinctEntryIds(entries) {
      GenerousIsFull(corpus, ln, qvec, q, generous, order);
    }
  }

  // ----- Ranking generously is ranking everything -----

  lemma GenerousSetting(corpus: Corpus, ln: real -> real, qvec: seq<real>, q: Query, generous: nat)
    requires corpus.Valid() && generous >= |corpus.chunks| > 0
    ensures SettingOf(corpus, ln, qvec, q, generous) == StoreSetting(corpus, ln, qvec, q)
  {
    hide Sort, RankMap, Tokens;
    var terms := Unique(q.tokens);
    var hits := Hits(corpus.bm25, corpus.chunks, ln, terms, corpus.bm25.n);
    SortRanks(hits);
    HitsAreFew(corpus.bm25, corpus.chunks, ln, terms, corpus.bm25.n);
  }

  lemma {:induction false} HitsAreFew(ix: Bm25Index, chunks: seq<Chunk>, ln: real -> real, terms: seq<string>, n: nat)
    requires Describes(ix, chunks) && n <= ix.n
    ensures |Hits(ix, chunks, ln, terms, n)| <= n
  {
    hide Describes, ScoreKey;
    DescribedSizes(ix, chunks);
    if n > 0 {
      HitsAreFew(ix, chunks, ln, terms, n - 1);
    }
  }

  function UpToN(n: nat): (r: seq<nat>)
    ensures |r| == n && forall i | 0 <= i < n :: r[i] == i
  {
    seq(n, i => i)
  }

  lemma NewFile(files: seq<string>, ranked: seq<Scored>, n: nat)
    requires n < |ranked|
    requires forall i | 0 <= i < n :: FileOf(files, ranked[i].doc) != FileOf(files, ranked[n].doc)
    ensures InFile(files, At(ranked, UpToN(n)), FileOf(files, ranked[n].doc)) == 0
  {
    hide FileOf;
    assert FileOf(files, ranked[n].doc) !in Files(files, At(ranked, UpToN(n)));
  }

  /** A cap that no file reaches and no length exceeds keeps everything. */
  lemma {:induction false} CapKeepsAll(files: seq<string>, ranked: seq<Scored>, topK: nat, n: nat)
    requires n <= |ranked| <= topK
    requires forall i, j | 0 <= i < j < |ranked| :: FileOf(files, ranked[i].doc) != FileOf(files, ranked[j].doc)
    ensures Kept(files, ranked, topK, n) == UpToN(n)
  {
    hide FileOf, InFile, At;
    if n > 0 {
      CapKeepsAll(files, ranked, topK, n - 1);
      NewFile(files, ranked, n - 1);
      assert UpToN(n) == UpToN(n - 1) + [n - 1];
    }
  }

  /** Distinct entries are distinct files, so neither cap nor cut applies. */
  lemma GenerousIsFull(corpus: Corpus, ln: real -> real, qvec: seq<real>, q: Query, generous: nat, order: seq<nat>)
    requires corpus.Valid() && generous >= |corpus.chunks| > 0
    requires forall i | 0 <= i < |corpus.chunks| :: corpus.chunks[i].file == corpus.chunks[i].id
    requires DistinctChunkIds(corpus.chunks)
    requires var s := SettingOf(corpus, ln, qvec, q, generous); InCorpus(s) && Enumerates(order, s)
    ensures RankInOrder(SettingOf(corpus, ln, qvec, q, generous), order, generous)
         == FullRanking(StoreSetting(corpus, ln, qvec, q))
  {
    hide Describes, Sort, RankInOrder, SettingOf, RrfOf, MaxRrf, ScoreAll, Enumerates, InCorpus, DistinctChunkIds,
      InIndexOrder;
    GenerousSetting(corpus, ln, qvec, q, generous);
    var s := StoreSetting(corpus, ln, qvec, q);
    SettingChunks(corpus, ln, qvec, q, generous);
    IndexOrderEnumerates(s);
    var all := InIndexOrder(s);
    IndexOrderLength(s);
    RankingForgetsOrder(s, order, all, generous);
    UncappedRanking(s, all, generous);
  }

  lemma SettingChunks(corpus: Corpus, ln: real -> real, qvec: seq<real>, q: Query, topK: nat)
    requires corpus.Valid()
    ensures SettingOf(corpus, ln, qvec, q, topK).chunks == corpus.chunks
  {
  }

  lemma UncappedRanking(s: Setting, order: seq<nat>, topK: nat)
    requires InCorpus(s) && Enumerates(order, s) && |order| <= |s.chunks| <= topK
    requires forall i | 0 <= i < |s.chunks| :: s.chunks[i].file == s.chunks[i].id
    requires DistinctChunkIds(s.chunks)
    ensures RankInOrder(s, order, topK) == FullRankingInOrder(s, order)
  {
    hide RrfOf, MaxRrf, Sort, FinalScore, Cosine, InFile, Enumerates;
    EachOnce(order, s);
    CandidatesInCorpus(order, s);
    var scored := ScoreAll(s, MaxRrf(s, order), order);
    var ranked := Sort(scored);
    SortRanks(scored);
    var files := FilesOf(s.chunks);
    forall i, j | 0 <= i < j < |ranked|
      ensures FileOf(files, ranked[i].doc) != FileOf(files, ranked[j].doc)
    {
      RankedOnce(s, order, ranked, i, j);
    }
    CapKeepsAll(files, ranked, topK, |ranked|);
    assert At(ranked, UpToN(|ranked|)) == ranked;
  }

  /** Two places of a ranking hold different documents, so different ids. */
  lemma RankedOnce(s: Setting, order: seq<nat>, ranked: seq<Scored>, i: nat, j: nat)
    requires (forall k | 0 <= k < |order| :: order[k] < |s.chunks|) && DistinctChunkIds(s.chunks)
    requires forall p, q | 0 <= p < q < |order| :: order[p] != order[q]
    requires multiset(ranked) == multiset(ScoreAll(s, MaxRrf(s, order), order)) && i < j < |ranked|
    ensures ranked[i].doc < |s.chunks| && ranked[j].doc < |s.chunks|
    ensures s.chunks[ranked[i].doc].id != s.chunks[ranked[j].doc].id
  {
    hide RrfOf, MaxRrf, FinalScore, Cosine;
    var scored := ScoreAll(s, MaxRrf(s, order), order);
    assert ranked[i] in multiset(scored) && ranked[j] in multiset(scored);
    var x :| 0 <= x < |scored| && scored[x] == ranked[i];
    var y :| 0 <= y < |scored| && scored[y] == ranked[j];
    assert scored[x].doc == order[x] && scored[y].doc == order[y];
    forall p, q | 0 <= p < q < |scored|
      ensures scored[p] != scored[q]
    {
      assert scored[p].doc == order[p] && scored[q].doc == order[q];
    }
    if x == y {
      TwiceInMultiset(ranked, i, j);
      OccurrencesOf(scored, ranked[i]);
      assert false;
    }
    assert order[x] != order[y];
  }

  /**
   Of two recalls that differ in `top_k` alone, each with an index of its own, the smaller one
   returns a prefix of the larger; and a recall keeps to its limit exactly when the limit is
   positive or nothing qualifies.
   */
  lemma SmallerTopKIsPrefix(entries: seq<MemoryEntry>, embed: string -> seq<real>, ln: real -> real, qvec: seq<real>,
                            q: Query, minScore: real, a: seq<RecallHit>, x: Corpus, j: nat,
                            b: seq<RecallHit>, y: Corpus, k: nat)
    requires DistinctEntryIds(entries) && j <= k
    requires x.chunks == y.chunks == EntryChunks(entries, embed) && x.Valid() && y.Valid()
    requires Recalls(a, entries, x, ln, qvec, q, j, minScore) && Recalls(b, entries, y, ln, qvec, q, k, minScore)
    ensures a <= b
    ensures |b| <= k <==> k > 0 || Qualifying(entries, y, ln, qvec, q, minScore) == []
  {
    hide AllHits, FullRanking, StoreSetting, Describes, DistinctEntryIds;
    IndexIsUnique(x.bm25, y.bm25, x.chunks);
    assert x == y;
  }

  /** The setting of a store of one entry: a vector candidate. */
  lemma OneEntrySetting(corpus: Corpus, ln: real -> real, qvec: seq<real>, q: Query)
    requires corpus.Valid() && |corpus.chunks| == 1 && qvec != []
    ensures var s := StoreSetting(corpus, ln, qvec, q);
      InCorpus(s) && 0 in s.vrank && s.chunks == corpus.chunks && s.ftsWeight >= 0.0
  {
    hide Describes, Cosine, Sort, KeywordRanks;
    SettingInCorpus(corpus, ln, qvec, q, 1);
    var ranked := RankByCosine(qvec, corpus.chunks);
    assert ranked[0] in multiset(ranked);
    assert ranked[0] in multiset(CosineScored(qvec, corpus.chunks));
    assert RankMap(ranked, 1) == RankMap(ranked, 0)[ranked[0].doc := 0];
  }

  /** Its full ranking is that entry, at a score of at least 0.096. */
  lemma OneEntryRanking(s: Setting)
    requires InCorpus(s) && 0 in s.vrank && |s.chunks| == 1 && s.ftsWeight >= 0.0
    ensures |FullRanking(s)| == 1
    ensures var x := FullRanking(s)[0]; x.id == s.chunks[0].id && x.score >= 0.096
  {
    hide RrfOf, MaxRrf, FinalScore, Cosine;
    assert VectorPart(s) == [0] && KeywordPart(s) == [] by {
      assert Ascending(s.vrank.Keys, 0) == Ascending(s.frank.Keys - s.vrank.Keys, 0) == [];
    }
    assert InIndexOrder(s) == [0];
    var m := MaxRrf(s, [0]);
    var x := ScoreOf(s, m, 0);
    assert ScoreAll(s, m, [0]) == [x];
    assert Sort([x]) == [x] by {
      assert [x][1..] == [];
    }
    MaxRrfBounds(s, [0]);
    RrfIsNonNegative(s, 0);
    var c := s.chunks[0];
    FinalScoreBounds(c, Cosine(s.qvec, c.embedding), s.terms, s.hints, RrfOf(s, 0), m);
  }

  /** A `top_k` of 0 recalls the one entry of a store that shares a token with the query. */
  lemma ZeroRecallsOne(e: MemoryEntry, embed: string -> seq<real>, ln: real -> real, qvec: seq<real>, q: Query,
                       minScore: real, corpus: Corpus, hits: seq<RecallHit>)
    requires qvec != [] && q.tokens != [] && EntrySharesToken(q.tokens, e) && minScore <= 0.096
    requires corpus.chunks == EntryChunks([e], embed) && corpus.Valid()
    requires Recalls(hits, [e], corpus, ln, qvec, q, 0, minScore)
    ensures |hits| == 1 && hits[0].entry == e
  {
    hide Describes, StoreSetting, FullRanking, EntrySharesToken, Searchable, InCorpus;
    var s := StoreSetting(corpus, ln, qvec, q);
    OneEntrySetting(corpus, ln, qvec, q);
    OneEntryRanking(s);
    var ranked := FullRanking(s);
    var x := ranked[0];
    assert ranked == [x] && x.id == e.id;
    assert [e][..0] == [] && ById([e])[e.id] == e;
    assert ranked[..0] == [];
    assert AllHits([], ById([e]), q.tokens, minScore) == [];
    assert AllHits(ranked, ById([e]), q.tokens, minScore) == [RecallHit(1, e, x.score)];
  }

  /** For instance the entry `a` and the query `a`, with the minimum score of 0. */
  lemma ZeroRecallsOneInstance(id: string, ts: string, corpus: Corpus, ln: real -> real, hits: seq<RecallHit>)
    requires corpus.chunks == EntryChunks([MemoryEntry(id, "a", [], None, ts)], s => [1.0]) && corpus.Valid()
    requires var e := MemoryEntry(id, "a", [], None, ts);
      Recalls(hits, [e], corpus, ln, [1.0], Query(["a"], [], false), 0, 0.0)
    ensures hits != []
  {
    hide Recalls, EntryChunks, Describes;
    var e := MemoryEntry(id, "a", [], None, ts);
    assert Searchable(e) == "a";
    assert "a"[1..] == "" && "" + [LowerChar('a')] == "a";
    assert TokensFrom("a", "") == ["a"];
    assert Tokens("a") == ["a"];
    assert Tokens(Searchable(e))[0] in ["a"];
    ZeroRecallsOne(e, s => [1.0], ln, [1.0], Query(["a"], [], false), 0.0, corpus, hits);
  }

  /** Numbered from 1, every hit scores high enough and shares a token with the query. */
  predicate AllQualify(hits: seq<RecallHit>, tokens: seq<string>, minScore: real) {
    forall i | 0 <= i < |hits| ::
      hits[i].rank == i + 1 && hits[i].score >= minScore && EntrySharesToken(tokens, hits[i].entry)
  }

  /** The entry ranked as `x` is among the hits. */
  predicate IsHit(hits: seq<RecallHit>, byId: map<string, MemoryEntry>, x: Scored)
    requires x.id in byId
  {
    exists i | 0 <= i < |hits| :: hits[i].entry == byId[x.id] && hits[i].score == x.score
  }

  predicate Qualifies(x: Scored, byId: map<string, MemoryEntry>, tokens: seq<string>, minScore: real) {
    x.score >= minScore && x.id in byId && EntrySharesToken(tokens, byId[x.id])
  }

  /** The hits are exactly the qualifying entries of the ranking: none that fails, every one that passes. */
  lemma {:induction false} HitsAreTheQualifying(ranked: seq<Scored>, byId: map<string, MemoryEntry>,
      tokens: seq<string>, minScore: real)
    ensures AllQualify(AllHits(ranked, byId, tokens, minScore), tokens, minScore)
    ensures forall x | x in ranked && Qualifies(x, byId, tokens, minScore) ::
      IsHit(AllHits(ranked, byId, tokens, minScore), byId, x)
  {
    hide EntrySharesToken;
    if ranked != [] {
      var init := ranked[..|ranked| - 1];
      var last := ranked[|ranked| - 1];
      HitsAreTheQualifying(init, byId, tokens, minScore);
      assert ranked == init + [last];
      var before, all := AllHits(init, byId, tokens, minScore), AllHits(ranked, byId, tokens, minScore);
      assert forall i | 0 <= i < |before| :: all[i] == before[i];
      forall x | x in ranked && Qualifies(x, byId, tokens, minScore)
        ensures IsHit(all, byId, x)
      {
        if x in init {
          var i :| 0 <= i < |before| && before[i].entry == byId[x.id] && before[i].score == x.score;
          assert all[i] == before[i];
        } else {
          assert all[|all| - 1].entry == byId[x.id];
        }
      }
    }
  }

  // ----- What an entry is ranked by -----

  /** Texts behind another, each behind a space. */
  function Appended(texts: seq<string>): string {
    if texts == [] then "" else " " + texts[0] + Appended(texts[1..])
  }

  lemma {:induction false} AppendedPush(texts: seq<string>, t: string)
    ensures Appended(texts + [t]) == Appended(texts) + " " + t
  {
    if texts == [] {
      assert [] + [t] == [t] && [t][1..] == [];
      assert Appended([]) == "";
    } else {
      AppendedPush(texts[1..], t);
      assert (texts + [t])[1..] == texts[1..] + [t];
    }
  }

  lemma {:induction false} WithTagsIs(text: string, tags: seq<string>)
    ensures WithTags(text, tags) == text + Appended(tags)
  {
    if tags != [] {
      var init, t := tags[..|tags| - 1], tags[|tags| - 1];
      WithTagsIs(text, init);
      AppendedPush(init, t);
      assert tags == init + [t];
    }
  }

  /** An entry is ranked by its text, its tags and its area, a space before each, under its own id. */
  lemma EntryIsRankedBy(e: MemoryEntry, embed: string -> seq<real>)
    ensures var c := EntryChunk(e, embed);
      && c.content == e.text + Appended(e.tags + if e.area.Some? then [e.area.value] else [])
      && c.embedding == embed(c.content) && c.id == e.id && c.file == e.id && c.kind == "decision"
  {
    WithTagsIs(e.text, e.tags);
    if e.area.Some? {
      AppendedPush(e.tags, e.area.value);
    } else {
      assert e.tags + [] == e.tags;
    }
  }

  /** How many hits a recall returns: all that qualify, but no more than `top_k`, or than one if that is 0. */
  lemma RecallReturnsAsMany(entries: seq<MemoryEntry>, corpus: Corpus, ln: real -> real, qvec: seq<real>, q: Query,
                            topK: nat, minScore: real, hits: seq<RecallHit>)
    requires corpus.Valid() && DistinctEntryIds(entries)
    requires Recalls(hits, entries, corpus, ln, qvec, q, topK, minScore)
    ensures var all := Qualifying(entries, corpus, ln, qvec, q, minScore);
      && hits <= all && (|hits| < |all| ==> |hits| == if topK == 0 then 1 else topK)
      && |hits| <= if topK == 0 then 1 else topK
  {
    hide Qualifying;
  }
}
