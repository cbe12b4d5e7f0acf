/** The two entry points: single-store search and federated search over a union corpus. */
module Search {
  import opened Chunks
  import opened RankOrder
  import opened KeywordStore
  import opened DiversityCap
  import opened RankCore
  import opened RankTheorems
  import opened ImportGraph
  import Expansion
  import Federation

  /** The kept candidates as results. */
  function ResultsOf(chunks: seq<Chunk>, kept: seq<Scored>): (r: seq<Expansion.SearchResult>)
    requires forall i | 0 <= i < |kept| :: kept[i].doc < |chunks|
    ensures |r| == |kept|
    ensures forall i | 0 <= i < |r| :: r[i] == Expansion.SearchResult(chunks[kept[i].doc], kept[i].score)
  {
    seq(|kept|, i requires 0 <= i < |kept| => Expansion.SearchResult(chunks[kept[i].doc], kept[i].score))
  }

  /** Core results: a ranking of the corpus, at most `top_k` long and at most three per file. */
  ghost predicate CoreResults(core: seq<Expansion.SearchResult>, corpus: Corpus, topK: nat) {
    && |core| <= topK && (forall f :: Expansion.InFile(core, f) <= MAX_CHUNKS_PER_FILE)
    && (forall i | 0 <= i < |core| :: core[i].chunk in corpus.chunks)
    && forall i, j | 0 <= i < j < |core| :: ScoreKey(core[j].score) <= ScoreKey(core[i].score)
  }

  lemma CapGivesCoreResults(corpus: Corpus, ranked: seq<Scored>, topK: nat)
    requires Ranked(ranked) && forall i | 0 <= i < |ranked| :: ranked[i].doc < |corpus.chunks|
    ensures var kept := Cap(FilesOf(corpus.chunks), ranked, topK);
      && (forall i | 0 <= i < |kept| :: kept[i].doc < |corpus.chunks|)
      && CoreResults(ResultsOf(corpus.chunks, kept), corpus, topK)
  {
    hide DiversityCap.InFile, Kept, ScoreKey, Before;
    var files := FilesOf(corpus.chunks);
    var positions := Kept(files, ranked, topK, |ranked|);
    KeptIsAdmissible(files, ranked, topK, |ranked|);
    var kept := Cap(files, ranked, topK);
    var core := ResultsOf(corpus.chunks, kept);
    forall f
      ensures Expansion.InFile(core, f) == DiversityCap.InFile(files, kept, f)
    {
      SameCounts(corpus, kept, f);
    }
    forall i, j | 0 <= i < j < |core|
      ensures ScoreKey(core[j].score) <= ScoreKey(core[i].score)
    {
      EarlierScoresNoLess(ranked, positions[i], positions[j]);
    }
  }

  lemma SameCounts(corpus: Corpus, kept: seq<Scored>, f: string)
    requires forall i | 0 <= i < |kept| :: kept[i].doc < |corpus.chunks|
    ensures Expansion.InFile(ResultsOf(corpus.chunks, kept), f) == DiversityCap.InFile(FilesOf(corpus.chunks), kept, f)
  {
    assert Expansion.ResultFiles(ResultsOf(corpus.chunks, kept)) == Files(FilesOf(corpus.chunks), kept);
  }

  /** The results of `rank_core` when the hash maps yield the candidates in the given order. */
  ghost predicate CoreInOrder(core: seq<Expansion.SearchResult>, order: seq<nat>, s: Setting, topK: nat) {
    && InCorpus(s) && Enumerates(order, s)
    && (forall i | 0 <= i < |RankInOrder(s, order, topK)| :: RankInOrder(s, order, topK)[i].doc < |s.chunks|)
    && core == ResultsOf(s.chunks, RankInOrder(s, order, topK))
  }

  /** What `rank_core` may return: nothing without a token or a chunk, else the ranking for some order. */
  ghost predicate IsCore(core: seq<Expansion.SearchResult>, corpus: Corpus, ln: real -> real, qvec: seq<real>,
      q: Query, topK: nat)
    requires corpus.Valid()
  {
    if q.tokens == [] || corpus.chunks == [] then core == []
    else exists order :: CoreInOrder(core, order, SettingOf(corpus, ln, qvec, q, topK), topK)
  }

  /** With distinct chunk ids there is one core result list: the engine is deterministic. */
  lemma CoreIsDeterministic(a: seq<Expansion.SearchResult>, b: seq<Expansion.SearchResult>,
                            corpus: Corpus, ln: real -> real, qvec: seq<real>, q: Query, topK: nat)
    requires corpus.Valid() && DistinctChunkIds(corpus.chunks)
    requires IsCore(a, corpus, ln, qvec, q, topK) && IsCore(b, corpus, ln, qvec, q, topK)
    ensures a == b
  {
    hide Describes, RankInOrder, Enumerates, InCorpus;
    if q.tokens != [] && corpus.chunks != [] {
      var s := SettingOf(corpus, ln, qvec, q, topK);
      var x :| CoreInOrder(a, x, s, topK);
      var y :| CoreInOrder(b, y, s, topK);
      RankingForgetsOrder(s, x, y, topK);
    }
  }

  method Core(corpus: Corpus, ln: real -> real, qvec: seq<real>, q: Query, topK: nat)
    returns (core: seq<Expansion.SearchResult>)
    requires corpus.Valid()
    ensures IsCore(core, corpus, ln, qvec, q, topK)
    ensures CoreResults(core, corpus, topK)
  {
    hide Describes, CoreResults, RankInOrder, Enumerates, InCorpus;
    var kept, order := Rank(corpus, ln, qvec, q, topK);
    if q.tokens == [] || corpus.chunks == [] {
      EmptyIsCore(corpus, topK);
      return [];
    }
    ghost var s := SettingOf(corpus, ln, qvec, q, topK);
    RankedFromOrder(corpus, s, order, topK);
    core := ResultsOf(corpus.chunks, kept);
    assert CoreInOrder(core, order, s, topK);
  }

  lemma EmptyIsCore(corpus: Corpus, topK: nat)
    ensures CoreResults([], corpus, topK)
  {
    assert Expansion.ResultFiles([]) == [];
  }

  lemma RankedFromOrder(corpus: Corpus, s: Setting, order: seq<nat>, topK: nat)
    requires s.chunks == corpus.chunks && InCorpus(s) && Enumerates(order, s)
    ensures var kept := RankInOrder(s, order, topK);
      && (forall i | 0 <= i < |kept| :: kept[i].doc < |corpus.chunks|)
      && CoreResults(ResultsOf(corpus.chunks, kept), corpus, topK)
  {
    hide RrfOf, MaxRrf, FinalScore, Cosine, Sort, CoreResults, Cap, Enumerates;
    CandidatesInCorpus(order, s);
    var scored := ScoreAll(s, MaxRrf(s, order), order);
    SortRanks(scored);
    forall i | 0 <= i < |Sort(scored)|
      ensures Sort(scored)[i].doc < |corpus.chunks|
    {
      assert Sort(scored)[i] in multiset(scored);
    }
    CapGivesCoreResults(corpus, Sort(scored), topK);
  }

  /** The core results and the import-graph bonus behind them. */
  ghost function WithGraph(chunks: seq<Chunk>, g: Graph, qvec: seq<real>,
      core: seq<Expansion.SearchResult>): seq<Expansion.SearchResult> {
    Expansion.Expand(core, chunks, FilesOf(chunks), qvec, Expansion.BonusFilesOf(g, core))
  }

  /** Behind that the cross-member bonus, from the members of the core's top results. */
  ghost function WithMembers(chunks: seq<Chunk>, g: Graph, edges: seq<Federation.Dependency>, qvec: seq<real>,
                             core: seq<Expansion.SearchResult>): seq<Expansion.SearchResult> {
    var mid := WithGraph(chunks, g, qvec, core);
    Expansion.Expand(mid, chunks, Federation.MembersOf(chunks), qvec,
                     Federation.BonusMembersOf(edges, Federation.TopMembers(core, |core|), mid))
  }

  /** Single-store search: the core ranking, then the import-graph bonus behind it. */
  method Search(corpus: Corpus, g: Graph, ln: real -> real, qvec: seq<real>, q: Query, topK: nat, graphEnabled: bool)
    returns (results: seq<Expansion.SearchResult>, ghost core: seq<Expansion.SearchResult>)
    requires corpus.Valid()
    ensures IsCore(core, corpus, ln, qvec, q, topK) && CoreResults(core, corpus, topK)
    ensures results == if graphEnabled then WithGraph(corpus.chunks, g, qvec, core) else core
    ensures Expansion.OnlyAppends(core, results) && |results| <= |core| + (if graphEnabled then 4 else 0)
    ensures forall f :: Expansion.InFile(results, f) <= MAX_CHUNKS_PER_FILE
  {
    hide Describes, IsCore, Expansion.Expand, Expansion.InFile, Expansion.BonusFiles, Expansion.BonusFilesOf;
    var found := Core(corpus, ln, qvec, q, topK);
    core, results := found, found;
    if graphEnabled {
      results := Expansion.ExpandGraph(g, corpus.chunks, qvec, found);
      ghost var files := Expansion.BonusFilesOf(g, found);
      Expansion.BonusFilesMeaning(g, found);
      Expansion.ExpandOnlyAppendsBonuses(found, corpus.chunks, FilesOf(corpus.chunks), qvec, files);
      forall f
        ensures Expansion.InFile(results, f) <= MAX_CHUNKS_PER_FILE
      {
        Expansion.GraphExpansionKeepsCap(g, corpus.chunks, qvec, found, files, 3, f);
      }
      Expansion.GraphExpansionKeepsCap(g, corpus.chunks, qvec, found, files, 3, "");
    }
  }

  /** Federated search: the same over a union corpus, with the cross-member bonus behind that. */
  method FederatedSearch(corpus: Corpus, g: Graph, edges: seq<Federation.Dependency>, ln: real -> real, qvec: seq<real>,
                         q: Query, topK: nat, graphEnabled: bool)
    returns (results: seq<Expansion.SearchResult>, ghost core: seq<Expansion.SearchResult>)
    requires corpus.Valid()
    ensures IsCore(core, corpus, ln, qvec, q, topK) && CoreResults(core, corpus, topK)
    ensures results == if core != [] && graphEnabled then WithMembers(corpus.chunks, g, edges, qvec, core) else core
    ensures Expansion.OnlyAppends(core, results) && |results| <= |core| + (if graphEnabled then 8 else 0)
    ensures forall f :: Expansion.InFile(results, f) <= MAX_CHUNKS_PER_FILE
  {
    hide Describes, IsCore, Expansion.Expand, Expansion.InFile, Expansion.BonusFiles, Federation.BonusMembers,
      Expansion.BonusFilesOf, Federation.BonusMembersOf;
    var found := Core(corpus, ln, qvec, q, topK);
    core, results := found, found;
    if found == [] || !graphEnabled {
      return;
    }
    var sources := Federation.TopMembers(found, |found|);
    var mid := Expansion.ExpandGraph(g, corpus.chunks, qvec, found);
    results := Federation.CrossMemberExpand(corpus.chunks, edges, qvec, sources, mid);
    Expansion.BonusFilesMeaning(g, found);
    Federation.BonusMembersMeaning(edges, sources, mid);
    Federation.FederatedExpansions(g, corpus.chunks, edges, qvec, found, Expansion.BonusFilesOf(g, found), sources,
                                   Federation.BonusMembersOf(edges, sources, mid));
  }

  // ----- Where the bonuses come from -----

  /**
   Behind the core results stand chunks of files that import, or are imported by, the file of
   one of the first three, and that no core result is in.
   */
  lemma GraphBonusesAreNeighbors(chunks: seq<Chunk>, g: Graph, qvec: seq<real>, core: seq<Expansion.SearchResult>,
                                 n: nat)
    requires Mirrored(g)
    requires var all := WithGraph(chunks, g, qvec, core); |core| <= n < |all|
    ensures var x := WithGraph(chunks, g, qvec, core)[n];
      && x.chunk in chunks
      && (forall i | 0 <= i < |core| :: core[i].chunk.file != x.chunk.file)
      && exists i | 0 <= i < |core| && i < 3 ::
           HasEdge(g, core[i].chunk.file, x.chunk.file) || HasEdge(g, x.chunk.file, core[i].chunk.file)
  {
    hide Expansion.Expand, Expansion.BonusFilesOf, Cosine, Mirrored, HasEdge;
    var files := Expansion.BonusFilesOf(g, core);
    Expansion.BonusFilesMeaning(g, core);
    Expansion.ExpandOnlyAppendsBonuses(core, chunks, FilesOf(chunks), qvec, files);
    var x := WithGraph(chunks, g, qvec, core)[n];
    var d :| 0 <= d < |chunks| && FilesOf(chunks)[d] in files
      && x == Expansion.Bonus(chunks[d], Cosine(qvec, chunks[d].embedding));
    var k :| 0 <= k < |files| && files[k] == chunks[d].file;
    var f :| f in Expansion.TopFiles(core, |core|) && files[k] in Around(g, f);
    NeighborsAreMutual(g, f, files[k]);
    forall i | 0 <= i < |core|
      ensures core[i].chunk.file != x.chunk.file
    {
      assert Expansion.ResultFiles(core)[i] == core[i].chunk.file;
    }
  }

  /**
   Behind those stand chunks of members on which the member of one of the first three core
   results depends, and that no result before is in.
   */
  lemma MemberBonusesAreDependencies(chunks: seq<Chunk>, g: Graph, edges: seq<Federation.Dependency>, qvec: seq<real>,
                                     core: seq<Expansion.SearchResult>, n: nat)
    requires var mid, all := WithGraph(chunks, g, qvec, core), WithMembers(chunks, g, edges, qvec, core);
      |mid| <= n < |all|
    ensures var mid, x := WithGraph(chunks, g, qvec, core), WithMembers(chunks, g, edges, qvec, core)[n];
      var member := Federation.MemberOf(x.chunk.file);
      && x.chunk in chunks
      && (forall i | 0 <= i < |mid| :: Federation.MemberOf(mid[i].chunk.file) != member)
      && exists i | 0 <= i < |core| && i < 3 ::
           Federation.Dependency(Federation.MemberOf(core[i].chunk.file), member) in edges
  {
    hide Expansion.Expand, Cosine, Federation.TargetsFrom, WithGraph, Federation.BonusMembersOf;
    var mid := WithGraph(chunks, g, qvec, core);
    var sources := Federation.TopMembers(core, |core|);
    var targets := Federation.BonusMembersOf(edges, sources, mid);
    Federation.BonusMembersMeaning(edges, sources, mid);
    Expansion.ExpandOnlyAppendsBonuses(mid, chunks, Federation.MembersOf(chunks), qvec, targets);
    var x := WithMembers(chunks, g, edges, qvec, core)[n];
    var d :| 0 <= d < |chunks| && Federation.MembersOf(chunks)[d] in targets
      && x == Expansion.Bonus(chunks[d], Cosine(qvec, chunks[d].embedding));
    var k :| 0 <= k < |targets| && targets[k] == Federation.MemberOf(chunks[d].file);
    var f :| f in sources && targets[k] in Federation.TargetsFrom(edges, f);
    Federation.TargetsFromIs(edges, f, targets[k]);
  }
}
