/**
 Two members of a workspace with a file of the same path whose chunks agree in the hashed
 part of their text, and so share a chunk id: the two chunks tie, and which of them is the
 result depends on the order the hash maps are walked in.
 */
module RankExample {
  import opened AsciiText
  import opened Chunks
  import opened DiversityCap
  import opened Expansion
  import Federation
  import ImportGraph
  import opened KeywordStore
  import opened RankCore
  import opened RankOrder
  import opened RankTheorems
  import opened Search
  import opened Tokenizer

  /** The number of bytes of a chunk's text that its id is a hash of. */
  const HASHED := 100

  function Letters(n: nat): (r: string)
    ensures |r| == n && forall i | 0 <= i < n :: r[i] == 'a'
  {
    seq(n, i => 'a')
  }

  function First(id: string): Chunk {
    Chunk(id, "m/x.rs", 1, 1, "function", Letters(HASHED) + "a", [0.6, 0.8])
  }

  function Second(id: string): Chunk {
    Chunk(id, "n/x.rs", 1, 1, "function", Letters(HASHED) + "b", [3910.0 / 152906.0, 152856.0 / 152906.0])
  }

  /** The two chunks are the union of two members that each hold `x.rs`. */
  lemma UnionOfMembers(id: string)
    ensures var m := Federation.Member("m", [First(id).(file := "x.rs")], ImportGraph.EMPTY);
      var n := Federation.Member("n", [Second(id).(file := "x.rs")], ImportGraph.EMPTY);
      Federation.UnionChunks([m, n]) == [First(id), Second(id)]
  {
    var m := Federation.Member("m", [First(id).(file := "x.rs")], ImportGraph.EMPTY);
    var n := Federation.Member("n", [Second(id).(file := "x.rs")], ImportGraph.EMPTY);
    assert Federation.Namespaced("m", "x.rs") == "m/x.rs" && Federation.Namespaced("n", "x.rs") == "n/x.rs";
    assert [m, n][..1] == [m] && [m][..0] == [];
    assert Federation.UnionChunks([]) == [];
    assert Federation.UnionChunks([m]) == [First(id)];
  }

  const QUERY := Query(["n", "x", "rs"], ["n/x.rs"], true)

  const VECTOR := [1.0, 0.0]

  /** The tokens are those of the text `n/x.rs`; one term with a file extension, so a hint and a code lookup. */
  lemma QueryOfText()
    ensures Tokens("n/x.rs") == QUERY.tokens
  {
    assert "n/x.rs"[1..] == "/x.rs" && "/x.rs"[1..] == "x.rs" && "x.rs"[1..] == ".rs";
    assert ".rs"[1..] == "rs" && "rs"[1..] == "s" && "s"[1..] == "";
    assert "r" + [LowerChar('s')] == "rs" && "" + [LowerChar('r')] == "r";
    assert "" + [LowerChar('x')] == "x" && "" + [LowerChar('n')] == "n";
    assert TokensFrom("rs", "") == ["rs"];
    assert TokensFrom("r", "s") == ["rs"];
    assert TokensFrom("", "rs") == ["rs"];
    assert TokensFrom("x", ".rs") == ["x", "rs"];
    assert TokensFrom("", "x.rs") == ["x", "rs"];
    assert TokensFrom("n", "/x.rs") == ["n", "x", "rs"];
  }

  lemma {:induction false} LacksChar(text: string, part: string, k: nat)
    requires k < |part| && part[k] !in text
    ensures !Contains(text, part)
  {
    assert !(part <= text);
    if text != "" {
      LacksChar(text[1..], part, k);
    }
  }

  lemma NamesAreLower(file: string)
    requires file == "m/x.rs" || file == "n/x.rs"
    ensures Lower(file) == file
  {
  }

  lemma NoPenalty(file: string)
    requires file == "m/x.rs" || file == "n/x.rs"
    ensures Lower(file) == file && !HasPenaltyMarker(file)
  {
    assert Lower(file) == file by { NamesAreLower(file); }
    hide Lower;
    LacksChar(file, "tests/", 1);
    LacksChar(file, "test_", 1);
    LacksChar(file, "docs/", 0);
    LacksChar(file, "spec", 2);
    LacksChar(file, "plan", 0);
  }

  lemma NoTokenInText(id: string, w: string)
    requires w in QUERY.tokens
    ensures !Contains(Lower(First(id).content), w) && !Contains(Lower(Second(id).content), w)
    ensures w !in Tokens(First(id).content) && w !in Tokens(Second(id).content)
  {
    hide Tokens, Contains;
    LacksChar(Lower(First(id).content), w, 0);
    LacksChar(Lower(Second(id).content), w, 0);
    if w in Tokens(First(id).content) {
      TokenIsSubstring(First(id).content, w);
    }
    if w in Tokens(Second(id).content) {
      TokenIsSubstring(Second(id).content, w);
    }
  }

  lemma Distances(id: string)
    ensures KeywordDistance(First(id), Unique(QUERY.tokens), QUERY.hints) == 2.0
    ensures KeywordDistance(Second(id), Unique(QUERY.tokens), QUERY.hints) == 0.0
  {
    hide Contains, Unique, First, Second, Letters;
    var terms := Unique(QUERY.tokens);
    forall i | 0 <= i < |terms|
      ensures !Contains(Lower(First(id).content), terms[i])
    {
      assert terms[i] in terms;
      NoTokenInText(id, terms[i]);
    }
    HintHits(id);
  }

  lemma HintHits(id: string)
    ensures !Contains(Lower(First(id).file), QUERY.hints[0]) && Contains(Lower(Second(id).file), QUERY.hints[0])
  {
    NoPenalty("m/x.rs");
    NoPenalty("n/x.rs");
    LacksChar("m/x.rs", "n/x.rs", 0);
  }

  lemma Cosines(id: string)
    ensures Cosine(VECTOR, First(id).embedding) == 0.6
    ensures Cosine(VECTOR, Second(id).embedding) == 3910.0 / 152906.0
  {
    var a, b := First(id).embedding, Second(id).embedding;
    assert CosineUpTo(VECTOR, a, 0) == 0.0 && CosineUpTo(VECTOR, b, 0) == 0.0;
    assert CosineUpTo(VECTOR, a, 1) == 0.6 && CosineUpTo(VECTOR, b, 1) == 3910.0 / 152906.0;
  }

  // ----- Candidates -----

  lemma {:induction false} NoTermNoScore(ix: Bm25Index, chunks: seq<Chunk>, ln: real -> real, doc: nat,
      terms: seq<string>)
    requires Describes(ix, chunks) && doc < ix.n && forall w | w in terms :: w !in Tokens(chunks[doc].content)
    ensures ScoreDoc(ix, chunks, ln, doc, terms) == 0.0
  {
    hide Tokens, TermScore;
    if terms != [] {
      var init, w := terms[..|terms| - 1], terms[|terms| - 1];
      assert terms == init + [w];
      NoTermNoScore(ix, chunks, ln, doc, init);
      assert Get(ix.tf[doc], w) == 0;
      AbsentTermScoresNothing(ix, ln, doc, w);
    }
  }

  lemma {:induction false} NoHits(ix: Bm25Index, chunks: seq<Chunk>, ln: real -> real, terms: seq<string>, n: nat)
    requires Describes(ix, chunks) && n <= ix.n
    requires forall d, w | 0 <= d < n && w in terms :: w !in Tokens(chunks[d].content)
    ensures Hits(ix, chunks, ln, terms, n) == []
  {
    hide Tokens, ScoreDoc, Describes, ScoreKey;
    DescribedSizes(ix, chunks);
    if n > 0 {
      NoHits(ix, chunks, ln, terms, n - 1);
      NoTermNoScore(ix, chunks, ln, n - 1, terms);
      ZeroKey();
    }
  }

  lemma KeywordCandidates(corpus: Corpus, ln: real -> real, id: string)
    requires corpus.Valid() && corpus.chunks == [First(id), Second(id)]
    ensures KeywordRanks(corpus, ln, Unique(QUERY.tokens), 1) == map[]
  {
    hide Tokens, Describes, First, Second, Unique;
    var terms := Unique(QUERY.tokens);
    DescribedSizes(corpus.bm25, corpus.chunks);
    forall d, w | 0 <= d < 2 && w in terms
      ensures w !in Tokens(corpus.chunks[d].content)
    {
      NoTokenInText(id, w);
    }
    NoHits(corpus.bm25, corpus.chunks, ln, terms, 2);
    assert KeywordRanking(corpus, ln, terms) == [];
  }

  lemma PairKeepsOrder(x: Scored, y: Scored)
    requires !Before(y, x)
    ensures Sort([x, y]) == [x, y]
  {
    hide Before;
    assert [x, y][1..] == [y] && [y][1..] == [];
    assert Sort([y]) == [y];
  }

  lemma VectorCandidateRanks(id: string)
    ensures VectorRanks(VECTOR, [First(id), Second(id)], 1) == map[0 := 0, 1 := 1]
  {
    hide Cosine, First, Second, Sort;
    var chunks := [First(id), Second(id)];
    Cosines(id);
    var x, y := Scored(0, 0.6, First(id).id), Scored(1, 3910.0 / 152906.0, Second(id).id);
    assert CosineScored(VECTOR, chunks) == [x, y];
    assert ScoreKey(0.6) > ScoreKey(3910.0 / 152906.0);
    PairKeepsOrder(x, y);
    assert RankByCosine(VECTOR, chunks) == [x, y];
    assert RankMap([x, y], 0) == map[] && RankMap([x, y], 1) == map[0 := 0];
  }

  // ----- The tie -----

  /** Both score 0.82 to six decimals: the first by its vector, the second by its path. */
  lemma BothScoreAlike(id: string)
    ensures var terms := Unique(QUERY.tokens);
      && ScoreKey(FinalScore(First(id), 0.6, terms, QUERY.hints, 1.0 / 60.0, 1.0 / 60.0)) == 820000
      && ScoreKey(FinalScore(Second(id), 3910.0 / 152906.0, terms, QUERY.hints, 1.0 / 61.0, 1.0 / 60.0)) == 820000
  {
    hide KeywordDistance, HasPenaltyMarker, Unique;
    Distances(id);
    NoPenalty("m/x.rs");
    NoPenalty("n/x.rs");
    assert ScoreKey(1.0 / 60.0) == 16667;
  }

  lemma TheSetting(corpus: Corpus, ln: real -> real, id: string)
    requires corpus.Valid() && corpus.chunks == [First(id), Second(id)]
    ensures var s := SettingOf(corpus, ln, VECTOR, QUERY, 1);
      && s.vrank == map[0 := 0, 1 := 1] && s.frank == map[] && s.chunks == [First(id), Second(id)]
      && s.qvec == VECTOR && s.terms == Unique(QUERY.tokens) && s.hints == QUERY.hints
  {
    hide First, Second, Unique;
    KeywordCandidates(corpus, ln, id);
    VectorCandidateRanks(id);
  }

  lemma TheTie(s: Setting, id: string)
    requires s.vrank == map[0 := 0, 1 := 1] && s.frank == map[] && s.chunks == [First(id), Second(id)]
    requires s.qvec == VECTOR && s.terms == Unique(QUERY.tokens) && s.hints == QUERY.hints
    ensures MaxRrf(s, [0, 1]) == MaxRrf(s, [1, 0]) == 1.0 / 60.0
    ensures Tied(ScoreOf(s, 1.0 / 60.0, 0), ScoreOf(s, 1.0 / 60.0, 1))
  {
    hide FinalScore, Cosine, Unique, ScoreKey;
    assert RrfOf(s, 0) == 1.0 / 60.0 && RrfOf(s, 1) == 1.0 / 61.0;
    assert [0, 1][..1] == [0] && [1, 0][..1] == [1] && [0][..0] == [] && [1][..0] == [];
    assert MaxRrf(s, []) == 0.0;
    assert MaxRrf(s, [0]) == 1.0 / 60.0 && MaxRrf(s, [1]) == 1.0 / 61.0;
    Cosines(id);
    BothScoreAlike(id);
  }

  lemma TopOfTwo(files: seq<string>, x: Scored, y: Scored)
    ensures Cap(files, [x, y], 1) == [x]
  {
    hide DiversityCap.InFile;
    EmptyFiles(files);
    assert At([x, y], []) == [];
    assert Kept(files, [x, y], 1, 1) == [0];
    assert Kept(files, [x, y], 1, 2) == [0];
  }

  lemma TieAtTheTop(s: Setting, m: real)
    requires s.vrank == map[0 := 0, 1 := 1] && s.frank == map[] && |s.chunks| == 2
    requires MaxRrf(s, [0, 1]) == MaxRrf(s, [1, 0]) == m && Tied(ScoreOf(s, m, 0), ScoreOf(s, m, 1))
    ensures InCorpus(s) && Enumerates([0, 1], s) && Enumerates([1, 0], s)
    ensures RankInOrder(s, [0, 1], 1) == [ScoreOf(s, m, 0)] && RankInOrder(s, [1, 0], 1) == [ScoreOf(s, m, 1)]
  {
    hide FinalScore, MaxRrf, Sort, Cap, Before;
    var x, y := ScoreOf(s, m, 0), ScoreOf(s, m, 1);
    assert [0, 1][..2] == [0, 1] && [1, 0][..2] == [1, 0] && [0, 1][2..] == [1, 0][2..] == [];
    assert ScoreAll(s, m, [0, 1]) == [x, y] && ScoreAll(s, m, [1, 0]) == [y, x];
    BeforeIsStrict(x, y);
    PairKeepsOrder(x, y);
    PairKeepsOrder(y, x);
    TopOfTwo(FilesOf(s.chunks), x, y);
    TopOfTwo(FilesOf(s.chunks), y, x);
  }

  /**
   On every index of these two chunks, one query has two results for `top_k` of 1, a chunk of
   either member: both are what `rank_core` may return.
   */
  lemma SharedIdExposesOrder(corpus: Corpus, ln: real -> real, id: string)
    requires corpus.Valid() && corpus.chunks == [First(id), Second(id)]
    ensures First(id).content[..HASHED] == Second(id).content[..HASHED]
    ensures First(id).file != Second(id).file
    ensures exists a, b ::
      && IsCore([a], corpus, ln, VECTOR, QUERY, 1) && a.chunk == First(id)
      && IsCore([b], corpus, ln, VECTOR, QUERY, 1) && b.chunk == Second(id)
  {
    hide SettingOf, FinalScore, MaxRrf, RankInOrder, Enumerates, InCorpus, Unique, First, Second;
    var s := SettingOf(corpus, ln, VECTOR, QUERY, 1);
    TheSetting(corpus, ln, id);
    TheTie(s, id);
    TieAtTheTop(s, 1.0 / 60.0);
    var x, y := ScoreOf(s, 1.0 / 60.0, 0), ScoreOf(s, 1.0 / 60.0, 1);
    var a, b := SearchResult(First(id), x.score), SearchResult(Second(id), y.score);
    assert ResultsOf(s.chunks, [x]) == [a] && ResultsOf(s.chunks, [y]) == [b];
    assert CoreInOrder([a], [0, 1], s, 1) && CoreInOrder([b], [1, 0], s, 1);
    SharedHead(id);
  }

  lemma SharedHead(id: string)
    ensures First(id).content[..HASHED] == Second(id).content[..HASHED] && First(id).file != Second(id).file
  {
    assert First(id).content[..HASHED] == Letters(HASHED) == Second(id).content[..HASHED];
  }
}
