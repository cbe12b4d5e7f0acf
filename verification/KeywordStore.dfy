/**
 The BM25 index of src/keyword_store.rs over exact reals. The logarithm is a parameter of
 which only `ln 1 = 0` and monotonicity are used.
 */
module KeywordStore {
  import opened Chunks
  import opened RankOrder
  import opened Tokenizer

  const BM25_K1 := 1.2
  const BM25_B := 0.75

  ghost predicate IsLog(ln: real -> real) {
    ln(1.0) == 0.0 && forall x, y | 0.0 < x <= y :: ln(x) <= ln(y)
  }

  datatype Bm25Index = Bm25Index(tf: seq<map<string, nat>>, docLen: seq<nat>, df: map<string, nat>,
                                 avgdl: real, n: nat, ids: seq<string>)

  function Get(m: map<string, nat>, w: string): nat {
    if w in m then m[w] else 0
  }

  /** How often each token occurs. */
  function Frequencies(toks: seq<string>): (m: map<string, nat>)
    ensures forall w :: w in m <==> w in toks
    ensures forall w | w in m :: 0 < m[w] <= |toks|
  {
    if toks == [] then map[]
    else
      var w := toks[|toks| - 1];
      var m := Frequencies(toks[..|toks| - 1]);
      assert toks == toks[..|toks| - 1] + [w];
      m[w := Get(m, w) + 1]
  }

  /** In how many of the first `n` chunks a token occurs. */
  function DocCount(chunks: seq<Chunk>, w: string, n: nat): (c: nat)
    requires n <= |chunks|
    ensures c <= n
  {
    if n == 0 then 0
    else DocCount(chunks, w, n - 1) + if w in Tokens(chunks[n - 1].content) then 1 else 0
  }

  function TotalLength(chunks: seq<Chunk>, n: nat): nat
    requires n <= |chunks|
  {
    if n == 0 then 0 else TotalLength(chunks, n - 1) + |Tokens(chunks[n - 1].content)|
  }

  /** The index says of each chunk its token counts, of each token its chunks, and the mean length. */
  predicate Describes(ix: Bm25Index, chunks: seq<Chunk>) {
    && ix.n == |chunks| == |ix.tf| == |ix.docLen| == |ix.ids|
    && (forall d | 0 <= d < ix.n ::
          var toks := Tokens(chunks[d].content);
          ix.tf[d] == Frequencies(toks) && ix.docLen[d] == |toks| && ix.ids[d] == chunks[d].id)
    && (forall d | 0 <= d < ix.n :: forall w | w in ix.tf[d] :: w in ix.df)
    && (forall w | w in ix.df :: ix.df[w] == DocCount(chunks, w, ix.n) > 0)
    && ix.avgdl == if ix.n > 0 then TotalLength(chunks, ix.n) as real / ix.n as real else 0.0
  }

  lemma {:induction false} CountedTokenOccurs(chunks: seq<Chunk>, w: string, n: nat)
    requires n <= |chunks| && DocCount(chunks, w, n) > 0
    ensures exists d | 0 <= d < n :: w in Tokens(chunks[d].content)
  {
    hide Tokens;
    if w !in Tokens(chunks[n - 1].content) {
      CountedTokenOccurs(chunks, w, n - 1);
    }
  }

  /** Chunks have one index. */
  lemma IndexIsUnique(a: Bm25Index, b: Bm25Index, chunks: seq<Chunk>)
    requires Describes(a, chunks) && Describes(b, chunks)
    ensures a == b
  {
    assert a.tf == b.tf && a.docLen == b.docLen && a.ids == b.ids;
    CountsSame(a, b, chunks);
    CountsSame(b, a, chunks);
    assert a.df == b.df;
  }

  lemma CountsSame(a: Bm25Index, b: Bm25Index, chunks: seq<Chunk>)
    requires Describes(a, chunks) && Describes(b, chunks)
    ensures forall w | w in a.df :: w in b.df && a.df[w] == b.df[w]
  {
    hide Tokens;
    forall w | w in a.df
      ensures w in b.df
    {
      CountedTokenOccurs(chunks, w, a.n);
      var d :| 0 <= d < a.n && w in Tokens(chunks[d].content);
      assert w in b.tf[d];
    }
  }

  lemma FrequenciesStep(toks: seq<string>, i: nat)
    requires i < |toks|
    ensures Frequencies(toks[..i + 1]) == Frequencies(toks[..i])[toks[i] := Get(Frequencies(toks[..i]), toks[i]) + 1]
  {
    assert toks[..i + 1][..i] == toks[..i];
  }

  /** One more document for each of the terms, taken in whatever order the map yields them. */
  method CountTerms(df: map<string, nat>, terms: set<string>) returns (r: map<string, nat>)
    ensures r.Keys == df.Keys + terms
    ensures forall w :: Get(r, w) == Get(df, w) + if w in terms then 1 else 0
  {
    r := df;
    var left := terms;
    while left != {}
      invariant left <= terms && r.Keys == df.Keys + (terms - left)
      invariant forall w :: Get(r, w) == Get(df, w) + if w in terms && w !in left then 1 else 0
      decreases left
    {
      var w :| w in left;
      r := r[w := Get(r, w) + 1];
      left := left - {w};
    }
  }

  /** The token count loop of one document. */
  method CountTokens(toks: seq<string>) returns (freqs: map<string, nat>)
    ensures freqs == Frequencies(toks)
  {
    freqs := map[];
    assert toks[..0] == [];
    for i := 0 to |toks|
      invariant freqs == Frequencies(toks[..i])
    {
      FrequenciesStep(toks, i);
      freqs := freqs[toks[i] := Get(freqs, toks[i]) + 1];
    }
    assert toks[..|toks|] == toks;
  }

  /** The rows of the first `n` documents. */
  predicate Rows(tf: seq<map<string, nat>>, docLen: seq<nat>, ids: seq<string>, chunks: seq<Chunk>, n: nat)
    requires n <= |chunks|
  {
    && |tf| == |docLen| == |ids| == n
    && forall d | 0 <= d < n ::
         var toks := Tokens(chunks[d].content);
         tf[d] == Frequencies(toks) && docLen[d] == |toks| && ids[d] == chunks[d].id
  }

  /** The document counts of the first `n` documents. */
  ghost predicate Counts(df: map<string, nat>, chunks: seq<Chunk>, n: nat)
    requires n <= |chunks|
  {
    && (forall d | 0 <= d < n :: forall w | w in Tokens(chunks[d].content) :: w in df)
    && (forall w :: Get(df, w) == DocCount(chunks, w, n)) && (forall w | w in df :: df[w] > 0)
  }

  lemma CountsStep(df: map<string, nat>, r: map<string, nat>, chunks: seq<Chunk>, n: nat)
    requires n < |chunks| && Counts(df, chunks, n)
    requires var terms := Frequencies(Tokens(chunks[n].content)).Keys;
      r.Keys == df.Keys + terms && forall w :: Get(r, w) == Get(df, w) + if w in terms then 1 else 0
    ensures Counts(r, chunks, n + 1)
  {
    hide Tokens, Frequencies;
    forall w | w in r
      ensures r[w] > 0
    {
      assert Get(r, w) == r[w];
    }
  }

  method Build(chunks: seq<Chunk>) returns (ix: Bm25Index)
    ensures Describes(ix, chunks)
  {
    hide Tokens, Frequencies, Counts, DocCount;
    var tf: seq<map<string, nat>>, docLen: seq<nat>, ids: seq<string> := [], [], [];
    var df: map<string, nat> := map[];
    var total := 0;
    assert Counts(df, chunks, 0) by {
      NoCounts(chunks);
    }
    for d := 0 to |chunks|
      invariant Rows(tf, docLen, ids, chunks, d) && total == TotalLength(chunks, d)
      invariant Counts(df, chunks, d)
    {
      var toks := Tokenize(chunks[d].content);
      var freqs := CountTokens(toks);
      ghost var before := df;
      df := CountTerms(df, freqs.Keys);
      CountsStep(before, df, chunks, d);
      total := total + |toks|;
      docLen := docLen + [|toks|];
      tf := tf + [freqs];
      ids := ids + [chunks[d].id];
    }
    var n := |chunks|;
    ix := Bm25Index(tf, docLen, df, if n > 0 then total as real / n as real else 0.0, n, ids);
    CountsDescribe(ix, chunks);
  }

  lemma NoCounts(chunks: seq<Chunk>)
    ensures Counts(map[], chunks, 0)
  {
  }

  lemma CountsDescribe(ix: Bm25Index, chunks: seq<Chunk>)
    requires ix.n == |chunks| && Rows(ix.tf, ix.docLen, ix.ids, chunks, ix.n) && Counts(ix.df, chunks, ix.n)
    requires ix.avgdl == if ix.n > 0 then TotalLength(chunks, ix.n) as real / ix.n as real else 0.0
    ensures Describes(ix, chunks)
  {
    hide Tokens, DocCount, TotalLength;
    forall w | w in ix.df
      ensures ix.df[w] == DocCount(chunks, w, ix.n) > 0
    {
      assert Get(ix.df, w) == ix.df[w];
    }
  }

  function Idf(ix: Bm25Index, ln: real -> real, w: string): real {
    var nq := Get(ix.df, w) as real;
    ln(1.0 + (ix.n as real - nq + 0.5) / (nq + 0.5))
  }

  /** What one query term adds to a document's score. */
  function TermScore(ix: Bm25Index, ln: real -> real, doc: nat, w: string): real
    requires doc < |ix.tf| && doc < |ix.docLen|
    requires Get(ix.tf[doc], w) > 0 ==> ix.avgdl > 0.0
  {
    if Get(ix.df, w) == 0 || Get(ix.tf[doc], w) == 0 then 0.0
    else
      var f := Get(ix.tf[doc], w) as real;
      var norm := BM25_K1 * (1.0 - BM25_B + BM25_B * ix.docLen[doc] as real / ix.avgdl);
      assert norm >= 0.0 by { NormIsPositive(ix.docLen[doc] as real, ix.avgdl); }
      Idf(ix, ln, w) * (f * (BM25_K1 + 1.0)) / (f + norm)
  }

  lemma NormIsPositive(len: real, avgdl: real)
    requires len >= 0.0 && avgdl > 0.0
    ensures BM25_K1 * (1.0 - BM25_B + BM25_B * len / avgdl) >= 0.0
  {
    assert BM25_B * len / avgdl >= 0.0;
  }

  /** A document that has a token makes the mean length positive. */
  lemma {:induction false} TokenMakesLengthPositive(chunks: seq<Chunk>, d: nat, n: nat)
    requires d < n <= |chunks| && Tokens(chunks[d].content) != []
    ensures TotalLength(chunks, n) > 0
  {
    if d < n - 1 {
      TokenMakesLengthPositive(chunks, d, n - 1);
    }
  }

  lemma MeanLengthIsPositive(ix: Bm25Index, chunks: seq<Chunk>, doc: nat, w: string)
    requires Describes(ix, chunks) && doc < ix.n && Get(ix.tf[doc], w) > 0
    ensures ix.avgdl > 0.0 && w in Tokens(chunks[doc].content)
  {
    hide Tokens, DocCount;
    assert w in ix.tf[doc] && w in Tokens(chunks[doc].content);
    TokenMakesLengthPositive(chunks, doc, ix.n);
    QuotientIsPositive(TotalLength(chunks, ix.n), ix.n);
  }

  lemma QuotientIsPositive(a: nat, b: nat)
    requires a > 0 && b > 0
    ensures a as real / b as real > 0.0
  {
  }

  function ScoreDoc(ix: Bm25Index, ghost chunks: seq<Chunk>, ln: real -> real, doc: nat, terms: seq<string>): real
    requires Describes(ix, chunks) && doc < ix.n
  {
    if terms == [] then 0.0
    else
      var w := terms[|terms| - 1];
      assert Get(ix.tf[doc], w) > 0 ==> ix.avgdl > 0.0 by {
        if Get(ix.tf[doc], w) > 0 { MeanLengthIsPositive(ix, chunks, doc, w); }
      }
      ScoreDoc(ix, chunks, ln, doc, terms[..|terms| - 1]) + TermScore(ix, ln, doc, w)
  }

  method ScoreDocument(ix: Bm25Index, ghost chunks: seq<Chunk>, ln: real -> real, doc: nat, terms: seq<string>)
    returns (s: real)
    requires Describes(ix, chunks) && doc < ix.n
    ensures s == ScoreDoc(ix, chunks, ln, doc, terms)
  {
    hide Describes, Idf;
    s := 0.0;
    assert terms[..0] == [];
    for i := 0 to |terms|
      invariant s == ScoreDoc(ix, chunks, ln, doc, terms[..i])
    {
      var w := terms[i];
      assert terms[..i + 1][..i] == terms[..i];
      DescribedSizes(ix, chunks);
      if Get(ix.df, w) == 0 {
        continue;
      }
      if Get(ix.tf[doc], w) == 0 {
        continue;
      }
      MeanLengthIsPositive(ix, chunks, doc, w);
      s := s + TermScore(ix, ln, doc, w);
    }
    assert terms[..|terms|] == terms;
  }

  lemma DescribedSizes(ix: Bm25Index, chunks: seq<Chunk>)
    requires Describes(ix, chunks)
    ensures ix.n == |chunks| == |ix.tf| == |ix.docLen| == |ix.ids|
  {
  }

  /** The documents among the first `n` whose score does not round to zero, in index order. */
  function Hits(ix: Bm25Index, ghost chunks: seq<Chunk>, ln: real -> real, terms: seq<string>, n: nat): (r: seq<Scored>)
    requires Describes(ix, chunks) && n <= ix.n == |ix.ids|
    ensures forall i | 0 <= i < |r| ::
      && r[i].doc < n && r[i].id == ix.ids[r[i].doc]
      && r[i].score == ScoreDoc(ix, chunks, ln, r[i].doc, terms) && ScoreKey(r[i].score) > 0
    ensures forall i, j | 0 <= i < j < |r| :: r[i].doc < r[j].doc
  {
    hide ScoreDoc, ScoreKey, Describes;
    DescribedSizes(ix, chunks);
    if n == 0 then []
    else
      var s := ScoreDoc(ix, chunks, ln, n - 1, terms);
      var r := Hits(ix, chunks, ln, terms, n - 1);
      if ScoreKey(s) > 0 then r + [Scored(n - 1, s, ix.ids[n - 1])] else r
  }

  method Score(ix: Bm25Index, ghost chunks: seq<Chunk>, ln: real -> real, terms: seq<string>)
    returns (ranked: seq<Scored>)
    requires Describes(ix, chunks)
    ensures ranked == Sort(Hits(ix, chunks, ln, terms, ix.n))
  {
    hide Describes, ScoreKey;
    DescribedSizes(ix, chunks);
    var scored := [];
    for doc := 0 to ix.n
      invariant scored == Hits(ix, chunks, ln, terms, doc)
    {
      var s := ScoreDocument(ix, chunks, ln, doc, terms);
      if ScoreKey(s) > 0 {
        scored := scored + [Scored(doc, s, ix.ids[doc])];
      }
    }
    ranked := Sort(scored);
  }

  // ----- What a score means -----

  lemma ProductOverPositive(a: real, b: real, c: real)
    requires a >= 0.0 && b >= 0.0 && c > 0.0
    ensures a * b / c >= 0.0
  {
    assert a * b >= 0.0;
  }

  lemma IdfIsNonNegative(ix: Bm25Index, chunks: seq<Chunk>, ln: real -> real, w: string)
    requires IsLog(ln) && Describes(ix, chunks)
    ensures Idf(ix, ln, w) >= 0.0
  {
    hide Tokens, DocCount;
    var nq := Get(ix.df, w);
    assert nq <= ix.n;
    ProductOverPositive(1.0, ix.n as real - nq as real + 0.5, nq as real + 0.5);
    var x := 1.0 + (ix.n as real - nq as real + 0.5) / (nq as real + 0.5);
    assert x >= 1.0;
    assert ln(1.0) <= ln(x);
  }

  lemma TermScoreIsNonNegative(ix: Bm25Index, chunks: seq<Chunk>, ln: real -> real, doc: nat, w: string)
    requires IsLog(ln) && Describes(ix, chunks) && doc < ix.n
    requires Get(ix.tf[doc], w) > 0 ==> ix.avgdl > 0.0
    ensures TermScore(ix, ln, doc, w) >= 0.0
  {
    hide Describes, Idf, IsLog;
    DescribedSizes(ix, chunks);
    IdfIsNonNegative(ix, chunks, ln, w);
    var f := Get(ix.tf[doc], w) as real;
    if Get(ix.df, w) != 0 && Get(ix.tf[doc], w) != 0 {
      var norm := BM25_K1 * (1.0 - BM25_B + BM25_B * ix.docLen[doc] as real / ix.avgdl);
      NormIsPositive(ix.docLen[doc] as real, ix.avgdl);
      ProductOverPositive(Idf(ix, ln, w), f * (BM25_K1 + 1.0), f + norm);
    }
  }

  /** Scores are never negative, and a document none of whose tokens is queried scores nothing. */
  lemma {:induction false} ScoreMeaning(ix: Bm25Index, chunks: seq<Chunk>, ln: real -> real, doc: nat,
      terms: seq<string>)
    requires IsLog(ln) && Describes(ix, chunks) && doc < ix.n
    ensures ScoreDoc(ix, chunks, ln, doc, terms) >= 0.0
    ensures ScoreDoc(ix, chunks, ln, doc, terms) != 0.0 ==> exists w | w in terms :: w in Tokens(chunks[doc].content)
  {
    hide Describes, Tokens, TermScore, IsLog;
    if terms != [] {
      var w := terms[|terms| - 1];
      var init := terms[..|terms| - 1];
      DescribedSizes(ix, chunks);
      ScoreMeaning(ix, chunks, ln, doc, init);
      if Get(ix.tf[doc], w) > 0 {
        MeanLengthIsPositive(ix, chunks, doc, w);
      } else {
        AbsentTermScoresNothing(ix, ln, doc, w);
      }
      TermScoreIsNonNegative(ix, chunks, ln, doc, w);
      assert forall v | v in init :: v in terms;
    }
  }

  lemma AbsentTermScoresNothing(ix: Bm25Index, ln: real -> real, doc: nat, w: string)
    requires doc < |ix.tf| && doc < |ix.docLen| && Get(ix.tf[doc], w) == 0
    ensures TermScore(ix, ln, doc, w) == 0.0
  {
  }

  /** Every document the index returns contains a query token. */
  lemma HitContainsToken(ix: Bm25Index, chunks: seq<Chunk>, ln: real -> real, terms: seq<string>, hit: Scored)
    requires IsLog(ln) && Describes(ix, chunks) && hit in Hits(ix, chunks, ln, terms, ix.n)
    ensures hit.doc < |chunks| && hit.id == chunks[hit.doc].id
    ensures exists w | w in terms :: w in Tokens(chunks[hit.doc].content)
  {
    hide Tokens, DocCount;
    ScoreMeaning(ix, chunks, ln, hit.doc, terms);
    assert ScoreKey(0.0) == 0;
  }
}
