/**
 What a BM25 score is, read off the chunks: a sum over the query terms, written out, which
 rarer terms, more occurrences and shorter texts raise.
 */
module KeywordScores {
  import opened Chunks
  import opened RankOrder
  import opened Tokenizer
  import opened KeywordStore

  // ----- Counting in the chunks -----

  /** How often a token occurs in a chunk. */
  function Occurrences(c: Chunk, w: string): nat {
    multiset(Tokens(c.content))[w]
  }

  /** The chunks in which a token occurs. */
  function Holders(chunks: seq<Chunk>, w: string): set<nat> {
    set d | 0 <= d < |chunks| && w in Tokens(chunks[d].content)
  }

  /** The tokens of all chunks, one behind the other. */
  function AllTokens(chunks: seq<Chunk>): seq<string> {
    if chunks == [] then [] else AllTokens(chunks[..|chunks| - 1]) + Tokens(chunks[|chunks| - 1].content)
  }

  lemma {:induction false} FrequenciesCount(toks: seq<string>, w: string)
    ensures Get(Frequencies(toks), w) == multiset(toks)[w]
  {
    if toks != [] {
      var init := toks[..|toks| - 1];
      FrequenciesCount(init, w);
      assert toks == init + [toks[|toks| - 1]];
    }
  }

  lemma {:induction false} DocCountCounts(chunks: seq<Chunk>, w: string, n: nat)
    requires n <= |chunks|
    ensures DocCount(chunks, w, n) == |set d | 0 <= d < n && w in Tokens(chunks[d].content)|
  {
    hide Tokens;
    if n > 0 {
      DocCountCounts(chunks, w, n - 1);
      var before := set d | 0 <= d < n - 1 && w in Tokens(chunks[d].content);
      var all := set d | 0 <= d < n && w in Tokens(chunks[d].content);
      if w in Tokens(chunks[n - 1].content) {
        assert all == before + {n - 1};
      } else {
        assert all == before;
      }
    }
  }

  lemma {:induction false} TotalLengthCounts(chunks: seq<Chunk>, n: nat)
    requires n <= |chunks|
    ensures TotalLength(chunks, n) == |AllTokens(chunks[..n])|
  {
    hide Tokens;
    if n > 0 {
      TotalLengthCounts(chunks, n - 1);
      assert chunks[..n][..n - 1] == chunks[..n - 1];
    }
  }

  // ----- The score -----

  /**
   What a term adds to a chunk's score: nothing where it does not occur, else
   ln(1 + (N - n + 0.5) / (n + 0.5)) * 2.2 f / (f + 1.2 (0.25 + 0.75 len / mean)).
   */
  ghost function TermWeight(ln: real -> real, total: nat, holding: nat, f: nat, len: nat, mean: real): real {
    var saturation := f as real + 1.2 * (0.25 + 0.75 * (if mean == 0.0 then 0.0 else len as real / mean));
    if f == 0 || saturation == 0.0 then 0.0
    else ln(1.0 + ((total - holding) as real + 0.5) / (holding as real + 0.5)) * (2.2 * f as real / saturation)
  }

  ghost function Mean(chunks: seq<Chunk>): real {
    if chunks == [] then 0.0 else |AllTokens(chunks)| as real / |chunks| as real
  }

  ghost function TermWeightIn(chunks: seq<Chunk>, ln: real -> real, doc: nat, w: string): real
    requires doc < |chunks|
  {
    TermWeight(ln, |chunks|, |Holders(chunks, w)|, Occurrences(chunks[doc], w), |Tokens(chunks[doc].content)|,
               Mean(chunks))
  }

  /** The score of a chunk: what its terms add. */
  ghost function Bm25(chunks: seq<Chunk>, ln: real -> real, doc: nat, terms: seq<string>): real
    requires doc < |chunks|
  {
    if terms == [] then 0.0
    else Bm25(chunks, ln, doc, terms[..|terms| - 1]) + TermWeightIn(chunks, ln, doc, terms[|terms| - 1])
  }

  lemma HoldingCounts(ix: Bm25Index, chunks: seq<Chunk>, w: string)
    requires Describes(ix, chunks)
    ensures Get(ix.df, w) == |Holders(chunks, w)| <= |chunks|
  {
    hide Tokens;
    DocCountCounts(chunks, w, |chunks|);
    if w !in ix.df {
      forall d | 0 <= d < |chunks|
        ensures w !in Tokens(chunks[d].content)
      {
        assert w !in ix.tf[d];
      }
      assert Holders(chunks, w) == {};
    }
  }

  lemma OccurrencesCount(ix: Bm25Index, chunks: seq<Chunk>, doc: nat, w: string)
    requires Describes(ix, chunks) && doc < ix.n
    ensures Get(ix.tf[doc], w) == Occurrences(chunks[doc], w) && ix.docLen[doc] == |Tokens(chunks[doc].content)|
    ensures Get(ix.tf[doc], w) > 0 ==> Get(ix.df, w) > 0
  {
    hide Tokens, DocCount;
    FrequenciesCount(Tokens(chunks[doc].content), w);
  }

  lemma MeanCounts(ix: Bm25Index, chunks: seq<Chunk>)
    requires Describes(ix, chunks)
    ensures ix.avgdl == Mean(chunks)
  {
    hide Tokens, DocCount;
    TotalLengthCounts(chunks, |chunks|);
    assert chunks[..|chunks|] == chunks;
  }

  lemma FormulaAgrees(idf: real, f: real, sat: real)
    requires sat > 0.0
    ensures idf * (f * (1.2 + 1.0)) / sat == idf * (2.2 * f / sat)
  {
    var q := f * 2.2 / sat;
    assert q * sat == f * 2.2;
    assert (idf * q) * sat == idf * (f * 2.2);
  }

  lemma NormAgrees(f: real, len: real, mean: real)
    requires f > 0.0 && len >= 0.0 && mean > 0.0
    ensures f + 1.2 * (1.0 - 0.75 + 0.75 * len / mean) == f + 1.2 * (0.25 + 0.75 * (len / mean)) > 0.0
  {
    ShareOfMean(len, mean);
    ShareIsNonNegative(len, mean);
  }

  /** The weight as the store associates it. */
  ghost function StoredWeight(ln: real -> real, total: nat, holding: nat, f: nat, len: nat, mean: real): real
    requires f > 0 && mean > 0.0
  {
    NormAgrees(f as real, len as real, mean);
    ln(1.0 + (total as real - holding as real + 0.5) / (holding as real + 0.5))
    * (f as real * (1.2 + 1.0)) / (f as real + 1.2 * (1.0 - 0.75 + 0.75 * len as real / mean))
  }

  lemma WeightIs(ln: real -> real, total: nat, holding: nat, f: nat, len: nat, mean: real)
    requires f > 0 && mean > 0.0 && holding <= total
    ensures TermWeight(ln, total, holding, f, len, mean) == StoredWeight(ln, total, holding, f, len, mean)
  {
    NormAgrees(f as real, len as real, mean);
    var sat := f as real + 1.2 * (0.25 + 0.75 * (len as real / mean));
    assert (total - holding) as real == total as real - holding as real;
    FormulaAgrees(ln(1.0 + ((total - holding) as real + 0.5) / (holding as real + 0.5)), f as real, sat);
  }

  lemma TermScoreUnfolds(ix: Bm25Index, ln: real -> real, doc: nat, w: string)
    requires doc < |ix.tf| && doc < |ix.docLen| && Get(ix.tf[doc], w) > 0 && Get(ix.df, w) > 0 && ix.avgdl > 0.0
    ensures TermScore(ix, ln, doc, w)
         == StoredWeight(ln, ix.n, Get(ix.df, w), Get(ix.tf[doc], w), ix.docLen[doc], ix.avgdl)
  {
    NormIsPositive(ix.docLen[doc] as real, ix.avgdl);
  }

  lemma TermScoreIsWeight(ix: Bm25Index, chunks: seq<Chunk>, ln: real -> real, doc: nat, w: string)
    requires Describes(ix, chunks) && doc < ix.n == |ix.tf| == |ix.docLen|
    requires Get(ix.tf[doc], w) > 0 ==> ix.avgdl > 0.0
    ensures doc < |chunks| && TermScore(ix, ln, doc, w) == TermWeightIn(chunks, ln, doc, w)
  {
    DescribedSizes(ix, chunks);
    hide Tokens, Describes, Holders, Occurrences, Mean, TermWeight, TermScore, StoredWeight, Get;
    HoldingCounts(ix, chunks, w);
    OccurrencesCount(ix, chunks, doc, w);
    MeanCounts(ix, chunks);
    if Get(ix.tf[doc], w) > 0 {
      WeightIs(ln, ix.n, Get(ix.df, w), Get(ix.tf[doc], w), ix.docLen[doc], ix.avgdl);
      TermScoreUnfolds(ix, ln, doc, w);
    } else {
      AbsentTermScoresNothing(ix, ln, doc, w);
      NoWeight(ln, ix.n, Get(ix.df, w), ix.docLen[doc], ix.avgdl);
    }
  }

  lemma NoWeight(ln: real -> real, total: nat, holding: nat, len: nat, mean: real)
    ensures TermWeight(ln, total, holding, 0, len, mean) == 0.0
  {
  }

  lemma ShareOfMean(len: real, mean: real)
    requires mean > 0.0
    ensures 0.75 * len / mean == 0.75 * (len / mean)
  {
    assert (len / mean) * mean == len;
  }

  /** The store's score is that sum, with everything counted in the chunks. */
  lemma {:induction false} ScoreIsBm25(ix: Bm25Index, chunks: seq<Chunk>, ln: real -> real, doc: nat,
      terms: seq<string>)
    requires Describes(ix, chunks) && doc < ix.n
    ensures doc < |chunks| && ScoreDoc(ix, chunks, ln, doc, terms) == Bm25(chunks, ln, doc, terms)
  {
    DescribedSizes(ix, chunks);
    hide Describes, Tokens, TermScore, TermWeightIn;
    if terms != [] {
      var w := terms[|terms| - 1];
      ScoreIsBm25(ix, chunks, ln, doc, terms[..|terms| - 1]);
      assert Get(ix.tf[doc], w) > 0 ==> ix.avgdl > 0.0 by {
        if Get(ix.tf[doc], w) > 0 {
          MeanLengthIsPositive(ix, chunks, doc, w);
        }
      }
      TermScoreIsWeight(ix, chunks, ln, doc, w);
    }
  }

  // ----- The documents returned -----

  /** A document is returned exactly when its score does not round to zero, with that score and its id. */
  lemma {:induction false} HitsAreExactly(ix: Bm25Index, chunks: seq<Chunk>, ln: real -> real, terms: seq<string>,
      n: nat)
    requires Describes(ix, chunks) && n <= ix.n == |ix.ids| == |chunks|
    ensures forall d | 0 <= d < n && ScoreKey(Bm25(chunks, ln, d, terms)) > 0 ::
      Scored(d, Bm25(chunks, ln, d, terms), chunks[d].id) in Hits(ix, chunks, ln, terms, n)
    ensures forall x | x in Hits(ix, chunks, ln, terms, n) ::
      x.doc < n && ScoreKey(x.score) > 0 && x == Scored(x.doc, Bm25(chunks, ln, x.doc, terms), chunks[x.doc].id)
  {
    hide Describes, ScoreKey, ScoreDoc, Bm25, Hits;
    HitsOfNone(ix, chunks, ln, terms);
    if n > 0 {
      HitsAreExactly(ix, chunks, ln, terms, n - 1);
      LastHit(ix, chunks, ln, terms, n - 1);
    }
  }

  lemma HitsOfNone(ix: Bm25Index, chunks: seq<Chunk>, ln: real -> real, terms: seq<string>)
    requires Describes(ix, chunks) && ix.n == |ix.ids|
    ensures Hits(ix, chunks, ln, terms, 0) == []
  {
  }

  lemma LastHit(ix: Bm25Index, chunks: seq<Chunk>, ln: real -> real, terms: seq<string>, d: nat)
    requires Describes(ix, chunks) && d < ix.n == |ix.ids| == |chunks|
    ensures Hits(ix, chunks, ln, terms, d + 1) == Hits(ix, chunks, ln, terms, d) +
      if ScoreKey(Bm25(chunks, ln, d, terms)) > 0 then [Scored(d, Bm25(chunks, ln, d, terms), chunks[d].id)] else []
  {
    hide Describes, ScoreKey, ScoreDoc, Bm25;
    ScoreIsBm25(ix, chunks, ln, d, terms);
    DescribedId(ix, chunks, d);
  }

  lemma DescribedId(ix: Bm25Index, chunks: seq<Chunk>, d: nat)
    requires Describes(ix, chunks) && d < ix.n == |ix.ids| == |chunks|
    ensures ix.ids[d] == chunks[d].id
  {
    hide Tokens, Frequencies;
  }

  // ----- What raises a score -----

  ghost predicate IsStrictLog(ln: real -> real) {
    ln(1.0) == 0.0 && forall x, y | 0.0 < x < y :: ln(x) < ln(y)
  }

  lemma Quotients(a: real, x: real, b: real, y: real)
    requires 0.0 <= a && 0.0 < x && 0.0 < b && 0.0 < y && a * y < b * x
    ensures a / x < b / y
  {
    var p, q := a / x, b / y;
    assert p * x == a && q * y == b;
    assert (q - p) * (x * y) == b * x - a * y;
    PositiveFactor(q - p, x * y);
  }

  lemma PositiveFactor(a: real, x: real)
    requires x > 0.0 && a * x > 0.0
    ensures a > 0.0
  {
  }

  lemma Product(a: real, b: real, c: real)
    requires a < b && c > 0.0
    ensures a * c < b * c && c * a < c * b
  {
  }

  /** The logarithm's argument, and so the weight of a term, falls with the number of chunks that hold it. */
  lemma RarerTermWeighsMore(ln: real -> real, total: nat, m: nat, n: nat, f: nat, len: nat, mean: real)
    requires IsStrictLog(ln) && m < n <= total && f > 0 && mean >= 0.0
    ensures TermWeight(ln, total, m, f, len, mean) > TermWeight(ln, total, n, f, len, mean) > 0.0
  {
    var x, y := (total - m) as real + 0.5, (total - n) as real + 0.5;
    var u, v := m as real + 0.5, n as real + 0.5;
    assert y * u < x * v by {
      Product(y, x, u);
      Product(u, v, x);
    }
    Quotients(y, v, x, u);
    Quotients(0.0, 1.0, y, v);
    assert 0.0 < ln(1.0 + y / v) < ln(1.0 + x / u);
    Saturates(f, len, mean);
    var s := 2.2 * f as real / (f as real + 1.2 * (0.25 + 0.75 * (if mean == 0.0 then 0.0 else len as real / mean)));
    Product(ln(1.0 + y / v), ln(1.0 + x / u), s);
    Product(0.0, ln(1.0 + y / v), s);
  }

  lemma Saturates(f: nat, len: nat, mean: real)
    requires f > 0 && mean >= 0.0
    ensures var sat := f as real + 1.2 * (0.25 + 0.75 * (if mean == 0.0 then 0.0 else len as real / mean));
      sat > f as real && 2.2 * f as real / sat > 0.0
  {
    if mean > 0.0 {
      ShareIsNonNegative(len as real, mean);
    }
    var sat := f as real + 1.2 * (0.25 + 0.75 * (if mean == 0.0 then 0.0 else len as real / mean));
    Quotients(0.0, 1.0, 2.2 * f as real, sat);
  }

  lemma ShareIsNonNegative(len: real, mean: real)
    requires len >= 0.0 && mean > 0.0
    ensures len / mean >= 0.0
  {
  }

  lemma LogIsPositive(ln: real -> real, total: nat, holding: nat)
    requires IsStrictLog(ln) && holding <= total
    ensures ln(1.0 + ((total - holding) as real + 0.5) / (holding as real + 0.5)) > 0.0
  {
    Quotients(0.0, 1.0, (total - holding) as real + 0.5, holding as real + 0.5);
  }

  /** More occurrences weigh more, other things equal. */
  lemma MoreOccurrencesWeighMore(ln: real -> real, total: nat, holding: nat, f: nat, g: nat, len: nat, mean: real)
    requires IsStrictLog(ln) && holding <= total && f < g && mean >= 0.0
    ensures TermWeight(ln, total, holding, f, len, mean) < TermWeight(ln, total, holding, g, len, mean)
  {
    LogIsPositive(ln, total, holding);
    var l := ln(1.0 + ((total - holding) as real + 0.5) / (holding as real + 0.5));
    var norm := 1.2 * (0.25 + 0.75 * (if mean == 0.0 then 0.0 else len as real / mean));
    Saturates(g, len, mean);
    if f == 0 {
      Product(0.0, l, 2.2 * g as real / (g as real + norm));
    } else {
      Saturates(f, len, mean);
      var a, b := f as real, g as real;
      assert 2.2 * a * (b + norm) < 2.2 * b * (a + norm) by {
        Product(a, b, norm);
      }
      Quotients(2.2 * a, a + norm, 2.2 * b, b + norm);
      Product(2.2 * a / (a + norm), 2.2 * b / (b + norm), l);
    }
  }

  /** A longer chunk weighs less, other things equal. */
  lemma LongerTextWeighsLess(ln: real -> real, total: nat, holding: nat, f: nat, len: nat, longer: nat, mean: real)
    requires IsStrictLog(ln) && holding <= total && f > 0 && len < longer && mean > 0.0
    ensures TermWeight(ln, total, holding, f, len, mean) > TermWeight(ln, total, holding, f, longer, mean)
  {
    LogIsPositive(ln, total, holding);
    var l := ln(1.0 + ((total - holding) as real + 0.5) / (holding as real + 0.5));
    Saturates(f, len, mean);
    Saturates(f, longer, mean);
    ShareGrows(len as real, longer as real, mean);
    var a := 2.2 * f as real;
    var x := f as real + 1.2 * (0.25 + 0.75 * (len as real / mean));
    var y := f as real + 1.2 * (0.25 + 0.75 * (longer as real / mean));
    Product(x, y, a);
    Quotients(a, y, a, x);
    Product(a / y, a / x, l);
  }

  lemma ShareGrows(len: real, longer: real, mean: real)
    requires len < longer && mean > 0.0
    ensures len / mean < longer / mean
  {
    var p, q := len / mean, longer / mean;
    assert p * mean == len && q * mean == longer;
    assert (q - p) * mean == longer - len;
    PositiveFactor(q - p, mean);
  }
}
