/**
 The shared tokenizer of src/tokenizer.rs: maximal runs of ASCII word characters, lowercased.
 The source walks UTF-8 bytes; every byte of a character beyond ASCII is a separator, so
 walking characters yields the same tokens.
 */
module Tokenizer {
  import opened AsciiText

  predicate IsWordByte(c: char) {
    'a' <= c <= 'z' || 'A' <= c <= 'Z' || '0' <= c <= '9' || c == '_'
  }

  /** The tokens of `cur + s`, `cur` being a token under way. */
  function TokensFrom(cur: string, s: string): seq<string>
    decreases |s|
  {
    if s == "" then (if cur == "" then [] else [cur])
    else if IsWordByte(s[0]) then TokensFrom(cur + [LowerChar(s[0])], s[1..])
    else (if cur == "" then [] else [cur]) + TokensFrom("", s[1..])
  }

  function Tokens(text: string): seq<string> {
    TokensFrom("", text)
  }

  method Tokenize(text: string) returns (out: seq<string>)
    ensures out == Tokens(text)
  {
    out := [];
    var cur := "";
    for i := 0 to |text|
      invariant out + TokensFrom(cur, text[i..]) == Tokens(text)
    {
      var b := text[i];
      assert text[i..][1..] == text[i + 1..];
      if IsWordByte(b) {
        cur := cur + [LowerChar(b)];
      } else if cur != "" {
        out := out + [cur];
        cur := "";
      }
    }
    if cur != "" {
      out := out + [cur];
    }
  }

  /** `text[i..j]` is a maximal run of word characters. */
  predicate MaximalRun(text: string, i: nat, j: nat) {
    && i < j <= |text| && (forall k | i <= k < j :: IsWordByte(text[k]))
    && (i > 0 ==> !IsWordByte(text[i - 1])) && (j < |text| ==> !IsWordByte(text[j]))
  }

  /** A token under way: the run of word characters that ends at position `at`. */
  predicate UnderWay(text: string, at: nat, cur: string) {
    && |cur| <= at <= |text| && cur == Lower(text[at - |cur|..at])
    && (forall k | at - |cur| <= k < at :: IsWordByte(text[k]))
    && (|cur| < at ==> !IsWordByte(text[at - |cur| - 1]))
  }

  lemma {:induction false} TokenIsRun(text: string, at: nat, cur: string, w: string) returns (i: nat, j: nat)
    requires UnderWay(text, at, cur) && w in TokensFrom(cur, text[at..])
    ensures MaximalRun(text, i, j) && w == Lower(text[i..j])
    decreases |text| - at
  {
    hide Lower, MaximalRun;
    if at == |text| {
      assert text[at..] == "";
      StretchUnderWay(text, at, cur);
      i, j := at - |cur|, at;
    } else if IsWordByte(text[at]) {
      assert text[at..][1..] == text[at + 1..];
      NextCharUnderWay(text, at, cur);
      i, j := TokenIsRun(text, at + 1, cur + [LowerChar(text[at])], w);
    } else {
      assert text[at..][1..] == text[at + 1..];
      if cur != "" && w == cur {
        StretchUnderWay(text, at, cur);
        i, j := at - |cur|, at;
      } else {
        i, j := TokenIsRun(text, at + 1, "", w);
      }
    }
  }

  /** A maximal run that starts inside a stretch of word characters with both edges is that stretch. */
  lemma RunIsStretch(text: string, from: nat, to: nat, i: nat, j: nat)
    requires MaximalRun(text, from, to) && MaximalRun(text, i, j) && from <= i < to
    ensures i == from && j == to
  {
    assert !(from < i) && !(to < j) && !(j < to);
  }

  lemma {:induction false} RunIsToken(text: string, at: nat, cur: string, i: nat, j: nat)
    requires UnderWay(text, at, cur) && MaximalRun(text, i, j) && at - |cur| <= i
    ensures Lower(text[i..j]) in TokensFrom(cur, text[at..])
    decreases |text| - at
  {
    hide Lower, MaximalRun;
    if at == |text| {
      assert i < at by { RunIsNonEmpty(text, i, j); }
      StretchUnderWay(text, at, cur);
      RunIsStretch(text, at - |cur|, at, i, j);
    } else {
      assert text[at..][1..] == text[at + 1..];
      if IsWordByte(text[at]) {
        NextCharUnderWay(text, at, cur);
        RunIsToken(text, at + 1, cur + [LowerChar(text[at])], i, j);
      } else if i < at {
        StretchUnderWay(text, at, cur);
        RunIsStretch(text, at - |cur|, at, i, j);
      } else {
        assert i != at by { RunIsNonEmpty(text, i, j); }
        RunIsToken(text, at + 1, "", i, j);
      }
    }
  }

  lemma StretchUnderWay(text: string, at: nat, cur: string)
    requires UnderWay(text, at, cur) && cur != "" && (at < |text| ==> !IsWordByte(text[at]))
    ensures MaximalRun(text, at - |cur|, at)
  {
    hide Lower;
  }

  lemma RunIsNonEmpty(text: string, i: nat, j: nat)
    requires MaximalRun(text, i, j)
    ensures i < j <= |text| && IsWordByte(text[i])
  {
  }

  lemma NextCharUnderWay(text: string, at: nat, cur: string)
    requires UnderWay(text, at, cur) && at < |text| && IsWordByte(text[at])
    ensures UnderWay(text, at + 1, cur + [LowerChar(text[at])])
  {
    LowerAppend(text[at - |cur|..at], text[at]);
    assert text[at - |cur|..at + 1] == text[at - |cur|..at] + [text[at]];
  }

  /** The tokens are exactly the maximal word runs, lowercased. */
  lemma TokensAreMaximalRuns(text: string, w: string)
    ensures w in Tokens(text) <==> exists i: nat, j: nat :: MaximalRun(text, i, j) && w == Lower(text[i..j])
  {
    assert text[0..] == text;
    if w in Tokens(text) {
      var i, j := TokenIsRun(text, 0, "", w);
    }
    if i: nat, j: nat :| MaximalRun(text, i, j) && w == Lower(text[i..j]) {
      RunIsToken(text, 0, "", i, j);
    }
  }

  /** A token hit is a substring hit in the lowercased text. */
  lemma TokenIsSubstring(text: string, w: string)
    requires w in Tokens(text)
    ensures w != "" && Contains(Lower(text), w)
  {
    assert text[0..] == text;
    var i, j := TokenIsRun(text, 0, "", w);
    assert Lower(text)[i..i + |w|] == w;
    ContainsAt(Lower(text), w, i);
  }

  /** The token estimate of a text: a quarter of its bytes, at least one. */
  function EstimateTokens(text: string): (n: nat)
    ensures |text| < 4 ==> n == 1
    ensures |text| >= 4 ==> 4 * n <= |text| < 4 * n + 4
  {
    if |text| / 4 < 1 then 1 else |text| / 4
  }

  /** Word characters are the ASCII letters and digits and the underscore. */
  lemma WordBytesAre(c: char)
    ensures IsWordByte(c) <==>
      || c in "abcdefghijklmnopqrstuvwxyz" || c in "ABCDEFGHIJKLMNOPQRSTUVWXYZ" || c in "0123456789" || c == '_'
  {
    SmallLetters(c);
    Capitals(c);
    Digits(c);
  }

  // ----- The list of tokens -----

  datatype Run = Run(from: nat, to: nat)

  /** Maximal runs in order, one behind the other, and the tokens they make. */
  ghost predicate InTokenOrder(text: string, runs: seq<Run>, toks: seq<string>) {
    && |runs| == |toks|
    && (forall k | 0 <= k < |runs| ::
          MaximalRun(text, runs[k].from, runs[k].to) && toks[k] == Lower(text[runs[k].from..runs[k].to]))
    && forall k, l | 0 <= k < l < |runs| :: runs[k].to <= runs[l].from
  }

  /** Every maximal run that starts before a position is listed. */
  ghost predicate AllBefore(text: string, runs: seq<Run>, at: int) {
    forall i: nat, j: nat | MaximalRun(text, i, j) && i < at :: Run(i, j) in runs
  }

  lemma ListMore(text: string, runs: seq<Run>, toks: seq<string>, from: nat, to: nat)
    requires InTokenOrder(text, runs, toks) && MaximalRun(text, from, to)
    requires AllBefore(text, runs, from) && forall k | 0 <= k < |runs| :: runs[k].to <= from
    ensures InTokenOrder(text, runs + [Run(from, to)], toks + [Lower(text[from..to])])
    ensures AllBefore(text, runs + [Run(from, to)], to)
  {
    hide Lower;
    var more := runs + [Run(from, to)];
    forall i: nat, j: nat | MaximalRun(text, i, j) && i < to
      ensures Run(i, j) in more
    {
      if i >= from {
        RunIsStretch(text, from, to, i, j);
        assert more[|runs|] == Run(i, j);
      } else {
        assert Run(i, j) in runs;
      }
    }
  }

  lemma NoRunAt(text: string, runs: seq<Run>, at: nat)
    requires at < |text| && !IsWordByte(text[at]) && AllBefore(text, runs, at)
    ensures AllBefore(text, runs, at + 1)
  {
    forall i: nat, j: nat | MaximalRun(text, i, j) && i < at + 1
      ensures Run(i, j) in runs
    {
      RunIsNonEmpty(text, i, j);
    }
  }

  lemma {:induction false} RunsContinue(text: string, at: nat, cur: string, runs: seq<Run>, toks: seq<string>)
    returns (all: seq<Run>)
    requires UnderWay(text, at, cur) && InTokenOrder(text, runs, toks) && AllBefore(text, runs, at - |cur|)
    requires forall k | 0 <= k < |runs| :: runs[k].to <= at - |cur|
    ensures InTokenOrder(text, all, toks + TokensFrom(cur, text[at..])) && AllBefore(text, all, |text|)
    decreases |text| - at
  {
    hide Lower, MaximalRun, InTokenOrder, AllBefore;
    var r, ts := runs, toks;
    if cur != "" && (at < |text| ==> !IsWordByte(text[at])) {
      StretchUnderWay(text, at, cur);
      ListMore(text, runs, toks, at - |cur|, at);
      r, ts := runs + [Run(at - |cur|, at)], toks + [cur];
    }
    if at == |text| {
      assert text[at..] == "";
      assert toks + TokensFrom(cur, "") == ts;
      all := r;
    } else {
      assert text[at..][1..] == text[at + 1..];
      if IsWordByte(text[at]) {
        NextCharUnderWay(text, at, cur);
        all := RunsContinue(text, at + 1, cur + [LowerChar(text[at])], runs, toks);
      } else {
        NoRunAt(text, r, at);
        all := RunsContinue(text, at + 1, "", r, ts);
        assert toks + TokensFrom(cur, text[at..]) == ts + TokensFrom("", text[at + 1..]);
      }
    }
  }

  /** The token list: the maximal runs of word characters, all of them, from left to right, lowercased. */
  lemma TokensListRuns(text: string) returns (runs: seq<Run>)
    ensures InTokenOrder(text, runs, Tokens(text))
    ensures forall i: nat, j: nat | MaximalRun(text, i, j) :: Run(i, j) in runs
  {
    hide MaximalRun;
    assert text[0..] == text;
    runs := RunsContinue(text, 0, "", [], []);
    assert [] + Tokens(text) == Tokens(text);
    forall i: nat, j: nat | MaximalRun(text, i, j)
      ensures Run(i, j) in runs
    {
      RunIsNonEmpty(text, i, j);
    }
  }
}
