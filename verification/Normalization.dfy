/**
 The id pre-image of src/memory.rs: `normalize` keeps the words of a text and joins them with
 single spaces, so two texts share an id pre-image exactly when they have the same words.
 */
module Normalization {
  import opened AsciiText

  /** The maximal runs of characters that are not white space. */
  function Words(s: string): (r: seq<string>)
    ensures s != "" && !IsAsciiWhitespace(s[|s| - 1]) ==> r != []
  {
    if s == "" then []
    else
      var init := s[..|s| - 1];
      var c := s[|s| - 1];
      var ws := Words(init);
      if IsAsciiWhitespace(c) then ws
      else if init == "" || IsAsciiWhitespace(init[|init| - 1]) then ws + [[c]]
      else ws[..|ws| - 1] + [ws[|ws| - 1] + [c]]
  }

  function Spaced(ws: seq<string>): string {
    if ws == [] then "" else if |ws| == 1 then ws[0] else Spaced(ws[..|ws| - 1]) + " " + ws[|ws| - 1]
  }

  function Normalized(s: string): string {
    Spaced(Words(s))
  }

  lemma SpacedPush(ws: seq<string>, w: string)
    ensures Spaced(ws + [w]) == if ws == [] then w else Spaced(ws) + " " + w
  {
    assert (ws + [w])[..|ws|] == ws;
  }

  lemma JoinedGrows(a: string, w: string, c: char)
    ensures a + " " + (w + [c]) == a + " " + w + [c]
  {
  }

  lemma SpacedGrow(init: seq<string>, w: string, c: char)
    ensures Spaced(init + [w + [c]]) == Spaced(init + [w]) + [c]
  {
    hide Spaced;
    SpacedPush(init, w + [c]);
    SpacedPush(init, w);
    if init != [] {
      JoinedGrows(Spaced(init), w, c);
    }
  }

  /** The character loop with its pending space computes the spaced words. */
  method Normalize(text: string) returns (out: string)
    ensures out == Normalized(text)
  {
    hide Spaced;
    out := "";
    var pendingSpace := false;
    var started := false;
    assert Spaced([]) == "" by { EmptySpaced(); }
    for i := 0 to |text|
      invariant out == Spaced(Words(text[..i]))
      invariant started == (Words(text[..i]) != [])
      invariant pendingSpace == (started && IsAsciiWhitespace(text[i - 1]))
      invariant !started && i > 0 ==> IsAsciiWhitespace(text[i - 1])
    {
      var c := text[i];
      ghost var ws := Words(text[..i]);
      assert text[..i + 1][..i] == text[..i];
      if IsAsciiWhitespace(c) {
        if started {
          pendingSpace := true;
        }
      } else {
        if i == 0 || IsAsciiWhitespace(text[i - 1]) {
          SpacedPush(ws, [c]);
        } else {
          SpacedGrow(ws[..|ws| - 1], ws[|ws| - 1], c);
          assert ws == ws[..|ws| - 1] + [ws[|ws| - 1]];
        }
        if pendingSpace {
          out := out + " ";
          pendingSpace := false;
        }
        out := out + [c];
        started := true;
      }
    }
    assert text[..|text|] == text;
  }

  lemma EmptySpaced()
    ensures Spaced([]) == ""
  {
  }

  predicate IsWord(w: string) {
    w != "" && forall i | 0 <= i < |w| :: !IsAsciiWhitespace(w[i])
  }

  predicate AreWords(ws: seq<string>) {
    forall k | 0 <= k < |ws| :: IsWord(ws[k])
  }

  lemma {:induction false} WordsAreWords(s: string)
    ensures AreWords(Words(s))
  {
    if s != "" {
      WordsAreWords(s[..|s| - 1]);
    }
  }

  /** One word on its own, or behind a text and a space. */
  lemma {:induction false} WordsOfWord(s: string, w: string)
    requires IsWord(w) && (s == "" || IsAsciiWhitespace(s[|s| - 1]))
    ensures Words(s + w) == Words(s) + [w]
    decreases |w|
  {
    var n := |w| - 1;
    assert (s + w)[..|s + w| - 1] == s + w[..n];
    if n == 0 {
      assert s + w[..n] == s;
      assert w == [w[0]];
    } else {
      WordsOfWord(s, w[..n]);
      assert w == w[..n] + [w[n]];
      assert (s + w[..n])[|s + w[..n]| - 1] == w[n - 1];
    }
  }

  lemma {:induction false} WordsOfSpaced(ws: seq<string>)
    requires AreWords(ws)
    ensures Words(Spaced(ws)) == ws
  {
    hide Spaced, IsWord;
    if ws == [] {
      EmptySpaced();
    } else {
      var init, w := ws[..|ws| - 1], ws[|ws| - 1];
      assert ws == init + [w];
      SpacedPush(init, w);
      WordsOfSpaced(init);
      if init == [] {
        WordsOfWord("", w);
        assert "" + w == w;
      } else {
        SpaceBehind(Spaced(init));
        WordsOfWord(Spaced(init) + " ", w);
      }
    }
  }

  lemma SpaceBehind(s: string)
    ensures Words(s + " ") == Words(s)
  {
    assert (s + " ")[..|s + " "| - 1] == s;
  }

  /** Normalizing loses nothing but the spacing, and doing it again changes nothing. */
  lemma NormalizedKeepsWords(s: string)
    ensures Words(Normalized(s)) == Words(s) && Normalized(Normalized(s)) == Normalized(s)
  {
    WordsAreWords(s);
    WordsOfSpaced(Words(s));
  }

  /** Two texts normalize alike exactly when they have the same words in the same order. */
  lemma NormalizedAlikeIffSameWords(a: string, b: string)
    ensures Normalized(a) == Normalized(b) <==> Words(a) == Words(b)
  {
    NormalizedKeepsWords(a);
    NormalizedKeepsWords(b);
  }

  // ----- What words are -----

  /** White space is the tab, the line feed, the form feed, the carriage return and the space. */
  lemma WhitespaceIs(c: char)
    ensures IsAsciiWhitespace(c) <==> c in "\t\n\U{C}\r "
  {
  }

  lemma WordsPush(s: string, c: char)
    ensures IsAsciiWhitespace(c) ==> Words(s + [c]) == Words(s)
    ensures !IsAsciiWhitespace(c) && (s == "" || IsAsciiWhitespace(s[|s| - 1])) ==> Words(s + [c]) == Words(s) + [[c]]
    ensures !IsAsciiWhitespace(c) && s != "" && !IsAsciiWhitespace(s[|s| - 1]) ==>
      && Words(s) != []
      && Words(s + [c]) == Words(s)[..|Words(s)| - 1] + [Words(s)[|Words(s)| - 1] + [c]]
  {
    assert (s + [c])[..|s|] == s;
  }

  lemma LastWordGrows(a: seq<string>, b: seq<string>, d: char)
    requires b != []
    ensures (a + b)[..|a + b| - 1] + [(a + b)[|a + b| - 1] + [d]] == a + (b[..|b| - 1] + [b[|b| - 1] + [d]])
  {
  }

  /** One character more, behind texts whose last words go on alike. */
  lemma SplitStep(before: seq<string>, t: string, init: string, d: char)
    requires t != "" && Words(t) == before + Words(init)
    requires IsAsciiWhitespace(t[|t| - 1]) <==> init == "" || IsAsciiWhitespace(init[|init| - 1])
    ensures Words(t + [d]) == before + Words(init + [d])
  {
    hide Words, IsAsciiWhitespace;
    WordsPush(t, d);
    WordsPush(init, d);
    if !IsAsciiWhitespace(d) {
      if IsAsciiWhitespace(t[|t| - 1]) {
        assert before + Words(init) + [[d]] == before + (Words(init) + [[d]]);
      } else {
        LastWordGrows(before, Words(init), d);
      }
    }
  }

  lemma {:induction false} WordsBehindSpace(x: string, b: string)
    requires x != "" && IsAsciiWhitespace(x[|x| - 1])
    ensures Words(x + b) == Words(x) + Words(b)
    decreases |b|
  {
    hide Words, IsAsciiWhitespace;
    if b == "" {
      assert x + b == x;
      NoWords();
    } else {
      var n := |b| - 1;
      WordsBehindSpace(x, b[..n]);
      SplitBehind(x, b);
      SplitStep(Words(x), x + b[..n], b[..n], b[n]);
    }
  }

  lemma NoWords()
    ensures Words("") == []
  {
  }

  lemma SplitBehind(x: string, b: string)
    requires x != "" && b != ""
    ensures var n := |b| - 1; var t := x + b[..n];
      x + b == t + [b[n]] && b == b[..n] + [b[n]] && t[|t| - 1] == if n == 0 then x[|x| - 1] else b[..n][n - 1]
  {
  }

  /** White space separates words. */
  lemma WordsSplit(a: string, c: char, b: string)
    requires IsAsciiWhitespace(c)
    ensures Words(a + [c] + b) == Words(a) + Words(b)
  {
    hide Words, IsAsciiWhitespace;
    WordsBehindSpace(a + [c], b);
    WordsPush(a, c);
  }

  /** A text without white space is one word. */
  lemma WordIsItsWord(w: string)
    requires w != "" && forall i | 0 <= i < |w| :: w[i] !in "\t\n\U{C}\r "
    ensures Words(w) == [w]
  {
    forall i | 0 <= i < |w|
      ensures !IsAsciiWhitespace(w[i])
    {
      WhitespaceIs(w[i]);
    }
    WordsOfWord("", w);
    assert "" + w == w;
  }
}
