/** Rust's `str::trim` on a sequence of characters. */
module Trimming {
  /** The Unicode white space that `trim` removes. */
  predicate WhiteSpace(c: char) {
    '\t' <= c <= '\r' || c == ' ' || c == '\U{85}' || c == '\U{A0}' || c == '\U{1680}' || '\U{2000}' <= c <= '\U{200A}'
    || c == '\U{2028}' || c == '\U{2029}' || c == '\U{202F}' || c == '\U{205F}' || c == '\U{3000}'
  }

  function TrimStart(s: string): string {
    if s != "" && WhiteSpace(s[0]) then TrimStart(s[1..]) else s
  }

  function TrimEnd(s: string): (t: string)
    ensures t <= s
  {
    if s != "" && WhiteSpace(s[|s| - 1]) then TrimEnd(s[..|s| - 1]) else s
  }

  function Trim(s: string): string {
    TrimEnd(TrimStart(s))
  }

  /** A last white character is trimmed anyway. */
  lemma {:induction false} TrimLast(s: string)
    requires s != "" && WhiteSpace(s[|s| - 1])
    ensures Trim(s) == Trim(s[..|s| - 1])
  {
    var init := s[..|s| - 1];
    if init != "" && WhiteSpace(s[0]) {
      assert s[1..][..|s| - 2] == init[1..];
      TrimLast(s[1..]);
    } else if init == "" {
      assert s[1..] == "";
    } else {
      assert TrimStart(s) == s && TrimStart(init) == init;
    }
  }

  lemma {:induction false} TrimEndFixed(s: string)
    requires s != "" && !WhiteSpace(s[0])
    ensures TrimEnd(s) != "" && Trim(s) == TrimEnd(s)
  {
    if WhiteSpace(s[|s| - 1]) {
      TrimEndFixed(s[..|s| - 1]);
    }
  }

  predicate AllWhite(s: string) {
    forall i | 0 <= i < |s| :: WhiteSpace(s[i])
  }

  /** A text that trimming leaves alone. */
  predicate Trimmed(s: string) {
    s == "" || (!WhiteSpace(s[0]) && !WhiteSpace(s[|s| - 1]))
  }

  lemma {:induction false} TrimmedIsFixed(s: string)
    ensures Trimmed(s) <==> Trim(s) == s
  {
    if s != "" && WhiteSpace(s[0]) {
      TrimShorter(s[1..]);
    }
  }

  lemma {:induction false} TrimShorter(s: string)
    ensures |Trim(s)| <= |s|
  {
    if s != "" && WhiteSpace(s[0]) {
      TrimShorter(s[1..]);
    }
  }

  /** Trimming takes white space off both ends and nothing else. */
  lemma {:induction false} TrimSplit(s: string) returns (pre: string, post: string)
    ensures s == pre + Trim(s) + post && AllWhite(pre) && AllWhite(post) && Trimmed(Trim(s))
  {
    if s != "" && WhiteSpace(s[0]) {
      var p;
      p, post := TrimSplit(s[1..]);
      pre := [s[0]] + p;
      assert Trim(s) == Trim(s[1..]);
      HeadJoins(s, p, Trim(s), post);
    } else if s != "" && WhiteSpace(s[|s| - 1]) {
      TrimLast(s);
      var q;
      pre, q := TrimSplit(s[..|s| - 1]);
      post := q + [s[|s| - 1]];
      LastJoins(s, pre, Trim(s), q);
    } else {
      pre, post := "", "";
    }
  }

  lemma HeadJoins(s: string, a: string, b: string, c: string)
    requires s != "" && s[1..] == a + b + c
    ensures s == [s[0]] + a + b + c
  {
    assert s == [s[0]] + (a + b + c);
  }

  lemma LastJoins(s: string, a: string, b: string, c: string)
    requires s != "" && s[..|s| - 1] == a + b + c
    ensures s == a + b + (c + [s[|s| - 1]])
  {
    assert s == (a + b + c) + [s[|s| - 1]];
  }

  lemma {:induction false} TrimPadded(s: string, post: string)
    requires AllWhite(post)
    ensures Trim(s + post) == Trim(s)
    decreases |post|
  {
    if post == "" {
      assert s + post == s;
    } else {
      var n := |post| - 1;
      TrimPadded(s, post[..n]);
      assert (s + post)[..|s + post| - 1] == s + post[..n];
      TrimLast(s + post);
    }
  }

  /** The white space of Unicode. */
  lemma WhiteSpaceIs(c: char)
    ensures WhiteSpace(c) <==>
      || c in "\t\n\U{B}\U{C}\r \U{85}\U{A0}\U{1680}\U{2028}\U{2029}\U{202F}\U{205F}\U{3000}"
      || c in "\U{2000}\U{2001}\U{2002}\U{2003}\U{2004}\U{2005}\U{2006}\U{2007}\U{2008}\U{2009}\U{200A}"
  {
  }
}
