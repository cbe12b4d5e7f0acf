/** How far the value scanner looks: what of the text behind a value can change its verdict. */
module ScannerLemmas {
  import opened AsciiText
  import opened ValueScanner

  /** Texts that stop a lookahead for `quote` at once, and with the same verdict. */
  predicate StopAlike(x: string, y: string, quote: char) {
    || ((x == "" || IsAsciiWhitespace(x[0])) && (y == "" || IsAsciiWhitespace(y[0])))
    || (x != "" && y != "" && x[0] == y[0] == quote)
  }

  /** A stretch without the quote and white space leaves the verdict to what follows. */
  lemma {:induction false} LookaheadPasses(a: string, y: string, quote: char)
    requires forall i | 0 <= i < |a| :: a[i] != quote && !IsAsciiWhitespace(a[i])
    ensures LookaheadCloses(a + y, quote) == LookaheadCloses(y, quote)
  {
    if a == "" {
      assert a + y == y;
    } else {
      assert (a + y)[1..] == a[1..] + y;
      LookaheadPasses(a[1..], y, quote);
    }
  }

  lemma {:induction false} LookaheadIgnoresBeyond(a: string, x: string, y: string, quote: char)
    requires StopAlike(x, y, quote)
    ensures LookaheadCloses(a + x, quote) == LookaheadCloses(a + y, quote)
  {
    if a == "" {
      assert a + x == x && a + y == y;
    } else {
      assert (a + x)[1..] == a[1..] + x && (a + y)[1..] == a[1..] + y;
      LookaheadIgnoresBeyond(a[1..], x, y, quote);
    }
  }

  /** Texts agreeing up to a newline get the same verdict. */
  lemma {:induction false} LookaheadStaysOnLine(x: string, y: string, n: nat, quote: char)
    requires n <= |x| && n <= |y| && x[..n] == y[..n] && '\n' in x[..n]
    ensures LookaheadCloses(x, quote) == LookaheadCloses(y, quote)
  {
    assert x[0] == x[..n][0] && y[0] == y[..n][0];
    if x[0] != '\n' {
      assert x[1..][..n - 1] == x[..n][1..] && y[1..][..n - 1] == y[..n][1..];
      LookaheadStaysOnLine(x[1..], y[1..], n - 1, quote);
    }
  }

  /**
   Texts agreeing on `n` characters on which a lookahead ends early get the same verdict; if
   the verdicts differ, those characters hold neither whitespace nor the quote.
   */
  lemma {:induction false} VerdictsDifferLate(x: string, y: string, n: nat, quote: char)
    requires n <= |x| && n <= |y| && x[..n] == y[..n]
    requires LookaheadCloses(x, quote) != LookaheadCloses(y, quote)
    ensures forall i | 0 <= i < n :: x[i] != quote && !IsAsciiWhitespace(x[i])
  {
    if n > 0 {
      assert x[0] == x[..n][0] && y[0] == y[..n][0];
      assert x[1..][..n - 1] == x[..n][1..] && y[1..][..n - 1] == y[..n][1..];
      VerdictsDifferLate(x[1..], y[1..], n - 1, quote);
      assert forall i | 0 < i < n :: x[i] == x[1..][i - 1];
    }
  }

  lemma {:induction false} PlainTextIsInside(a: string, y: string, quote: char)
    requires forall i | 0 <= i < |a| :: a[i] != quote && a[i] != '\\' && a[i] != '\n'
    ensures QuotedExtent(a + y, quote) == Beyond(|a|, QuotedExtent(y, quote))
  {
    if a == "" {
      assert a + y == y;
    } else {
      assert (a + y)[1..] == a[1..] + y;
      PlainTextIsInside(a[1..], y, quote);
    }
  }

  /** Without a newline or the quote among its first `n` characters, a value reaches that far. */
  lemma {:induction false} ValueReaches(x: string, n: nat, quote: char)
    requires n <= |x| && forall i | 0 <= i < n :: x[i] != quote && x[i] != '\n'
    ensures QuotedExtent(x, quote).len >= n
    decreases n
  {
    if n > 0 {
      var step := if x[0] == '\\' && |x| > 1 && x[1] != '\n' then 2 else 1;
      if step <= n {
        ValueReaches(x[step..], n - step, quote);
      }
    }
  }

  /** How many characters one turn of the scanning loop passes; none at the end of the value. */
  function StepOver(s: string, quote: char): nat {
    if s == "" || s[0] == '\n' then 0
    else if s[0] == '\\' then if |s| > 1 && s[1] != '\n' then 2 else 1
    else if s[0] != quote then 1
    else if |s| > 1 && s[1] == quote then 2
    else if ClosesHere(s[1..], quote) then 0
    else 1
  }

  lemma StepsAdd(s: string, quote: char)
    ensures var n := StepOver(s, quote);
      && n <= |s| && QuotedExtent(s, quote) ==
        (if n > 0 then Beyond(n, QuotedExtent(s[n..], quote)) else Extent(0, s != "" && s[0] != '\n'))
  {
  }

  /** Texts a value's inside can stop at. */
  predicate Terminator(x: string, quote: char) {
    x == "" || x[0] == '\n' || x[0] == quote
  }

  lemma StepsAlike(a: string, x: string, y: string, quote: char)
    requires a != "" && IsQuote(quote) && StopAlike(x, y, quote)
    requires Terminator(x, quote) && Terminator(y, quote)
    requires 0 < StepOver(a + x, quote) <= |a|
    ensures StepOver(a + y, quote) == StepOver(a + x, quote)
  {
    hide LookaheadCloses;
    var ax, ay := a + x, a + y;
    assert ax[0] == a[0] == ay[0];
    assert ax[1..] == a[1..] + x && ay[1..] == a[1..] + y;
    LookaheadIgnoresBeyond(a[1..], x, y, quote);
    if |a| > 1 {
      assert ax[1] == a[1] == ay[1];
      assert ClosesHere(ax[1..], quote) == ClosesHere(ay[1..], quote);
    } else {
      assert ax[1..] == x && ay[1..] == y;
      assert x != "" ==> ax[1] == x[0];
      assert y != "" ==> ay[1] == y[0];
      LineEndCloses(x, quote);
    }
  }

  lemma LineEndCloses(x: string, quote: char)
    ensures x == "" || x[0] == '\n' ==> ClosesHere(x, quote)
  {
  }

  /**
   A value whose inside is `a` keeps that inside whatever follows, provided what follows
   still opens with the newline (or end) or the closing quote that ended it and, for a
   closing quote, that quote is still a structural close.
   */
  lemma {:induction false} ExtentIgnoresBeyond(a: string, x: string, y: string, quote: char)
    requires IsQuote(quote) && StopAlike(x, y, quote)
    requires Terminator(x, quote) && Terminator(y, quote)
    requires QuotedExtent(a + x, quote).len == |a|
    ensures QuotedExtent(a + y, quote) == Beyond(|a|, QuotedExtent(y, quote))
    decreases |a|
  {
    hide QuotedExtent, StepOver;
    if a == "" {
      assert a + y == y;
    } else {
      StepsAdd(a + x, quote);
      var n := StepOver(a + x, quote);
      StepsAlike(a, x, y, quote);
      StepsAdd(a + y, quote);
      assert (a + x)[n..] == a[n..] + x && (a + y)[n..] == a[n..] + y;
      ExtentIgnoresBeyond(a[n..], x, y, quote);
    }
  }

  lemma {:induction false} UnquotedIgnoresBeyond(a: string, y: string)
    requires forall i | 0 <= i < |a| :: !IsAsciiWhitespace(a[i])
    requires y == "" || IsAsciiWhitespace(y[0])
    ensures UnquotedLength(a + y) == |a|
  {
    if a == "" {
      assert a + y == y;
    } else {
      assert (a + y)[1..] == a[1..] + y;
      UnquotedIgnoresBeyond(a[1..], y);
    }
  }
}
