/**
 When a second redaction changes nothing. The lookahead that closes a quoted value reads
 text that a later redaction of the same pass rewrites; the pass is idempotent exactly when
 no such verdict is overturned.
 */
module RedactionSettles {
  import opened AsciiText
  import opened Options
  import opened SecretPrefix
  import opened PrefixSearch
  import opened ValueScanner
  import opened ScannerLemmas
  import opened Redactor

  // ----- The replacement token -----

  lemma {:induction false} KeyStartsWith(u: Unicode, keys: seq<Key>, s: string, before: bool)
    requires FirstKey(u, keys, s, before) > 0
    requires forall i | 0 <= i < |keys| ::
      WellFormedKey(keys[i]) && (if keys[i].Plain? then keys[i].word else keys[i].head)[0] in {'p', 's', 'a', 't'}
    ensures s != "" && Fold(s[0]) in {'p', 's', 'a', 't'} && Boundary(u, s, before)
  {
    if !KeyMatches(u, keys[0], s, before) {
      KeyStartsWith(u, keys[1..], s, before);
    }
  }

  lemma MatchStartsWith(u: Unicode, s: string, before: bool)
    requires IsMatch(u, s, before)
    ensures s != "" && Fold(s[0]) in {'p', 's', 'a', 't'} && Boundary(u, s, before)
  {
    KeysWellFormed();
    KeyStartsWith(u, KEYS, s, before);
  }

  lemma TokenTail(u: Unicode, i: nat, post: string, before: bool)
    requires i < |TOKEN| && (i > 0 ==> before == IsWord(u, TOKEN[i - 1]))
    ensures !IsMatch(u, TOKEN[i..] + post, before)
  {
    hide IsMatch, KeyAt, OperatorAt;
    var t := TOKEN[i..] + post;
    assert t[0] == TOKEN[i];
    if IsMatch(u, t, before) {
      MatchStartsWith(u, t, before);
      assert i == 10;
      assert t == "SECRET]" + post;
      assert t[6] == ']' && forall d | 0 <= d < 6 :: t[d] == "SECRET"[d];
      MatchShape(u, t, before);
      assert false;
    }
  }

  /** No prefix starts inside the token, whatever surrounds it. */
  lemma TokenHidesNothing(u: Unicode, pre: string, post: string, j: nat, before: bool)
    requires |pre| <= j < |pre| + |TOKEN|
    ensures !MatchesAt(u, pre + TOKEN + post, j, before)
  {
    hide IsMatch;
    var t := pre + TOKEN + post;
    var i := j - |pre|;
    assert t[j..] == TOKEN[i..] + post;
    assert i > 0 ==> t[j - 1] == TOKEN[i - 1];
    TokenTail(u, i, post, WordBefore(u, t, j, before));
  }

  lemma TokenIsSkippable(u: Unicode)
    ensures Skippable(u, TOKEN)
  {
    hide IsMatch;
    forall j | 0 <= j <= |TOKEN|
      ensures !MatchesAt(u, TOKEN, j, false)
    {
      if j < |TOKEN| {
        assert "" + TOKEN + "" == TOKEN;
        TokenHidesNothing(u, "", "", j, false);
      } else {
        NoMatchAt(u, TOKEN, j, false);
      }
    }
    FindNoneIff(u, TOKEN, false);
    assert TOKEN[|"[REDACTED:"|..] == "SECRET]";
    assert "SECRET]"[..6] == "SECRET";
    assert IsExactRedactedToken(TOKEN);
  }

  // ----- Rescanning a rewritten value -----

  function Close(v: Scanned): string
    requires v.closed ==> v.quote.Some?
  {
    if v.closed then [v.quote.value] else ""
  }

  /** What scanning says of a quoted value and the text behind it. */
  lemma QuotedShape(v: Scanned, rest: string)
    requires v.full != "" && Scan(v.full + rest) == Some(v) && IsQuote(v.full[0])
    ensures v.quote == Some(v.full[0]) && v.full == [v.full[0]] + v.inner + Close(v)
    ensures QuotedExtent(v.inner + (Close(v) + rest), v.full[0]) == Extent(|v.inner|, v.closed)
  {
    hide QuotedExtent;
    var s, q := v.full + rest, v.full[0];
    assert s[0] == q;
    var e := QuotedExtent(s[1..], q);
    assert v.inner == s[1..][..e.len];
    assert e.closed ==> s[1..][e.len] == s[1 + e.len];
    assert v.full == [q] + v.inner + Close(v);
    assert s[1..] == v.inner + (Close(v) + rest);
  }

  lemma UnquotedShape(v: Scanned, rest: string)
    requires v.full != "" && Scan(v.full + rest) == Some(v) && !IsQuote(v.full[0])
    ensures v.quote.None? && !v.closed && v.inner == v.full && (rest == "" || IsAsciiWhitespace(rest[0]))
    ensures forall i | 0 <= i < |v.full| :: !IsAsciiWhitespace(v.full[i])
  {
    var s := v.full + rest;
    assert s[0] == v.full[0] && rest == s[|v.full|..];
    assert forall i | 0 <= i < |v.full| :: v.full[i] == s[i];
  }

  lemma QuotedEnd(v: Scanned, rest: string)
    requires v.full != "" && Scan(v.full + rest) == Some(v) && IsQuote(v.full[0])
    ensures v.quote == Some(v.full[0])
    ensures v.closed ==> ClosesHere(rest, v.full[0])
    ensures !v.closed ==> rest == "" || rest[0] == '\n'
  {
    hide QuotedExtent, LookaheadCloses, Scan;
    QuotedShape(v, rest);
    var q := v.full[0];
    var s := v.inner + (Close(v) + rest);
    ExtentEnds(s, q);
    assert s[|v.inner|..] == Close(v) + rest;
    if v.closed {
      assert (Close(v) + rest)[1..] == rest;
    } else {
      assert Close(v) + rest == rest;
    }
  }

  /** A quoted value ends where a turn of the loop stops. */
  lemma {:induction false} ExtentEnds(s: string, quote: char)
    requires IsQuote(quote)
    ensures var e := QuotedExtent(s, quote); StepOver(s[e.len..], quote) == 0
    decreases |s|
  {
    hide QuotedExtent, StepOver;
    StepsAdd(s, quote);
    var n := StepOver(s, quote);
    if n == 0 {
      assert s[0..] == s;
    } else {
      ExtentEnds(s[n..], quote);
      assert s[n..][QuotedExtent(s[n..], quote).len..] == s[QuotedExtent(s, quote).len..];
    }
  }

  /** The text that scans as the inside of a quoted value: its own, or the token. */
  lemma InsideRescans(mid: string, v: Scanned, rest: string, x: string)
    requires v.full != "" && Scan(v.full + rest) == Some(v) && IsQuote(v.full[0])
    requires mid == v.inner || mid == TOKEN
    requires !v.closed ==> x == "" || x[0] == '\n'
    ensures v.quote == Some(v.full[0])
    ensures QuotedExtent(mid + (Close(v) + x), v.full[0]) == Beyond(|mid|, QuotedExtent(Close(v) + x, v.full[0]))
  {
    hide *;
    QuotedShape(v, rest);
    if mid == v.inner {
      QuotedEnd(v, rest);
      BothStop(v, rest, x);
      ExtentIgnoresBeyond(mid, Close(v) + rest, Close(v) + x, v.full[0]);
    } else {
      TokenIsPlain(v.full[0]);
      PlainTextIsInside(TOKEN, Close(v) + x, v.full[0]);
    }
  }

  lemma TokenIsPlain(q: char)
    requires IsQuote(q)
    ensures forall i | 0 <= i < |TOKEN| :: TOKEN[i] != q && TOKEN[i] != '\\' && TOKEN[i] != '\n'
    ensures forall i | 0 <= i < |TOKEN| :: !IsAsciiWhitespace(TOKEN[i])
  {
  }

  lemma BothStop(v: Scanned, rest: string, x: string)
    requires v.quote.Some?
    requires !v.closed ==> (x == "" || x[0] == '\n') && (rest == "" || rest[0] == '\n')
    ensures StopAlike(Close(v) + rest, Close(v) + x, v.quote.value)
    ensures Terminator(Close(v) + rest, v.quote.value) && Terminator(Close(v) + x, v.quote.value)
  {
    assert !v.closed ==> Close(v) + x == x && Close(v) + rest == rest;
  }

  /** The inside of a rewritten value. */
  function Middle(u: Unicode, v: Scanned): string {
    if Skippable(u, v.inner) then v.inner else TOKEN
  }

  lemma RewrittenShape(u: Unicode, v: Scanned, rest: string)
    requires v.full != "" && Scan(v.full + rest) == Some(v)
    ensures IsQuote(v.full[0]) ==>
      v.quote == Some(v.full[0]) && Rewritten(u, v) == [v.full[0]] + Middle(u, v) + Close(v)
    ensures !IsQuote(v.full[0]) ==> v.quote.None? && !v.closed && Rewritten(u, v) == Middle(u, v)
    ensures Rewritten(u, v) != "" && Skippable(u, Middle(u, v))
  {
    hide Scan, Skippable;
    TokenIsSkippable(u);
    if IsQuote(v.full[0]) {
      QuotedShape(v, rest);
    } else {
      UnquotedShape(v, rest);
    }
  }

  /** Texts that open alike behind a value. */
  predicate OpenAlike(rest: string, x: string) {
    (rest == "" <==> x == "") && (rest != "" && x != "" ==> rest[0] == x[0])
  }

  /** A rewritten value scans as itself, and is then left alone, unless its close is overturned. */
  lemma RewrittenRescans(u: Unicode, v: Scanned, rest: string, x: string)
    requires v.full != "" && Scan(v.full + rest) == Some(v) && OpenAlike(rest, x)
    requires v.closed ==> v.quote.Some? && ClosesHere(x, v.quote.value)
    ensures Scan(Rewritten(u, v) + x)
         == Some(Scanned(Rewritten(u, v), Middle(u, v), v.quote, v.closed))
  {
    hide Skippable, Rewritten, LookaheadCloses, QuotedExtent;
    RewrittenShape(u, v, rest);
    var r, mid := Rewritten(u, v), Middle(u, v);
    if IsQuote(v.full[0]) {
      QuotedEnd(v, rest);
      InsideRescans(mid, v, rest, x);
      StepsAdd(Close(v) + x, v.full[0]);
      CloseStays(v, x);
      ScanOfQuoted(v.full[0], mid, Close(v), x, v.closed);
    } else {
      UnquotedShape(v, rest);
      assert forall i | 0 <= i < |TOKEN| :: !IsAsciiWhitespace(TOKEN[i]);
      UnquotedIgnoresBeyond(r, x);
      assert (r + x)[..|r|] == r && (r + x)[0] == r[0];
    }
  }

  lemma CloseStays(v: Scanned, x: string)
    requires v.closed ==> v.quote.Some? && IsQuote(v.quote.value) && ClosesHere(x, v.quote.value)
    requires !v.closed ==> v.quote.Some? && (x == "" || x[0] == '\n')
    ensures StepOver(Close(v) + x, v.quote.value) == 0
    ensures v.closed <==> Close(v) + x != "" && (Close(v) + x)[0] != '\n'
  {
    if v.closed {
      assert (Close(v) + x)[1..] == x;
    } else {
      assert Close(v) + x == x;
    }
  }

  lemma ScanOfQuoted(q: char, mid: string, close: string, x: string, closed: bool)
    requires IsQuote(q) && close == (if closed then [q] else "")
    requires QuotedExtent(mid + (close + x), q) == Extent(|mid|, closed)
    ensures Scan([q] + mid + close + x) == Some(Scanned([q] + mid + close, mid, Some(q), closed))
  {
    QuotedParts(q, mid, close, x);
    var s := [q] + mid + close + x;
    hide QuotedExtent;
  }

  lemma QuotedParts(q: char, mid: string, close: string, x: string)
    ensures var s := [q] + mid + close + x;
      && s[0] == q && s[1..] == mid + (close + x) && s[1..1 + |mid|] == mid
      && s[..1 + |mid| + |close|] == [q] + mid + close
  {
  }

  // ----- Redacting a redacted text -----

  lemma SlicePrefix(a: string, b: string)
    ensures (a + b)[..|a|] == a && (a + b)[|a|..] == b
  {
  }

  /** An assignment of a text: its prefix ends before the value, its value scans, its rest follows. */
  lemma AssignmentOf(u: Unicode, s: string, before: bool)
    requires FirstAssignment(u, s, before).Some?
    ensures var a := FirstAssignment(u, s, before).value;
      && Find(u, s, before) == Some(a.prefix) && 0 < a.prefix.end <= |s|
      && Scan(a.value.full + a.rest) == Some(a.value)
      && s == s[..a.prefix.end] + (a.value.full + a.rest)
      && !IsSpace(u, a.value.full[0])
  {
    hide Scan, Find, IsMatch, IsPrefix, IsSpace;
    var a := FirstAssignment(u, s, before).value;
    FindIsLeftmost(u, s, before);
    var o := PrefixShape(u, s, a.prefix, before);
    assert s[a.prefix.end..][0] == s[a.prefix.end];
  }

  /** Redaction changes nothing before the first value, and keeps its opening character unless it is not a quote. */
  lemma RedactKeepsPrefix(u: Unicode, s: string, before: bool)
    ensures OpenAlike(s, Redact(u, s, before))
    ensures FirstAssignment(u, s, before).None? ==> Redact(u, s, before) == s
    ensures FirstAssignment(u, s, before).Some? ==>
      var e := FirstAssignment(u, s, before).value.prefix.end;
      0 < e <= |s| && e <= |Redact(u, s, before)| && Redact(u, s, before)[..e] == s[..e]
  {
    hide FirstAssignment, Rewritten, Scan;
    RedactUnfolds(u, s, before);
    if FirstAssignment(u, s, before).Some? {
      AssignmentOf(u, s, before);
      var a := FirstAssignment(u, s, before).value;
      var t := Redact(u, s, before);
      assert t[..a.prefix.end] == s[..a.prefix.end];
      assert s[0] == s[..a.prefix.end][0] == t[0];
    }
  }

  /** The prefix of the first assignment is found again in a redacted text. */
  lemma PrefixFoundAgain(u: Unicode, s: string, before: bool, x: string)
    requires FirstAssignment(u, s, before).Some?
    ensures var a := FirstAssignment(u, s, before).value;
      var t := s[..a.prefix.end] + Rewritten(u, a.value) + x;
      Find(u, t, before) == Some(a.prefix) && t[a.prefix.end..] == Rewritten(u, a.value) + x
  {
    hide Find, IsMatch, Scan, Rewritten, FirstAssignment, IsSpace;
    AssignmentOf(u, s, before);
    var a := FirstAssignment(u, s, before).value;
    RewrittenOpens(u, a.value, a.rest);
    var t := s[..a.prefix.end] + Rewritten(u, a.value) + x;
    assert t[a.prefix.end] == Rewritten(u, a.value)[0];
    assert t[..a.prefix.end] == s[..a.prefix.end];
    FindSurvives(u, s, t, before);
    assert t[a.prefix.end..] == Rewritten(u, a.value) + x;
  }

  lemma RewrittenOpens(u: Unicode, v: Scanned, rest: string)
    requires v.full != "" && Scan(v.full + rest) == Some(v) && !IsSpace(u, v.full[0])
    ensures Rewritten(u, v) != "" && !IsSpace(u, Rewritten(u, v)[0])
  {
    hide Scan, Skippable;
    if IsQuote(v.full[0]) {
      QuotedShape(v, rest);
    } else {
      UnquotedShape(v, rest);
    }
  }

  /** What precedes a text matters only to a key at its very start. */
  lemma WordBeforeIsIrrelevant(u: Unicode, s: string, b: bool, c: bool)
    requires s == "" || !IsKeyChar(s[0])
    ensures FirstAssignment(u, s, b) == FirstAssignment(u, s, c)
    ensures Redact(u, s, b) == Redact(u, s, c)
  {
    hide KeyAt;
    assert s[0..] == s;
    NoMatchAt(u, s, 0, b);
    NoMatchAt(u, s, 0, c);
  }

  /** The word-character context of a rest is the same behind a value and behind its rewriting, where it matters. */
  lemma SameContext(u: Unicode, v: Scanned, rest: string)
    requires v.full != "" && Scan(v.full + rest) == Some(v)
    ensures Rewritten(u, v) != ""
    ensures IsWord(u, v.full[|v.full| - 1]) == IsWord(u, Rewritten(u, v)[|Rewritten(u, v)| - 1])
         || rest == "" || !IsKeyChar(rest[0])
  {
    hide Scan, Skippable;
    if IsQuote(v.full[0]) {
      QuotedShape(v, rest);
      QuotedEnd(v, rest);
    } else {
      UnquotedShape(v, rest);
    }
  }

  /** White space or the quote, which end a lookahead. */
  predicate Stops(s: string, quote: char) {
    exists i | 0 <= i < |s| :: s[i] == quote || IsAsciiWhitespace(s[i])
  }

  /**
   The lookahead's verdict once the text is rewritten, read off the text itself: assignment by
   assignment, up to the first one whose prefix or rewritten value ends the lookahead.
   */
  predicate ClosesRewritten(u: Unicode, s: string, before: bool, quote: char)
    decreases |s|
  {
    match FirstAssignment(u, s, before)
    case None => LookaheadCloses(s, quote)
    case Some(a) =>
      var head := s[..a.prefix.end] + Rewritten(u, a.value);
      if Stops(head, quote) then LookaheadCloses(head, quote)
      else ClosesRewritten(u, a.rest, EndsInWord(u, a), quote)
  }

  /** A quote before `s` is a structural close still, once `s` is rewritten. */
  predicate StaysClosed(u: Unicode, s: string, before: bool, quote: char) {
    || s == "" || IsAsciiWhitespace(s[0])
    || (!IsValueGlue(s[0]) && ClosesRewritten(u, s, before, quote))
  }

  /** Behind every closed value, the text still lets the quote close once it is rewritten. */
  predicate Settled(u: Unicode, s: string, before: bool)
    decreases |s|
  {
    match FirstAssignment(u, s, before)
    case None => true
    case Some(a) =>
      && (a.value.closed ==> a.value.quote.Some? && StaysClosed(u, a.rest, EndsInWord(u, a), a.value.quote.value))
      && Settled(u, a.rest, EndsInWord(u, a))
  }

  lemma {:induction false} LookaheadStopsWithin(a: string, y: string, quote: char)
    requires Stops(a, quote)
    ensures LookaheadCloses(a + y, quote) == LookaheadCloses(a, quote)
  {
    assert (a + y)[0] == a[0];
    if a[0] != quote && !IsAsciiWhitespace(a[0]) {
      assert (a + y)[1..] == a[1..] + y;
      var i :| 0 <= i < |a| && (a[i] == quote || IsAsciiWhitespace(a[i]));
      assert a[1..][i - 1] == a[i];
      LookaheadStopsWithin(a[1..], y, quote);
    }
  }

  /** The verdict read off the text is the verdict on the redacted text. */
  lemma {:induction false} ClosesRewrittenIff(u: Unicode, s: string, before: bool, quote: char)
    ensures ClosesRewritten(u, s, before, quote) == LookaheadCloses(Redact(u, s, before), quote)
    decreases |s|
  {
    hide LookaheadCloses, Rewritten, FirstAssignment, Redact, IsWord;
    RedactUnfolds(u, s, before);
    if FirstAssignment(u, s, before).Some? {
      var a := FirstAssignment(u, s, before).value;
      AssignmentOf(u, s, before);
      var head := s[..a.prefix.end] + Rewritten(u, a.value);
      var x := Redact(u, a.rest, EndsInWord(u, a));
      if Stops(head, quote) {
        LookaheadStopsWithin(head, x, quote);
      } else {
        ClosesRewrittenIff(u, a.rest, EndsInWord(u, a), quote);
        LookaheadPasses(head, x, quote);
      }
    }
  }

  lemma StaysClosedIff(u: Unicode, s: string, before: bool, quote: char)
    ensures StaysClosed(u, s, before, quote) == ClosesHere(Redact(u, s, before), quote)
  {
    hide LookaheadCloses, Rewritten, FirstAssignment, Redact, ClosesRewritten;
    ClosesRewrittenIff(u, s, before, quote);
    RedactKeepsPrefix(u, s, before);
    var x := Redact(u, s, before);
    if FirstAssignment(u, s, before).Some? {
      assert s[0] == s[..1][0] == x[..1][0] == x[0] by {
        var e := FirstAssignment(u, s, before).value.prefix.end;
        assert s[0] == s[..e][0] && x[0] == x[..e][0];
      }
    }
  }

  /** The condition, said of the redacted text: no closing verdict is overturned. */
  predicate Undisturbed(u: Unicode, s: string, before: bool)
    decreases |s|
  {
    match FirstAssignment(u, s, before)
    case None => true
    case Some(a) =>
      && (a.value.closed ==>
        a.value.quote.Some? && ClosesHere(Redact(u, a.rest, EndsInWord(u, a)), a.value.quote.value))
      && Undisturbed(u, a.rest, EndsInWord(u, a))
  }

  lemma {:induction false} SettledIsUndisturbed(u: Unicode, s: string, before: bool)
    ensures Settled(u, s, before) == Undisturbed(u, s, before)
    decreases |s|
  {
    hide FirstAssignment, Redact, ClosesHere, StaysClosed, IsWord;
    if FirstAssignment(u, s, before).Some? {
      var a := FirstAssignment(u, s, before).value;
      AssignmentOf(u, s, before);
      SettledIsUndisturbed(u, a.rest, EndsInWord(u, a));
      if a.value.quote.Some? {
        StaysClosedIff(u, a.rest, EndsInWord(u, a), a.value.quote.value);
      }
    }
  }

  /** The value of the first assignment of a redacted text. */
  function Again(u: Unicode, v: Scanned): Scanned {
    Scanned(Rewritten(u, v), Middle(u, v), v.quote, v.closed)
  }

  /** The first assignment is found again, rewritten, when its value's close stands. */
  lemma FoundAgain(u: Unicode, s: string, before: bool, a: Assignment, x: string)
    requires FirstAssignment(u, s, before) == Some(a) && x == Redact(u, a.rest, EndsInWord(u, a))
    requires a.value.closed ==> a.value.quote.Some? && ClosesHere(x, a.value.quote.value)
    ensures a.prefix.end <= |s|
    ensures FirstAssignment(u, s[..a.prefix.end] + Rewritten(u, a.value) + x, before)
         == Some(Assignment(a.prefix, Again(u, a.value), x))
  {
    hide Find, Scan, Rewritten, Redact, FirstAssignment, ClosesHere, Skippable, IsWord, IsKeyChar, Middle;
    AssignmentOf(u, s, before);
    RedactKeepsPrefix(u, a.rest, EndsInWord(u, a));
    PrefixFoundAgain(u, s, before, x);
    RewrittenRescans(u, a.value, a.rest, x);
    var p, r := s[..a.prefix.end], Rewritten(u, a.value);
    FirstAssignmentIs(u, p + r + x, before);
    SlicePrefix(r, x);
    SlicePrefix(p, r + x);
    assert p + (r + x) == p + r + x;
  }

  /** The first assignment of a redacted text, when its value's close stands. */
  lemma FirstAgain(u: Unicode, s: string, before: bool)
    requires FirstAssignment(u, s, before).Some?
    requires var a := FirstAssignment(u, s, before).value;
      a.value.closed ==> a.value.quote.Some? && ClosesHere(Redact(u, a.rest, EndsInWord(u, a)), a.value.quote.value)
    ensures var a := FirstAssignment(u, s, before).value;
      var x := Redact(u, a.rest, EndsInWord(u, a));
      var r := Rewritten(u, a.value);
      && Redact(u, s, before) == s[..a.prefix.end] + r + x
      && Redact(u, Redact(u, s, before), before) == s[..a.prefix.end] + r + Redact(u, x, EndsInWord(u, a))
  {
    hide Find, Scan, Rewritten, Redact, FirstAssignment, ClosesHere, Skippable, IsWord, IsKeyChar, Middle;
    var a := FirstAssignment(u, s, before).value;
    var b := EndsInWord(u, a);
    var x, r := Redact(u, a.rest, b), Rewritten(u, a.value);
    var p := s[..a.prefix.end];
    FoundAgain(u, s, before, a, x);
    AssignmentOf(u, s, before);
    RedactUnfolds(u, s, before);
    RedactUnfolds(u, p + r + x, before);
    assert (p + r + x)[..|p|] == p;
    RewrittenTwice(u, a.value, a.rest);
    RewrittenEnd(u, a.value, a.rest, x, b);
  }

  /** Behind a rewriting the rest is redacted as behind the value. */
  lemma RewrittenEnd(u: Unicode, v: Scanned, rest: string, x: string, b: bool)
    requires v.full != "" && Scan(v.full + rest) == Some(v) && b == IsWord(u, v.full[|v.full| - 1])
    requires x == Redact(u, rest, b)
    ensures Rewritten(u, v) != "" && Redact(u, x, IsWord(u, Rewritten(u, v)[|Rewritten(u, v)| - 1])) == Redact(u, x, b)
  {
    hide Find, Scan, Rewritten, Redact, FirstAssignment, Skippable, IsWord, IsKeyChar;
    SameContext(u, v, rest);
    RedactKeepsPrefix(u, rest, b);
    if x == "" || !IsKeyChar(x[0]) {
      WordBeforeIsIrrelevant(u, x, b, IsWord(u, Rewritten(u, v)[|Rewritten(u, v)| - 1]));
    }
  }

  lemma RewrittenTwice(u: Unicode, v: Scanned, rest: string)
    requires v.full != "" && Scan(v.full + rest) == Some(v)
    ensures Rewritten(u, Scanned(Rewritten(u, v), Middle(u, v), v.quote, v.closed)) == Rewritten(u, v)
  {
    hide Scan, Skippable;
    RewrittenShape(u, v, rest);
  }

  lemma {:induction false} UndisturbedIsIdempotent(u: Unicode, s: string, before: bool)
    requires Undisturbed(u, s, before)
    ensures Redact(u, Redact(u, s, before), before) == Redact(u, s, before)
    decreases |s|
  {
    hide Find, Scan, Rewritten, Redact, FirstAssignment, ClosesHere;
    RedactUnfolds(u, s, before);
    if FirstAssignment(u, s, before).Some? {
      var a := FirstAssignment(u, s, before).value;
      FirstAgain(u, s, before);
      UndisturbedIsIdempotent(u, a.rest, EndsInWord(u, a));
    }
  }

  // ----- Counting prefixes -----

  /** Number of positions among the first `n` at which a prefix starts. */
  function Count(u: Unicode, s: string, before: bool, n: nat): nat
    requires n <= |s|
  {
    if n == 0 then 0
    else (if IsMatch(u, s, before) then 1 else 0) + Count(u, s[1..], IsWord(u, s[0]), n - 1)
  }

  lemma {:induction false} CountSplits(u: Unicode, s: string, before: bool, m: nat, n: nat)
    requires m + n <= |s|
    ensures Count(u, s, before, m + n) == Count(u, s, before, m) + Count(u, s[m..], WordBefore(u, s, m, before), n)
    decreases m
  {
    hide IsMatch, IsWord;
    if m == 0 {
      assert s[0..] == s;
    } else {
      CountSplits(u, s[1..], IsWord(u, s[0]), m - 1, n);
      assert s[1..][m - 1..] == s[m..];
    }
  }

  /** Fewer starting positions, smaller count. */
  lemma {:induction false} CountIsMonotone(u: Unicode, s: string, t: string, b: bool, c: bool, n: nat)
    requires n <= |s| && n <= |t|
    requires forall j | 0 <= j < n :: MatchesAt(u, s, j, b) ==> MatchesAt(u, t, j, c)
    ensures Count(u, s, b, n) <= Count(u, t, c, n)
    decreases n
  {
    hide IsMatch, IsWord;
    if n > 0 {
      assert s[0..] == s && t[0..] == t;
      assert MatchesAt(u, s, 0, b) ==> MatchesAt(u, t, 0, c);
      forall j | 0 <= j < n - 1
        ensures MatchesAt(u, s[1..], j, IsWord(u, s[0])) ==> MatchesAt(u, t[1..], j, IsWord(u, t[0]))
      {
        SuffixShift(u, s, j, b);
        SuffixShift(u, t, j, c);
      }
      CountIsMonotone(u, s[1..], t[1..], IsWord(u, s[0]), IsWord(u, t[0]), n - 1);
    }
  }

  lemma {:induction false} CountOfNone(u: Unicode, s: string, before: bool, n: nat)
    requires n <= |s| && forall j | 0 <= j < n :: !MatchesAt(u, s, j, before)
    ensures Count(u, s, before, n) == 0
    decreases n
  {
    hide IsMatch, IsWord;
    if n > 0 {
      assert s[0..] == s;
      assert !MatchesAt(u, s, 0, before);
      forall j | 0 <= j < n - 1
        ensures !MatchesAt(u, s[1..], j, IsWord(u, s[0]))
      {
        SuffixShift(u, s, j, before);
      }
      CountOfNone(u, s[1..], IsWord(u, s[0]), n - 1);
    }
  }

  lemma CountOfSome(u: Unicode, s: string, before: bool, n: nat, j: nat)
    requires j < n <= |s| && MatchesAt(u, s, j, before)
    ensures Count(u, s, before, n) >= 1
  {
    hide IsMatch;
    CountSplits(u, s, before, j, n - j);
  }

  lemma CountContext(u: Unicode, s: string, b: bool, c: bool)
    requires b == c || s == "" || !IsKeyChar(s[0])
    ensures Count(u, s, b, |s|) == Count(u, s, c, |s|)
  {
    hide IsMatch;
    if s != "" && !IsKeyChar(s[0]) {
      NoMatchAt(u, s, 0, b);
      NoMatchAt(u, s, 0, c);
      assert s[0..] == s;
    }
  }

  /** How many leading characters of a rest the redaction certainly keeps: through its first prefix. */
  function Kept(u: Unicode, rest: string, b: bool): nat {
    match FirstAssignment(u, rest, b)
    case None => |rest|
    case Some(a) => a.prefix.end
  }

  lemma KeptAgrees(u: Unicode, rest: string, b: bool)
    ensures var n := Kept(u, rest, b); var x := Redact(u, rest, b);
      && n <= |rest| && n <= |x| && rest[..n] == x[..n]
      && (x == rest || exists o | 0 <= o < n :: IsOperator(x[o]))
  {
    hide FirstAssignment, Redact, IsMatch, IsPrefix, Find;
    RedactKeepsPrefix(u, rest, b);
    RedactUnfolds(u, rest, b);
    if FirstAssignment(u, rest, b).Some? {
      AssignmentOf(u, rest, b);
      FindIsLeftmost(u, rest, b);
      var a := FirstAssignment(u, rest, b).value;
      var o := PrefixShape(u, rest, a.prefix, b);
      var x := Redact(u, rest, b);
      assert x[o] == x[..a.prefix.end][o] == rest[..a.prefix.end][o] == rest[o];
    }
  }

  /** Prefixes that start before the value start there before redaction too. */
  lemma CountBeforeValue(u: Unicode, s: string, before: bool, t: string)
    requires FirstAssignment(u, s, before).Some?
    requires var e := FirstAssignment(u, s, before).value.prefix.end;
      e <= |s| && e <= |t| && s[..e] == t[..e] && Find(u, t, before) == Find(u, s, before)
    ensures var e := FirstAssignment(u, s, before).value.prefix.end; Count(u, t, before, e) <= Count(u, s, before, e)
  {
    hide IsMatch, Find, FirstAssignment, Count, IsPrefix;
    AssignmentOf(u, s, before);
    var f := FirstAssignment(u, s, before).value.prefix;
    FindIsLeftmost(u, t, before);
    var o := PrefixShape(u, t, f, before);
    forall j | 0 <= j < f.end
      ensures MatchesAt(u, t, j, before) ==> MatchesAt(u, s, j, before)
    {
      if MatchesAt(u, t, j, before) {
        if j <= o {
          MatchSurvives(u, t, s, f.end, j, before);
        } else {
          SpaceIsNoKeyChar(u, t[j]);
          NoMatchAt(u, t, j, before);
        }
      }
    }
    CountIsMonotone(u, t, s, before, before, f.end);
  }

  /** A value holds no fewer prefixes than its rewriting. */
  lemma CountInValue(u: Unicode, v: Scanned, rest: string, x: string, n: nat, b: bool)
    requires v.full != "" && Scan(v.full + rest) == Some(v) && !IsSpace(u, v.full[0])
    requires n <= |rest| && n <= |x| && rest[..n] == x[..n] && (x == rest || exists o | 0 <= o < n :: IsOperator(x[o]))
    ensures Count(u, Rewritten(u, v) + x, b, |Rewritten(u, v)|) <= Count(u, v.full + rest, b, |v.full|)
  {
    hide IsMatch, Scan, Skippable, Count;
    var r := Rewritten(u, v);
    if Skippable(u, v.inner) {
      var s, t := v.full + rest, r + x;
      if x != rest {
        var o :| 0 <= o < n && IsOperator(x[o]);
        assert t[|r| + o] == x[o];
        assert t[..|r| + n] == r + x[..n] == s[..|r| + n];
        forall j | 0 <= j < |r|
          ensures MatchesAt(u, t, j, b) ==> MatchesAt(u, s, j, b)
        {
          if MatchesAt(u, t, j, b) {
            assert IsOperator(t[|r| + o]);
            MatchSurvives(u, t, s, |r| + n, j, b);
          }
        }
      }
      CountIsMonotone(u, t, s, b, b, |r|);
    } else {
      CountInRewritten(u, v, rest, x, b);
    }
  }

  /** No prefix starts inside a replaced value. */
  lemma CountInRewritten(u: Unicode, v: Scanned, rest: string, x: string, b: bool)
    requires v.full != "" && Scan(v.full + rest) == Some(v) && !Skippable(u, v.inner)
    ensures Count(u, Rewritten(u, v) + x, b, |Rewritten(u, v)|) == 0
  {
    hide IsMatch, Scan, Skippable, Count;
    RewrittenShape(u, v, rest);
    var r := Rewritten(u, v);
    var t := r + x;
    var open := if IsQuote(v.full[0]) then [v.full[0]] else "";
    assert t == open + TOKEN + (Close(v) + x) by {
      assert r == open + TOKEN + Close(v);
    }
    forall j | 0 <= j < |r|
      ensures !MatchesAt(u, t, j, b)
    {
      if |open| <= j < |open| + |TOKEN| {
        TokenHidesNothing(u, open, Close(v) + x, j, b);
      } else {
        assert IsQuote(t[j]);
        NoMatchAt(u, t, j, b);
      }
    }
    CountOfNone(u, t, b, |r|);
  }

  /** Redaction creates no prefix. */
  lemma {:induction false} RedactionCreatesNoPrefix(u: Unicode, s: string, before: bool)
    ensures var t := Redact(u, s, before); Count(u, t, before, |t|) <= Count(u, s, before, |s|)
    decreases |s|
  {
    hide IsMatch, Scan, Count, Redact, Rewritten, Find, FirstAssignment, IsWord, IsKeyChar, IsSpace;
    RedactUnfolds(u, s, before);
    if FirstAssignment(u, s, before).Some? {
      var a := FirstAssignment(u, s, before).value;
      var b := EndsInWord(u, a);
      var r, x := Rewritten(u, a.value), Redact(u, a.rest, b);
      var t := s[..a.prefix.end] + r + x;
      AssignmentOf(u, s, before);
      PrefixFoundAgain(u, s, before, x);
      SlicePrefix(s[..a.prefix.end], r + x);
      assert s[..a.prefix.end] + (r + x) == t;
      CountBeforeValue(u, s, before, t);
      KeptAgrees(u, a.rest, b);
      var c := WordBefore(u, s, a.prefix.end, before);
      CountInValue(u, a.value, a.rest, x, Kept(u, a.rest, b), c);
      RedactionCreatesNoPrefix(u, a.rest, b);
      SameContext(u, a.value, a.rest);
      CountThree(u, s[..a.prefix.end], a.value.full, a.rest, before);
      CountThree(u, s[..a.prefix.end], r, x, before);
      RedactKeepsPrefix(u, a.rest, b);
      CountContext(u, x, b, IsWord(u, r[|r| - 1]));
    }
  }

  lemma CountThree(u: Unicode, p: string, v: string, x: string, before: bool)
    requires p != "" && v != ""
    ensures var s := p + (v + x);
      Count(u, s, before, |s|) == Count(u, s, before, |p|) + Count(u, v + x, IsWord(u, p[|p| - 1]), |v|)
                                  + Count(u, x, IsWord(u, v[|v| - 1]), |x|)
  {
    hide Count;
    var s := p + (v + x);
    CountSplits(u, s, before, |p|, |v| + |x|);
    SlicePrefix(p, v + x);
    CountSplits(u, v + x, IsWord(u, p[|p| - 1]), |v|, |x|);
    SlicePrefix(v, x);
  }

  // ----- An overturned close -----

  /** The close of a value is overturned by the rewriting of the text behind it. */
  predicate Overturned(u: Unicode, v: Scanned, rest: string) {
    && v.closed && v.full != "" && Scan(v.full + rest) == Some(v) && IsQuote(v.full[0])
    && !ClosesHere(Redact(u, rest, IsWord(u, v.full[|v.full| - 1])), v.full[0])
  }

  /** Then the next prefix stands on the run of text behind the quote that the lookahead reads. */
  lemma OverturnedByNextPrefix(u: Unicode, v: Scanned, rest: string)
    requires Overturned(u, v, rest)
    ensures var x := Redact(u, rest, false);
      && !IsWord(u, v.full[0]) && IsWord(u, v.full[|v.full| - 1]) == false
      && FirstAssignment(u, rest, false).Some?
      && var n := FirstAssignment(u, rest, false).value.prefix.end;
      && 0 < n <= |x| && n <= |rest| && x[..n] == rest[..n]
      && (forall i | 0 <= i < n :: x[i] != v.full[0] && x[i] != '\n')
      && !ClosesHere(x, v.full[0])
  {
    hide FirstAssignment, Redact, Scan, LookaheadCloses;
    var q := v.full[0];
    QuotedShape(v, rest);
    QuotedEnd(v, rest);
    assert v.full[|v.full| - 1] == q;
    RedactKeepsPrefix(u, rest, false);
    var x := Redact(u, rest, false);
    if FirstAssignment(u, rest, false).Some? {
      VerdictsDifferLate(x, rest, FirstAssignment(u, rest, false).value.prefix.end, q);
    }
  }

  /** A second scan of such a value swallows the next prefix, ... */
  lemma OverturnedScan(u: Unicode, v: Scanned, rest: string) returns (w: Scanned, m: nat)
    requires Overturned(u, v, rest)
    ensures var x := Redact(u, rest, false); var r := Rewritten(u, v);
      && Scan(r + x) == Some(w) && w.full != "" && w.quote == Some(v.full[0])
      && FirstAssignment(u, rest, false).Some?
      && FirstAssignment(u, rest, false).value.prefix.end <= m <= |x|
      && w.inner == Middle(u, v) + [v.full[0]] + x[..m] && r + x[..m] <= w.full
  {
    hide FirstAssignment, Redact, QuotedExtent, LookaheadCloses, Rewritten;
    OverturnedByNextPrefix(u, v, rest);
    RewrittenShape(u, v, rest);
    var x, r, q, mid := Redact(u, rest, false), Rewritten(u, v), v.full[0], Middle(u, v);
    var n := FirstAssignment(u, rest, false).value.prefix.end;
    QuotedShape(v, rest);
    InsideRescans(mid, v, rest, x);
    ReachOpens(q, x, n);
    m := QuotedExtent(x, q).len;
    ScanThrough(q, mid, x);
    w := Scan([q] + mid + [q] + x).value;
  }

  /** A value scanned on through a quote in its middle. */
  lemma ScanThrough(q: char, mid: string, x: string)
    requires IsQuote(q) && QuotedExtent(mid + ([q] + x), q) == Beyond(|mid| + 1, QuotedExtent(x, q))
    ensures var s := [q] + mid + [q] + x; var m := QuotedExtent(x, q).len;
      && Scan(s).Some? && Scan(s).value.quote == Some(q)
      && Scan(s).value.inner == mid + [q] + x[..m] && [q] + mid + [q] + x[..m] <= Scan(s).value.full
  {
    SlicesThrough(q, mid, x, QuotedExtent(x, q).len);
    hide QuotedExtent;
  }

  lemma SlicesThrough(q: char, mid: string, x: string, m: nat)
    requires m <= |x|
    ensures var s := [q] + mid + [q] + x;
      && s[0] == q && s[1..] == mid + ([q] + x)
      && s[1..2 + |mid| + m] == mid + [q] + x[..m]
      && s[..2 + |mid| + m] == [q] + mid + [q] + x[..m]
  {
  }

  lemma ReachOpens(q: char, x: string, n: nat)
    requires IsQuote(q) && n <= |x| && !ClosesHere(x, q) && (forall i | 0 <= i < n :: x[i] != q && x[i] != '\n')
    requires n > 0
    ensures QuotedExtent([q] + x, q) == Beyond(1, QuotedExtent(x, q)) && QuotedExtent(x, q).len >= n
  {
    hide LookaheadCloses;
    assert ([q] + x)[1..] == x;
    ValueReaches(x, n, q);
  }

  /** ... so it is replaced, ... */
  lemma SwallowedPrefix(u: Unicode, v: Scanned, rest: string, w: Scanned, m: nat)
    requires Overturned(u, v, rest)
    requires var x := Redact(u, rest, false);
      && FirstAssignment(u, rest, false).Some? && FirstAssignment(u, rest, false).value.prefix.end <= m <= |x|
      && w.inner == Middle(u, v) + [v.full[0]] + x[..m]
    ensures !Skippable(u, w.inner)
    ensures MatchesAt(u, Redact(u, rest, false), FirstAssignment(u, rest, false).value.prefix.start, false)
  {
    hide FirstAssignment, Redact, IsMatch, Find, Scan, LookaheadCloses, MatchesAt, IsWord, Skippable;
    OverturnedByNextPrefix(u, v, rest);
    AssignmentOf(u, rest, false);
    FindIsLeftmost(u, rest, false);
    var x, f := Redact(u, rest, false), FirstAssignment(u, rest, false).value.prefix;
    var o := PrefixShape(u, rest, f, false);
    assert x[..m][..f.end] == x[..f.end] == rest[..f.end];
    MatchSurvives(u, rest, x, f.end, f.start, false);
    MatchSurvives(u, rest, x[..m], f.end, f.start, false);
    NestedBehind(u, Middle(u, v) + [v.full[0]], x[..m], f.start);
  }

  /** A prefix behind anything that does not end in a word character is a nested prefix. */
  lemma NestedBehind(u: Unicode, p: string, y: string, j: nat)
    requires p != "" && !IsWord(u, p[|p| - 1]) && j <= |y| && MatchesAt(u, y, j, false)
    ensures ContainsNestedSecretKey(u, p + y) && !Skippable(u, p + y)
  {
    hide IsMatch, Find, IsPlaceholder;
    SlicePrefix(p, y);
    SuffixPositions(u, p + y, |p|, false);
    assert MatchesAt(u, p + y, |p| + j, false);
    FindIsLeftmost(u, p + y, false);
  }

  /** The second pass finds the first prefix again, with the value it scans now. */
  lemma FoundWith(u: Unicode, s: string, before: bool, a: Assignment, x: string, w: Scanned)
    requires FirstAssignment(u, s, before) == Some(a) && Scan(Rewritten(u, a.value) + x) == Some(w)
    ensures a.prefix.end <= |s| && |w.full| <= |Rewritten(u, a.value) + x|
    ensures FirstAssignment(u, s[..a.prefix.end] + Rewritten(u, a.value) + x, before)
         == Some(Assignment(a.prefix, w, (Rewritten(u, a.value) + x)[|w.full|..]))
  {
    hide Find, Scan, Rewritten, FirstAssignment;
    AssignmentOf(u, s, before);
    PrefixFoundAgain(u, s, before, x);
    FirstAssignmentIs(u, s[..a.prefix.end] + Rewritten(u, a.value) + x, before);
  }

  /** ... and with fewer prefixes left the text has changed. */
  lemma OverturnedChanges(u: Unicode, s: string, before: bool)
    requires FirstAssignment(u, s, before).Some?
    requires var a := FirstAssignment(u, s, before).value; Overturned(u, a.value, a.rest)
    ensures Redact(u, Redact(u, s, before), before) != Redact(u, s, before)
  {
    hide FirstAssignment, Redact, Find, Scan, Rewritten, Skippable, MatchesAt, IsWord;
    var a := FirstAssignment(u, s, before).value;
    var x, r := Redact(u, a.rest, false), Rewritten(u, a.value);
    var p := s[..a.prefix.end];
    var t := p + r + x;
    OverturnedByNextPrefix(u, a.value, a.rest);
    RedactUnfolds(u, s, before);
    assert t == Redact(u, s, before);
    var w, z := OverturnedShortens(u, a.value, a.rest);
    FoundWith(u, s, before, a, x, w);
    SlicePrefix(w.full, z);
    RedactUnfolds(u, t, before);
    assert t == p + (r + x) && t[..|p|] == p;
    var y := Rewritten(u, w) + Redact(u, z, IsWord(u, w.full[|w.full| - 1]));
    assert Redact(u, t, before) == p + y;
    assert (p + y)[|p|..] == y && (p + (r + x))[|p|..] == r + x;
  }

  /** The value scanned now, and that redacting it and what is behind it changes them. */
  lemma OverturnedShortens(u: Unicode, v: Scanned, rest: string) returns (w: Scanned, z: string)
    requires Overturned(u, v, rest)
    ensures var x, r := Redact(u, rest, false), Rewritten(u, v);
      && Scan(r + x) == Some(w) && w.full != "" && r + x == w.full + z
      && Rewritten(u, w) + Redact(u, z, IsWord(u, w.full[|w.full| - 1])) != r + x
  {
    hide FirstAssignment, Redact, Find, Scan, Rewritten, Skippable, MatchesAt, ClosesHere;
    var x, r := Redact(u, rest, false), Rewritten(u, v);
    OverturnedByNextPrefix(u, v, rest);
    var m;
    w, m := OverturnedScan(u, v, rest);
    SwallowedPrefix(u, v, rest, w, m);
    z := (r + x)[|w.full|..];
    assert r + x == w.full + z;
    var f := FirstAssignment(u, rest, false).value.prefix;
    AssignmentOf(u, rest, false);
    PrefixStands(u, v, rest, x, f.start, false);
    assert |r + x[..m]| <= |w.full|;
    FewerPrefixes(u, w, z, false, |r| + f.start);
  }

  lemma PrefixStands(u: Unicode, v: Scanned, rest: string, x: string, j: nat, c: bool)
    requires v.full != "" && Scan(v.full + rest) == Some(v) && v.closed && IsQuote(v.full[0])
    requires j <= |x| && MatchesAt(u, x, j, false)
    ensures MatchesAt(u, Rewritten(u, v) + x, |Rewritten(u, v)| + j, c)
  {
    hide IsMatch, Scan, Rewritten;
    RewrittenShape(u, v, rest);
    var r := Rewritten(u, v);
    assert r[|r| - 1] == v.full[0];
    SlicePrefix(r, x);
    SuffixPositions(u, r + x, |r|, c);
  }

  lemma FewerPrefixes(u: Unicode, w: Scanned, z: string, c: bool, j: nat)
    requires w.full != "" && Scan(w.full + z) == Some(w) && !Skippable(u, w.inner)
    requires j < |w.full| && MatchesAt(u, w.full + z, j, c)
    ensures Rewritten(u, w) + Redact(u, z, IsWord(u, w.full[|w.full| - 1])) != w.full + z
  {
    hide Redact, IsMatch, Scan, IsWord, Skippable, Rewritten, Count, MatchesAt, IsKeyChar;
    var b := IsWord(u, w.full[|w.full| - 1]);
    var r, y := Rewritten(u, w), Redact(u, z, b);
    CountOfSome(u, w.full + z, c, |w.full|, j);
    CountSplits(u, w.full + z, c, |w.full|, |z|);
    SlicePrefix(w.full, z);
    assert Count(u, w.full + z, c, |w.full + z|) >= 1 + Count(u, z, b, |z|);
    CountAfterRewriting(u, w, z, c);
    RedactionCreatesNoPrefix(u, z, b);
  }

  lemma CountAfterRewriting(u: Unicode, w: Scanned, z: string, c: bool)
    requires w.full != "" && Scan(w.full + z) == Some(w) && !Skippable(u, w.inner)
    ensures var b := IsWord(u, w.full[|w.full| - 1]);
      var r, y := Rewritten(u, w), Redact(u, z, b);
      Count(u, r + y, c, |r + y|) == Count(u, y, b, |y|)
  {
    hide Redact, IsMatch, Scan, IsWord, Skippable, Rewritten, Count, MatchesAt, IsKeyChar;
    var b := IsWord(u, w.full[|w.full| - 1]);
    var r, y := Rewritten(u, w), Redact(u, z, b);
    CountInRewritten(u, w, z, y, c);
    CountSplits(u, r + y, c, |r|, |y|);
    SlicePrefix(r, y);
    SameContext(u, w, z);
    RedactKeepsPrefix(u, z, b);
    CountContext(u, y, b, IsWord(u, r[|r| - 1]));
  }

  lemma {:induction false} DisturbedChanges(u: Unicode, s: string, before: bool)
    requires !Undisturbed(u, s, before)
    ensures Redact(u, Redact(u, s, before), before) != Redact(u, s, before)
    decreases |s|
  {
    hide Find, Scan, Rewritten, Redact, ClosesHere, FirstAssignment;
    var a := FirstAssignment(u, s, before).value;
    AssignmentOf(u, s, before);
    if a.value.closed ==> a.value.quote.Some? && ClosesHere(Redact(u, a.rest, EndsInWord(u, a)), a.value.quote.value) {
      FirstAgain(u, s, before);
      DisturbedChanges(u, a.rest, EndsInWord(u, a));
      var x := Redact(u, a.rest, EndsInWord(u, a));
      SlicePrefix(s[..a.prefix.end] + Rewritten(u, a.value), x);
      SlicePrefix(s[..a.prefix.end] + Rewritten(u, a.value), Redact(u, x, EndsInWord(u, a)));
    } else {
      ClosedIsQuoted(a.value, a.rest);
      OverturnedChanges(u, s, before);
    }
  }

  lemma ClosedIsQuoted(v: Scanned, rest: string)
    requires v.full != "" && Scan(v.full + rest) == Some(v) && v.closed
    ensures IsQuote(v.full[0]) && v.quote == Some(v.full[0])
  {
    assert (v.full + rest)[0] == v.full[0];
  }

  /**
   A second redaction changes nothing exactly when, behind every closed value, the text still
   lets the quote close once it is rewritten.
   */
  lemma IdempotentIffSettled(u: Unicode, text: string)
    ensures Redact(u, Redact(u, text, false), false) == Redact(u, text, false) <==> Settled(u, text, false)
  {
    hide Settled, Undisturbed, Redact;
    SettledIsUndisturbed(u, text, false);
    if Undisturbed(u, text, false) {
      UndisturbedIsIdempotent(u, text, false);
    } else {
      DisturbedChanges(u, text, false);
    }
  }

  /** A newline stands between each value and the next prefix. */
  predicate NewlineSeparated(u: Unicode, s: string, before: bool)
    decreases |s|
  {
    match FirstAssignment(u, s, before)
    case None => true
    case Some(a) =>
      && (match FirstAssignment(u, a.rest, EndsInWord(u, a))
          case None => true
          case Some(next) => next.prefix.start <= |a.rest| && '\n' in a.rest[..next.prefix.start])
      && NewlineSeparated(u, a.rest, EndsInWord(u, a))
  }

  lemma {:induction false} NewlineSeparatedIsUndisturbed(u: Unicode, s: string, before: bool)
    requires NewlineSeparated(u, s, before)
    ensures Undisturbed(u, s, before)
    decreases |s|
  {
    hide Find, Scan, Rewritten, Redact, ClosesHere, FirstAssignment;
    if FirstAssignment(u, s, before).Some? {
      var a := FirstAssignment(u, s, before).value;
      var b := EndsInWord(u, a);
      AssignmentOf(u, s, before);
      NewlineSeparatedIsUndisturbed(u, a.rest, b);
      RedactKeepsPrefix(u, a.rest, b);
      if a.value.closed {
        ClosedIsQuoted(a.value, a.rest);
        QuotedEnd(a.value, a.rest);
        if FirstAssignment(u, a.rest, b).Some? {
          var f := FirstAssignment(u, a.rest, b).value.prefix;
          AssignmentOf(u, a.rest, b);
          CloseKept(a.rest, Redact(u, a.rest, b), f.start, f.end, a.value.full[0]);
        }
      }
    }
  }

  lemma CloseKept(rest: string, x: string, n: nat, e: nat, quote: char)
    requires n <= e <= |rest| && e <= |x| && rest[..e] == x[..e] && '\n' in rest[..n]
    ensures ClosesHere(rest, quote) == ClosesHere(x, quote)
  {
    assert rest[..n] == rest[..e][..n] == x[..e][..n] == x[..n];
    assert rest[0] == rest[..n][0] && x[0] == x[..n][0];
    LookaheadStaysOnLine(rest, x, n, quote);
  }

  /** On newline-separated assignments redaction is idempotent. */
  lemma NewlineSeparatedIsIdempotent(u: Unicode, text: string)
    requires NewlineSeparated(u, text, false)
    ensures Redact(u, Redact(u, text, false), false) == Redact(u, text, false)
  {
    NewlineSeparatedIsUndisturbed(u, text, false);
    UndisturbedIsIdempotent(u, text, false);
  }
}
