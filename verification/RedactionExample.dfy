/** Two assignments on one line, which a second redaction rewrites again. */
module RedactionExample {
  import opened Options
  import opened SecretPrefix
  import opened PrefixSearch
  import opened ValueScanner
  import opened AsciiText
  import opened ScannerLemmas
  import opened Redactor
  import opened RedactionSettles

  lemma {:induction false} FirstKeyIs(u: Unicode, keys: seq<Key>, i: nat, s: string, before: bool)
    requires i < |keys| && KeyMatches(u, keys[i], s, before)
    requires forall j | 0 <= j < i :: !KeyMatches(u, keys[j], s, before)
    ensures FirstKey(u, keys, s, before) == KeyLength(keys[i], s)
  {
    hide KeyMatches, KeyLength;
    if i > 0 {
      FirstKeyIs(u, keys[1..], i - 1, s, before);
    }
  }

  lemma OtherLetterNoMatch(u: Unicode, key: Key, s: string, before: bool)
    requires s != "" && WellFormedKey(key) && Fold(s[0]) != (if key.Plain? then key.word else key.head)[0]
    ensures !KeyMatches(u, key, s, before)
  {
  }

  lemma TokenPrefix(u: Unicode, y: string)
    requires y != "" && !IsSpace(u, y[0])
    ensures Find(u, "token=" + y, false) == Some(Prefix(0, 5, 6)) && ("token=" + y)[6..] == y
  {
    hide KeyMatches, KeyLength, OperatorEnd;
    var s := "token=" + y;
    assert s[6..] == y;
    KeysWellFormed();
    forall j | 0 <= j < 8
      ensures !KeyMatches(u, KEYS[j], s, false)
    {
      assert Fold(s[0]) == 't';
      OtherLetterNoMatch(u, KEYS[j], s, false);
    }
    TokenKeyMatches(u, y);
    FirstKeyIs(u, KEYS, 8, s, false);
  }

  lemma TokenKeyMatches(u: Unicode, y: string)
    requires y != "" && !IsSpace(u, y[0])
    ensures var s := "token=" + y;
      KeyMatches(u, Plain("token"), s, false) && KeyLength(Plain("token"), s) == 5 && OperatorEnd(u, s, 5) == 6
  {
    var s := "token=" + y;
    assert forall i | 0 <= i < 5 :: s[i] == "token"[i];
    assert s[5] == '=' && s[5..][0] == '=';
    SpaceRunIsLocal(u, s[5..], 0);
    assert s[6..] == y;
    SpaceRunIsLocal(u, s[6..], 0);
  }

  lemma SemicolonSkipped(u: Unicode, s: string, before: bool)
    ensures Find(u, ";" + s, before) == Shifted(1, Find(u, s, false))
  {
    hide KeyAt, Find;
    var t := ";" + s;
    assert t[0..] == t && t[1..] == s;
    NoMatchAt(u, t, 0, before);
    FindUnfolds(u, t, before);
  }

  lemma FindUnfolds(u: Unicode, s: string, before: bool)
    requires s != "" && !IsMatch(u, s, before)
    ensures Find(u, s, before) == Shifted(1, Find(u, s[1..], IsWord(u, s[0])))
  {
  }

  lemma NoOperatorNoPrefix(u: Unicode, s: string, before: bool)
    requires forall i | 0 <= i < |s| :: !IsOperator(s[i])
    ensures Find(u, s, before) == None
  {
    hide Find, IsMatch;
    FindIsLeftmost(u, s, before);
    if Find(u, s, before).Some? {
      var o := PrefixShape(u, s, Find(u, s, before).value, before);
    }
  }

  /** A quoted value without quotes, escapes or newlines in it scans to its closing quote. */
  lemma PlainQuotedScan(q: char, inner: string, after: string)
    requires IsQuote(q) && (forall i | 0 <= i < |inner| :: inner[i] != q && inner[i] != '\\' && inner[i] != '\n')
    requires ClosesHere(after, q) && (after == "" || after[0] != q)
    ensures Scan([q] + inner + [q] + after) == Some(Scanned([q] + inner + [q], inner, Some(q), true))
  {
    hide LookaheadCloses, QuotedExtent;
    PlainTextIsInside(inner, [q] + after, q);
    assert ([q] + after)[1..] == after;
    StepsAdd([q] + after, q);
    ScanOfQuoted(q, inner, [q], after, true);
  }

  const SECOND := "bbbb bbbb"

  lemma SecondAssignment(u: Unicode)
    ensures Redact(u, REST, false) == ";token=\"" + TOKEN + "\";'"
  {
    hide Find, Scan, LookaheadCloses, FirstAssignment, Skippable;
    var value := "\"" + SECOND + "\"" + ";'";
    var rest := ";" + ("token=" + value);
    TokenPrefix(u, value);
    SemicolonSkipped(u, "token=" + value, false);
    LookaheadPasses(";'", "", '"');
    assert ";'" + "" == ";'" && LookaheadCloses("", '"') by { EmptyCloses('"'); }
    PlainQuotedScan('"', SECOND, ";'");
    FirstAssignmentIs(u, rest, false);
    assert rest[7..] == value;
    SlicePrefix("\"" + SECOND + "\"", ";'");
    SecondIsSecret(u);
    RedactUnfolds(u, rest, false);
    NoOperatorNoPrefix(u, ";'", false);
    NoPrefixNoChange(u, ";'", false);
    assert rest[..7] == ";token=";
  }

  lemma EmptyCloses(q: char)
    ensures LookaheadCloses("", q)
  {
  }

  lemma NoPrefixNoChange(u: Unicode, s: string, before: bool)
    requires Find(u, s, before) == None
    ensures Redact(u, s, before) == s
  {
    hide Find;
  }

  lemma SecondIsSecret(u: Unicode)
    ensures !Skippable(u, SECOND)
  {
    hide Find, IsPlaceholder;
    assert ByteLength(SECOND) == 9 by { AsciiLength(SECOND); }
    SecondIsNoPlaceholder();
  }

  lemma SecondIsNoPlaceholder()
    ensures !IsPlaceholder(SECOND)
  {
    hide EndsWith;
    assert SECOND[4] != SECOND[0];
    var v := Lower(SECOND);
    assert v[0] == 'b' && |v| == 9;
    assert forall i | 0 <= i < |PLACEHOLDER_PREFIXES| :: PLACEHOLDER_PREFIXES[i][0] != 'b';
    assert forall i | 0 <= i < |LITERALS| :: |LITERALS[i]| != 9;
  }

  lemma {:induction false} AsciiLength(s: string)
    requires forall i | 0 <= i < |s| :: s[i] < 128 as char
    ensures ByteLength(s) == |s|
  {
    if s != "" {
      AsciiLength(s[1..]);
    }
  }

  const REST := ";" + ("token=" + ("\"" + SECOND + "\"" + ";'"))

  lemma FirstOfTwo(u: Unicode)
    ensures FirstAssignment(u, "token=" + ("'" + "a" + "'" + REST), false)
         == Some(Assignment(Prefix(0, 5, 6), Scanned("'" + "a" + "'", "a", Some('\''), true), REST))
  {
    hide Find, Scan, LookaheadCloses, FirstAssignment;
    var value := "'" + "a" + "'" + REST;
    TokenPrefix(u, value);
    assert REST == ";token=\"bbbb" + " bbbb\";'";
    LookaheadPasses(";token=\"bbbb", " bbbb\";'", '\'');
    SpaceCloses(" bbbb\";'", '\'');
    PlainQuotedScan('\'', "a", REST);
    FirstAssignmentIs(u, "token=" + value, false);
    SlicePrefix("'" + "a" + "'", REST);
  }

  lemma ExposedQuote()
    ensures !ClosesHere(";token=\"" + TOKEN + "\";'", '\'')
  {
    hide LookaheadCloses;
    var run := ";token=\"" + TOKEN + "\";";
    assert ";token=\"" + TOKEN + "\";'" == run + "'";
    LookaheadPasses(run, "'", '\'');
    QuoteDoesNotClose("'", '\'');
  }

  /** The second assignment's rewriting exposes a quote to the first one's lookahead. */
  lemma SharedLineIsNotIdempotent(u: Unicode)
    ensures var text := "token='a';token=\"bbbb bbbb\";'";
      Redact(u, Redact(u, text, false), false) != Redact(u, text, false)
  {
    hide FirstAssignment, Redact, ClosesHere, IsWord;
    var text := "token=" + ("'" + "a" + "'" + REST);
    TextParts();
    FirstOfTwo(u);
    SecondAssignment(u);
    ExposedQuote();
    QuoteIsNoWord(u);
    Reopened(u, text, FirstAssignment(u, text, false).value);
    IdempotentIffSettled(u, text);
  }

  lemma TextParts()
    ensures "token='a';token=\"bbbb bbbb\";'" == "token=" + ("'" + "a" + "'" + REST)
  {
    assert REST == ";token=\"bbbb bbbb\";'";
  }

  /** A closed value whose close does not stand in the rewritten text. */
  lemma Reopened(u: Unicode, text: string, a: Assignment)
    requires FirstAssignment(u, text, false) == Some(a) && a.value.closed && a.value.quote == Some('\'')
    requires !EndsInWord(u, a) && !ClosesHere(Redact(u, a.rest, false), '\'')
    ensures !Settled(u, text, false)
  {
    hide FirstAssignment, Redact, ClosesHere, IsWord, StaysClosed;
    StaysClosedIff(u, a.rest, false, '\'');
  }

  lemma QuoteIsNoWord(u: Unicode)
    ensures !IsWord(u, '\'')
  {
  }

  lemma SpaceCloses(s: string, q: char)
    requires s != "" && s[0] == ' '
    ensures LookaheadCloses(s, q)
  {
  }

  lemma QuoteDoesNotClose(s: string, q: char)
    requires s != "" && s[0] == q && IsQuote(q)
    ensures !LookaheadCloses(s, q)
  {
  }
}
