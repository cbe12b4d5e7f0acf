/**
 The rule by which values are redacted, written out: a value is replaced when it has eight
 bytes or more and is no placeholder, or when it holds a further key and operator. What is
 replaced are the values behind the prefixes, and nothing else.
 */
module RedactionRule {
  import opened Options
  import opened AsciiText
  import opened SecretPrefix
  import opened KeyGrammar
  import opened PrefixSearch
  import opened ValueScanner
  import opened Redactor
  import opened RedactionSettles
  import opened RedactionSpans

  // ----- The rule -----

  /** The length in UTF-8: one byte for each character, and one more from each of three code points on. */
  function Utf8Bytes(s: string): nat {
    |s| + From(s, 0x80) + From(s, 0x800) + From(s, 0x10000)
  }

  /** How many characters lie at a code point or behind it. */
  function From(s: string, code: int): nat {
    if s == "" then 0 else From(s[..|s| - 1], code) + if s[|s| - 1] as int >= code then 1 else 0
  }

  lemma {:induction false} FromStep(s: string, code: int)
    requires s != ""
    ensures From(s, code) == From(s[1..], code) + if s[0] as int >= code then 1 else 0
  {
    if |s| > 1 {
      FromStep(s[..|s| - 1], code);
      assert s[1..][..|s| - 2] == s[..|s| - 1][1..];
    } else {
      assert s[..0] == s[1..] == "";
    }
  }

  lemma {:induction false} BytesAgree(s: string)
    ensures ByteLength(s) == Utf8Bytes(s)
  {
    if s != "" {
      BytesAgree(s[1..]);
      FromStep(s, 0x80);
      FromStep(s, 0x800);
      FromStep(s, 0x10000);
    }
  }

  /** The shapes of a placeholder: a telling beginning, brackets, a literal, one character repeated, a redaction. */
  ghost predicate Placeholder(value: string) {
    var v := Lower(value);
    || "your" <= v || "my-" <= v || "the-" <= v || "example" <= v || "changeme" <= v
    || "placeholder" <= v || "dummy" <= v || "test" <= v || "sample" <= v || "xxx" <= v
    || (v != "" && v[0] == '<' && v[|v| - 1] == '>')
    || (v != "" && "${" <= v && v[|v| - 1] == '}')
    || (|v| >= 2 && v[..2] == "{{" && v[|v| - 2..] == "}}")
    || v in ["null", "nil", "none", "true", "false"]
    || (value != "" && forall i | 0 <= i < |value| :: value[i] == value[0])
    || exists word :: value == "[REDACTED:" + word + "]" && ']' !in word
  }

  lemma TokenAgrees(value: string)
    ensures IsExactRedactedToken(value) <==> exists word :: value == "[REDACTED:" + word + "]" && ']' !in word
  {
    var head := "[REDACTED:";
    if IsExactRedactedToken(value) {
      var inner := value[|head|..];
      var word := inner[..|inner| - 1];
      assert value == head + inner && inner == word + "]";
      assert value == head + word + "]";
    }
    if word :| value == head + word + "]" && ']' !in word {
      assert value == head + (word + "]");
      assert value[|head|..] == word + "]";
      assert (word + "]")[..|word|] == word;
    }
  }

  lemma PrefixesAgree(v: string)
    ensures (exists i | 0 <= i < |PLACEHOLDER_PREFIXES| :: PLACEHOLDER_PREFIXES[i] <= v) <==>
      || "your" <= v || "my-" <= v || "the-" <= v || "example" <= v || "changeme" <= v
      || "placeholder" <= v || "dummy" <= v || "test" <= v || "sample" <= v || "xxx" <= v
  {
    var p := PLACEHOLDER_PREFIXES;
    assert |p| == 10 && p[0] == "your" && p[1] == "my-" && p[2] == "the-" && p[3] == "example" && p[4] == "changeme"
        && p[5] == "placeholder" && p[6] == "dummy" && p[7] == "test" && p[8] == "sample" && p[9] == "xxx";
  }

  lemma BracketsAgree(v: string)
    ensures "<" <= v && EndsWith(v, ">") <==> v != "" && v[0] == '<' && v[|v| - 1] == '>'
    ensures "${" <= v && EndsWith(v, "}") <==> v != "" && "${" <= v && v[|v| - 1] == '}'
    ensures "{{" <= v && EndsWith(v, "}}") <==> |v| >= 2 && v[..2] == "{{" && v[|v| - 2..] == "}}"
  {
    hide EndsWith;
    AngleAgrees(v);
    BraceAgrees(v);
    BracesAgree(v);
  }

  lemma AngleAgrees(v: string)
    ensures "<" <= v && EndsWith(v, ">") <==> v != "" && v[0] == '<' && v[|v| - 1] == '>'
  {
    if v != "" {
      assert v[|v| - 1..] == [v[|v| - 1]];
    }
  }

  lemma BraceAgrees(v: string)
    ensures "${" <= v && EndsWith(v, "}") <==> v != "" && "${" <= v && v[|v| - 1] == '}'
  {
    if v != "" {
      assert v[|v| - 1..] == [v[|v| - 1]];
    }
  }

  lemma BracesAgree(v: string)
    ensures "{{" <= v && EndsWith(v, "}}") <==> |v| >= 2 && v[..2] == "{{" && v[|v| - 2..] == "}}"
  {
  }

  lemma LiteralsAgree(v: string)
    ensures v in LITERALS <==> v in ["null", "nil", "none", "true", "false"]
  {
  }

  lemma PlaceholderAgrees(value: string)
    ensures IsPlaceholder(value) <==> Placeholder(value)
  {
    hide IsExactRedactedToken, EndsWith, Lower, LITERALS, PLACEHOLDER_PREFIXES;
    LiteralsAgree(Lower(value));
    TokenAgrees(value);
    PrefixesAgree(Lower(value));
    BracketsAgree(Lower(value));
  }

  /** A further key and operator stand in the value. */
  ghost predicate NestedKey(u: Unicode, value: string) {
    exists j, k, o :: 0 <= j <= |value| && KeyAndOperator(u, value[j..], WordBefore(u, value, j, false), k, o)
  }

  lemma NestedAgrees(u: Unicode, value: string)
    ensures ContainsNestedSecretKey(u, value) <==> NestedKey(u, value)
  {
    hide Find, IsMatch, KeyAndOperator;
    FindNoneIff(u, value, false);
    if ContainsNestedSecretKey(u, value) {
      var j :| 0 <= j <= |value| && MatchesAt(u, value, j, false);
      MatchIsKeyAndOperator(u, value[j..], WordBefore(u, value, j, false));
    }
    if NestedKey(u, value) {
      var j, k, o :| 0 <= j <= |value| && KeyAndOperator(u, value[j..], WordBefore(u, value, j, false), k, o);
      MatchIsKeyAndOperator(u, value[j..], WordBefore(u, value, j, false));
      assert MatchesAt(u, value, j, false);
    }
  }

  /** A value that must not be shown. */
  ghost predicate Secret(u: Unicode, inner: string) {
    (Utf8Bytes(inner) >= 8 && !Placeholder(inner)) || NestedKey(u, inner)
  }

  /** What stands in the output for a value: the token in the value's quotes, or the value itself. */
  ghost function Shown(u: Unicode, v: Scanned): string {
    if !Secret(u, v.inner) then v.full
    else if v.quote.None? then "[REDACTED:SECRET]"
    else if v.closed then [v.quote.value] + "[REDACTED:SECRET]" + [v.quote.value]
    else [v.quote.value] + "[REDACTED:SECRET]"
  }

  lemma RuleAgrees(u: Unicode, v: Scanned)
    ensures Rewritten(u, v) == Shown(u, v)
  {
    hide IsPlaceholder, Placeholder, ContainsNestedSecretKey, NestedKey, ByteLength, Utf8Bytes;
    BytesAgree(v.inner);
    PlaceholderAgrees(v.inner);
    NestedAgrees(u, v.inner);
  }

  // ----- The whole text -----

  /** The span is the value behind some prefix, shown by the rule. */
  ghost predicate OfPrefix(u: Unicode, text: string, x: Span) {
    exists j, v ::
      && 0 <= j <= |text| && MatchesAt(u, text, j, false) && PrefixEnd(u, text, j, false) == x.start <= |text|
      && Scan(text[x.start..]) == Some(v) && x == Span(x.start, x.start + |v.full|, Shown(u, v))
  }

  lemma FirstIsOfPrefix(u: Unicode, text: string, at: nat)
    requires at <= |text| && FirstAssignment(u, text[at..], WordBefore(u, text, at, false)).Some?
    ensures var a := FirstAssignment(u, text[at..], WordBefore(u, text, at, false)).value;
      var start := at + a.prefix.end;
      OfPrefix(u, text, Span(start, start + |a.value.full|, Rewritten(u, a.value)))
  {
    hide FirstAssignment, Scan, Rewritten, Shown, Find, MatchesAt, KeyAt, OperatorEnd, WordBefore;
    var b := WordBefore(u, text, at, false);
    var a := FirstAssignment(u, text[at..], b).value;
    FirstValue(u, text, at, b);
    FindFrom(u, text, at, false);
    RuleAgrees(u, a.value);
    var f := Prefix(at + a.prefix.start, at + a.prefix.keyEnd, at + a.prefix.end);
    PrefixEndIs(u, text, f);
    var x := Span(f.end, f.end + |a.value.full|, Shown(u, a.value));
    assert MatchesAt(u, text, f.start, false) && PrefixEnd(u, text, f.start, false) == x.start;
  }

  lemma PrefixEndIs(u: Unicode, text: string, f: Prefix)
    requires IsPrefix(u, text, f, false)
    ensures f.start <= |text| && MatchesAt(u, text, f.start, false) && PrefixEnd(u, text, f.start, false) == f.end
  {
    hide MatchesAt, KeyAt, OperatorEnd, WordBefore;
  }

  lemma {:induction false} SpansAreOfPrefixes(u: Unicode, text: string, at: nat)
    requires at <= |text|
    ensures forall x | x in Spans(u, text[at..], WordBefore(u, text, at, false), at) :: OfPrefix(u, text, x)
    decreases |text| - at
  {
    hide FirstAssignment, Rewritten, Spans, OfPrefix, WordBefore, EndsInWord;
    var b := WordBefore(u, text, at, false);
    SpansUnfold(u, text[at..], b, at);
    if FirstAssignment(u, text[at..], b).Some? {
      var a := FirstAssignment(u, text[at..], b).value;
      RestIsLater(u, text, at, b);
      FirstIsOfPrefix(u, text, at);
      SpansAreOfPrefixes(u, text, at + a.prefix.end + |a.value.full|);
    }
  }

  /** The prefix at `j` lies inside a value, has nothing behind it, or has its whole value shown by the rule. */
  ghost predicate ShownByRule(u: Unicode, text: string, spans: seq<Span>, j: nat)
    requires j <= |text| && MatchesAt(u, text, j, false)
  {
    var e := PrefixEnd(u, text, j, false);
    || RedactionSpans.Inside(spans, j) || e == |text|
    || exists v :: Scan(text[e..]) == Some(v) && Span(e, e + |v.full|, Shown(u, v)) in spans
  }

  lemma AnsweredIsShown(u: Unicode, text: string, spans: seq<Span>, j: nat)
    requires j <= |text| && MatchesAt(u, text, j, false) && Answered(u, text, spans, j)
    ensures ShownByRule(u, text, spans, j)
  {
    hide Scan, Rewritten, Shown, MatchesAt, PrefixEnd;
    var e := PrefixEnd(u, text, j, false);
    if Scan(text[e..]).Some? {
      RuleAgrees(u, Scan(text[e..]).value);
    }
  }

  /**
   The redacted text is the text with some spans replaced, in order and apart from one another.
   Every prefix has its value shown by the rule, unless it lies in a value itself, and every
   span is such a value.
   */
  lemma TextIsRedactedByRule(u: Unicode, text: string)
    ensures var spans := Spans(u, text, false, 0);
      && Ordered(text, spans, 0) && Redact(u, text, false) == Splice(text, spans, 0)
      && (forall j | 0 <= j <= |text| && MatchesAt(u, text, j, false) :: ShownByRule(u, text, spans, j))
      && forall x | x in spans :: OfPrefix(u, text, x)
  {
    hide IsMatch, Spans, Redact, Splice, Answered, ShownByRule, OfPrefix;
    assert text[0..] == text;
    RedactionReplacesValues(u, text);
    SpansAreOfPrefixes(u, text, 0);
    forall j | 0 <= j <= |text| && MatchesAt(u, text, j, false)
      ensures ShownByRule(u, text, Spans(u, text, false, 0), j)
    {
      AnsweredIsShown(u, text, Spans(u, text, false, 0), j);
    }
  }
}
