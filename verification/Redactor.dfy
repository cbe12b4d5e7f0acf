/**
 The generic assignment redaction of src/redactor.rs: the cursor-driven rewriting loop, its
 placeholder guard, and the recursive function that says what the loop computes.
 */
module Redactor {
  import opened Options
  import opened SecretPrefix
  import opened PrefixSearch
  import opened ValueScanner
  import opened AsciiText

  const TOKEN := "[REDACTED:SECRET]"

  const PLACEHOLDER_PREFIXES: seq<string> := [
    "your", "my-", "the-", "example", "changeme", "placeholder", "dummy", "test", "sample", "xxx"
  ]

  const LITERALS: seq<string> := ["null", "nil", "none", "true", "false"]

  /** Number of bytes in the UTF-8 encoding. */
  function ByteLength(s: string): nat {
    if s == "" then 0
    else
      var c := s[0] as int;
      (if c < 0x80 then 1 else if c < 0x800 then 2 else if c < 0x10000 then 3 else 4) + ByteLength(s[1..])
  }

  /** Exactly one `[REDACTED:LABEL]`, the first `]` being the last character. */
  predicate IsExactRedactedToken(value: string) {
    && "[REDACTED:" <= value
    && var inner := value[|"[REDACTED:"|..];
    inner != "" && inner[|inner| - 1] == ']' && ']' !in inner[..|inner| - 1]
  }

  predicate IsSingleRepeatedChar(value: string) {
    value != "" && forall i | 0 <= i < |value| :: value[i] == value[0]
  }

  predicate IsPlaceholder(value: string) {
    || IsExactRedactedToken(value)
    || var v := Lower(value);
    || (exists i | 0 <= i < |PLACEHOLDER_PREFIXES| :: PLACEHOLDER_PREFIXES[i] <= v)
    || ("<" <= v && EndsWith(v, ">")) || ("${" <= v && EndsWith(v, "}")) || ("{{" <= v && EndsWith(v, "}}"))
    || v in LITERALS
    || IsSingleRepeatedChar(value)
  }

  /** A further key and operator inside a value. */
  predicate ContainsNestedSecretKey(u: Unicode, span: string) {
    Find(u, span, false).Some?
  }

  /** May a value be left alone? */
  predicate Skippable(u: Unicode, inner: string) {
    (ByteLength(inner) < 8 || IsPlaceholder(inner)) && !ContainsNestedSecretKey(u, inner)
  }

  /** What is written in place of a delimited value. */
  function Rewritten(u: Unicode, v: Scanned): string {
    if Skippable(u, v.inner) then v.full
    else match v.quote
      case Some(q) => if v.closed then [q] + TOKEN + [q] else [q] + TOKEN
      case None => TOKEN
  }

  /** The first assignment in a text: its prefix, its value, and the text behind the value. */
  datatype Assignment = Assignment(prefix: Prefix, value: Scanned, rest: string)

  function FirstAssignment(u: Unicode, s: string, before: bool): (a: Option<Assignment>)
    ensures a.Some? ==>
      && a.value.prefix.end <= |s| && a.value.value.full != ""
      && s[a.value.prefix.end..] == a.value.value.full + a.value.rest
  {
    hide Find, Scan;
    match Find(u, s, before)
    case None => None
    case Some(f) =>
      var t := s[f.end..];
      match Scan(t)
      case None => None
      case Some(v) => Some(Assignment(f, v, t[|v.full|..]))
  }

  /** Whether a word character ends an assignment, and so precedes its rest. */
  predicate EndsInWord(u: Unicode, a: Assignment)
    requires a.value.full != ""
  {
    IsWord(u, a.value.full[|a.value.full| - 1])
  }

  /** The redacted text; `before` says whether a word character precedes `s`. */
  function Redact(u: Unicode, s: string, before: bool): string
    decreases |s|
  {
    match FirstAssignment(u, s, before)
    case None => s
    case Some(a) => s[..a.prefix.end] + Rewritten(u, a.value) + Redact(u, a.rest, EndsInWord(u, a))
  }

  /** A place behind a value: no key runs across it. */
  predicate Seam(text: string, cursor: nat)
    requires cursor <= |text|
  {
    cursor == 0 || cursor == |text| || IsAsciiWhitespace(text[cursor]) || IsQuote(text[cursor - 1])
  }

  /** A prefix that starts before a seam starts no other prefix between the seam and its own end. */
  lemma PrefixAcrossSeam(u: Unicode, text: string, cursor: nat, f: Prefix)
    requires cursor <= |text| && Seam(text, cursor)
    requires IsPrefix(u, text, f, false) && f.start < cursor
    ensures f.end <= |text| && forall j | cursor <= j < f.end :: !MatchesAt(u, text, j, false)
  {
    hide KeyAt, OperatorEnd, IsMatch;
    var o := PrefixShape(u, text, f, false);
    assert !(cursor < f.keyEnd) by {
      assert forall i | f.start <= i < f.keyEnd :: !IsAsciiWhitespace(text[i]) && !IsQuote(text[i]);
    }
    forall j | cursor <= j < f.end
      ensures !MatchesAt(u, text, j, false)
    {
      if IsSpace(u, text[j]) {
        SpaceIsNoKeyChar(u, text[j]);
      }
      NoMatchAt(u, text, j, false);
    }
  }

  lemma ValueEndsAtSeam(u: Unicode, text: string, start: nat, v: Scanned)
    requires start <= |text| && Scan(text[start..]) == Some(v)
    ensures start + |v.full| <= |text| && Seam(text, start + |v.full|)
    ensures text[start..][|v.full|..] == text[start + |v.full|..] && v.full == text[start..start + |v.full|]
  {
    var t := text[start..];
    var n := |v.full|;
    if IsQuote(t[0]) {
      var e := QuotedExtent(t[1..], t[0]);
      if !e.closed && n < |t| {
        assert t[1..][e.len] == t[n] == text[start + n];
      }
      assert e.closed ==> t[1..][e.len] == t[n - 1] == text[start + n - 1];
    } else {
      assert n < |t| ==> t[n] == text[start + n];
    }
  }

  lemma FirstAssignmentFrom(u: Unicode, text: string, cursor: nat, whole: Prefix)
    requires cursor <= whole.start < whole.keyEnd <= whole.end <= |text|
    requires Find(u, text[cursor..], WordBefore(u, text, cursor, false))
          == Some(Prefix(whole.start - cursor, whole.keyEnd - cursor, whole.end - cursor))
    ensures var a := FirstAssignment(u, text[cursor..], WordBefore(u, text, cursor, false));
      match Scan(text[whole.end..])
      case None => a == None
      case Some(v) =>
        && whole.end + |v.full| <= |text|
        && a == Some(Assignment(Prefix(whole.start - cursor, whole.keyEnd - cursor, whole.end - cursor), v,
                                text[whole.end + |v.full|..]))
  {
    hide Find, Scan, FirstAssignment, IsWord, Seam;
    var t := text[cursor..];
    assert t[whole.end - cursor..] == text[whole.end..];
    FirstAssignmentIs(u, t, WordBefore(u, text, cursor, false));
    if Scan(text[whole.end..]).Some? {
      var v := Scan(text[whole.end..]).value;
      ValueEndsAtSeam(u, text, whole.end, v);
    }
  }

  lemma FirstAssignmentIs(u: Unicode, s: string, before: bool)
    requires Find(u, s, before).Some?
    ensures var f := Find(u, s, before).value;
      FirstAssignment(u, s, before) ==
        match Scan(s[f.end..])
        case None => None
        case Some(v) => Some(Assignment(f, v, s[f.end..][|v.full|..]))
  {
    hide Find, Scan;
  }

  lemma LastOfSlice(u: Unicode, text: string, start: nat, full: string)
    requires start + |full| <= |text| && full != "" && full == text[start..start + |full|]
    ensures IsWord(u, full[|full| - 1]) == WordBefore(u, text, start + |full|, false)
  {
  }

  /** What one turn of the loop adds, `whole` being the first prefix at or behind the cursor. */
  lemma RedactStep(u: Unicode, text: string, cursor: nat, whole: Prefix)
    requires cursor <= whole.start < whole.keyEnd <= whole.end <= |text|
    requires Find(u, text[cursor..], WordBefore(u, text, cursor, false))
          == Some(Prefix(whole.start - cursor, whole.keyEnd - cursor, whole.end - cursor))
    ensures var b := WordBefore(u, text, cursor, false);
      match Scan(text[whole.end..])
      case None => FirstAssignment(u, text[cursor..], b) == None
      case Some(v) =>
        && whole.end + |v.full| <= |text|
        && Redact(u, text[cursor..], b) == text[cursor..whole.end] + Rewritten(u, v)
           + Redact(u, text[whole.end + |v.full|..], WordBefore(u, text, whole.end + |v.full|, false))
  {
    hide Find, Scan, FirstAssignment, IsWord, Seam, Redact, Rewritten, WordBefore;
    FirstAssignmentFrom(u, text, cursor, whole);
    RedactUnfolds(u, text[cursor..], WordBefore(u, text, cursor, false));
    assert text[cursor..][..whole.end - cursor] == text[cursor..whole.end];
    if Scan(text[whole.end..]).Some? {
      var v := Scan(text[whole.end..]).value;
      ValueEndsAtSeam(u, text, whole.end, v);
      LastOfSlice(u, text, whole.end, v.full);
    }
  }

  lemma RedactUnfolds(u: Unicode, s: string, before: bool)
    ensures match FirstAssignment(u, s, before)
      case None => Redact(u, s, before) == s
      case Some(a) =>
        Redact(u, s, before) == s[..a.prefix.end] + Rewritten(u, a.value) + Redact(u, a.rest, EndsInWord(u, a))
  {
  }

  /** A prefix without a value ends the text: the operator's space has been passed. */
  lemma NoValueAtEnd(u: Unicode, text: string, f: Prefix, before: bool)
    requires IsPrefix(u, text, f, before)
    ensures f.end <= |text| && (Scan(text[f.end..]) == None <==> f.end == |text|)
  {
    var o := PrefixShape(u, text, f, before);
  }

  lemma NothingLeft(u: Unicode, text: string, cursor: nat)
    requires cursor <= |text|
    requires FirstAssignment(u, text[cursor..], WordBefore(u, text, cursor, false)) == None
          || forall j | cursor <= j <= |text| :: !MatchesAt(u, text, j, false)
    ensures Redact(u, text[cursor..], WordBefore(u, text, cursor, false)) == text[cursor..]
  {
    hide IsMatch, Find, Scan;
    if forall j | cursor <= j <= |text| :: !MatchesAt(u, text, j, false) {
      SuffixPositions(u, text, cursor, false);
      FindNoneIff(u, text[cursor..], WordBefore(u, text, cursor, false));
    }
  }

  /** What is written, and what the rest redacts to, are the redaction of the text. */
  predicate Underway(u: Unicode, text: string, out: string, cursor: nat) {
    && cursor <= |text|
    && out + Redact(u, text[cursor..], WordBefore(u, text, cursor, false)) == Redact(u, text, false)
  }

  lemma StartsUnderway(u: Unicode, text: string)
    ensures Underway(u, text, "", 0) && Seam(text, 0)
  {
    assert text[0..] == text;
  }

  lemma StaysUnderway(u: Unicode, text: string, out: string, cursor: nat, whole: Prefix, v: Scanned)
    requires Underway(u, text, out, cursor)
    requires cursor <= whole.start < whole.keyEnd <= whole.end <= |text| && Scan(text[whole.end..]) == Some(v)
    requires Find(u, text[cursor..], WordBefore(u, text, cursor, false))
          == Some(Prefix(whole.start - cursor, whole.keyEnd - cursor, whole.end - cursor))
    ensures Underway(u, text, out + text[cursor..whole.end] + Rewritten(u, v), whole.end + |v.full|)
    ensures Seam(text, whole.end + |v.full|)
  {
    hide Find, Scan, Redact, Rewritten, WordBefore, FirstAssignment, Seam;
    RedactStep(u, text, cursor, whole);
    ValueEndsAtSeam(u, text, whole.end, v);
  }

  /** The rewriting loop: matches of the prefix expression left to right, a cursor behind the last value. */
  method RedactGeneric(u: Unicode, text: string) returns (out: string)
    ensures out == Redact(u, text, false)
  {
    hide Find, Scan, Rewritten, Redact, FirstAssignment, IsPrefix, MatchesAt, Underway, WordBefore, Seam;
    out := "";
    var cursor, search := 0, 0;
    ghost var stuck := false;
    StartsUnderway(u, text);
    while true
      invariant 0 <= cursor <= |text| && 0 <= search <= |text|
      invariant Underway(u, text, out, cursor) && Seam(text, cursor)
      invariant !stuck ==> forall j | cursor <= j < search :: !MatchesAt(u, text, j, false)
      invariant stuck ==>
        search == |text| && FirstAssignment(u, text[cursor..], WordBefore(u, text, cursor, false)) == None
      decreases |text| - search
    {
      var found := Shifted(search, Find(u, text[search..], WordBefore(u, text, search, false)));
      FindFrom(u, text, search, false);
      if found == None {
        break;
      }
      var whole := found.value;
      search := whole.end;
      if whole.start < cursor {
        PrefixAcrossSeam(u, text, cursor, whole);
        continue;
      }
      FindFromIs(u, text, cursor, whole, false);
      NoValueAtEnd(u, text, whole, false);
      var scanned := ScanValue(text[whole.end..]);
      if scanned == None {
        RedactStep(u, text, cursor, whole);
        stuck := true;
        continue;
      }
      var v := scanned.value;
      StaysUnderway(u, text, out, cursor, whole, v);
      out := out + text[cursor..whole.end] + Rewritten(u, v);
      cursor := whole.end + |v.full|;
    }
    NothingLeft(u, text, cursor);
    Finished(u, text, out, cursor);
    out := out + text[cursor..];
  }

  lemma Finished(u: Unicode, text: string, out: string, cursor: nat)
    requires Underway(u, text, out, cursor)
    requires Redact(u, text[cursor..], WordBefore(u, text, cursor, false)) == text[cursor..]
    ensures out + text[cursor..] == Redact(u, text, false)
  {
  }
}
