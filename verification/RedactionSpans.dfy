/** What redaction replaces and what it copies: an ordered list of value spans, and nothing else. */
module RedactionSpans {
  import opened Options
  import opened SecretPrefix
  import opened PrefixSearch
  import opened ValueScanner
  import opened Redactor
  import opened RedactionSettles

  /** A stretch of the text and what stands in its place. */
  datatype Span = Span(start: nat, end: nat, text: string)

  /** The value spans of `s`, whose first character stands at position `at`. */
  function Spans(u: Unicode, s: string, before: bool, at: nat): seq<Span>
    decreases |s|
  {
    match FirstAssignment(u, s, before)
    case None => []
    case Some(a) =>
      var start := at + a.prefix.end;
      var end := start + |a.value.full|;
      [Span(start, end, Rewritten(u, a.value))] + Spans(u, a.rest, EndsInWord(u, a), end)
  }

  /** The text from `from` on with each span replaced and everything else copied. */
  function Splice(text: string, spans: seq<Span>, from: nat): string
    requires Ordered(text, spans, from)
  {
    if spans == [] then text[from..]
    else text[from..spans[0].start] + spans[0].text + Splice(text, spans[1..], spans[0].end)
  }

  /** Spans in order, disjoint, non-empty, on one line each. */
  predicate Ordered(text: string, spans: seq<Span>, from: nat) {
    if spans == [] then from <= |text|
    else
      && from <= spans[0].start < spans[0].end <= |text|
      && '\n' !in text[spans[0].start..spans[0].end]
      && Ordered(text, spans[1..], spans[0].end)
  }

  lemma SpansUnfold(u: Unicode, s: string, before: bool, at: nat)
    ensures var p := FirstAssignment(u, s, before);
      Spans(u, s, before, at) ==
        match p
        case None => []
        case Some(a) =>
          [Span(at + a.prefix.end, at + a.prefix.end + |a.value.full|, Rewritten(u, a.value))]
          + Spans(u, a.rest, EndsInWord(u, a), at + a.prefix.end + |a.value.full|)
  {
    hide FirstAssignment, Rewritten, EndsInWord;
  }

  /** The assignment `a` of `text[at..]`, in the coordinates of the text. */
  lemma AssignmentInText(u: Unicode, text: string, at: nat, before: bool)
    requires at <= |text| && FirstAssignment(u, text[at..], before).Some?
    ensures var a := FirstAssignment(u, text[at..], before).value;
      var start := at + a.prefix.end; var end := start + |a.value.full|;
      && at < start < end <= |text|
      && text[at..start] == text[at..][..a.prefix.end] && text[start..end] == a.value.full && text[end..] == a.rest
      && Scan(text[start..]) == Some(a.value) && '\n' !in a.value.full
  {
    hide FirstAssignment, Scan, Find;
    AssignmentOf(u, text[at..], before);
    var a := FirstAssignment(u, text[at..], before).value;
    var t := text[at..];
    SlicePrefix(t[..a.prefix.end], a.value.full + a.rest);
    SlicePrefix(a.value.full, a.rest);
    assert t[a.prefix.end..] == text[at + a.prefix.end..];
  }

  /** Redaction splices the rewritten values into the text. */
  lemma {:induction false} RedactSplices(u: Unicode, text: string, at: nat, before: bool)
    requires at <= |text|
    ensures Ordered(text, Spans(u, text[at..], before, at), at)
    ensures Redact(u, text[at..], before) == Splice(text, Spans(u, text[at..], before, at), at)
    decreases |text| - at
  {
    hide FirstAssignment, Scan, Rewritten, Redact, Spans;
    SpansUnfold(u, text[at..], before, at);
    RedactUnfolds(u, text[at..], before);
    if FirstAssignment(u, text[at..], before).Some? {
      var a := FirstAssignment(u, text[at..], before).value;
      AssignmentInText(u, text, at, before);
      RedactSplices(u, text, at + a.prefix.end + |a.value.full|, EndsInWord(u, a));
    }
  }

  /** Position `j` lies in one of the spans. */
  predicate Inside(spans: seq<Span>, j: nat) {
    exists i | 0 <= i < |spans| :: spans[i].start <= j < spans[i].end
  }

  /** The value starting at `e`, whole, is among the spans, rewritten as its guard says. */
  predicate Handled(u: Unicode, text: string, spans: seq<Span>, e: nat)
    requires e <= |text|
  {
    match Scan(text[e..])
    case None => false
    case Some(v) => Span(e, e + |v.full|, Rewritten(u, v)) in spans
  }

  /** Where the prefix at `j` ends. */
  function PrefixEnd(u: Unicode, text: string, j: nat, before: bool): (e: nat)
    requires j <= |text| && MatchesAt(u, text, j, before)
    ensures j <= e <= |text|
  {
    j + OperatorEnd(u, text[j..], KeyAt(u, text[j..], WordBefore(u, text, j, before)))
  }

  lemma OverlappingPrefixes(u: Unicode, s: string, f: Prefix, j: nat, before: bool)
    requires IsPrefix(u, s, f, before) && f.start <= j < f.end && j <= |s| && MatchesAt(u, s, j, before)
    ensures PrefixEnd(u, s, j, before) == f.end
  {
    hide IsMatch, KeyAt, OperatorAt, OperatorEnd;
    var k := KeyAt(u, s[j..], WordBefore(u, s, j, before));
    var g := Prefix(j, j + k, PrefixEnd(u, s, j, before));
    var o := PrefixShape(u, s, f, before);
    var o' := PrefixShape(u, s, g, before);
    if o < j {
      SpaceIsNoKeyChar(u, s[j]);
      assert false;
    }
    NoOperatorWithin(u, s, f.start, f.keyEnd, o);
    NoOperatorWithin(u, s, g.start, g.keyEnd, o');
    assert o == o';
    assert !(f.end < g.end) && !(g.end < f.end);
  }

  lemma NoOperatorWithin(u: Unicode, s: string, start: nat, keyEnd: nat, o: nat)
    requires start <= keyEnd <= o <= |s|
    requires (forall i | start <= i < keyEnd :: IsKeyChar(s[i])) && (forall i | keyEnd <= i < o :: IsSpace(u, s[i]))
    ensures forall i | start <= i < o :: !IsOperator(s[i])
  {
    forall i | keyEnd <= i < o
      ensures !IsOperator(s[i])
    {
      SpaceIsNoKeyChar(u, s[i]);
    }
  }

  /** The prefix at `j` lies inside a value, has no value behind it, or has its whole value handled. */
  predicate Answered(u: Unicode, text: string, spans: seq<Span>, j: nat)
    requires j <= |text| && MatchesAt(u, text, j, false)
  {
    var e := PrefixEnd(u, text, j, false);
    Inside(spans, j) || e == |text| || Handled(u, text, spans, e)
  }

  lemma AnsweredLater(u: Unicode, text: string, first: Span, spans: seq<Span>, j: nat)
    requires j <= |text| && MatchesAt(u, text, j, false) && Answered(u, text, spans, j)
    ensures Answered(u, text, [first] + spans, j)
  {
    hide Scan, Rewritten, PrefixEnd, MatchesAt;
    if Inside(spans, j) {
      var i :| 0 <= i < |spans| && spans[i].start <= j < spans[i].end;
      assert ([first] + spans)[i + 1] == spans[i];
    }
  }

  lemma EarlyPrefix(u: Unicode, text: string, at: nat, j: nat, f: Prefix)
    requires at <= j <= |text| && MatchesAt(u, text, j, false) && j < at + f.end
    requires Find(u, text[at..], WordBefore(u, text, at, false)) == Some(f)
    ensures PrefixEnd(u, text, j, false) == at + f.end
  {
    hide IsMatch, Find, KeyAt, OperatorEnd, IsWord, IsSpace, PrefixEnd, IsPrefix;
    FindFrom(u, text, at, false);
    assert !(j < at + f.start);
    OverlappingPrefixes(u, text, Prefix(at + f.start, at + f.keyEnd, at + f.end), j, false);
  }

  /**
   Every prefix of the text lies inside a value already consumed, has no value behind it, or
   has its whole value handled: replaced unless short or a placeholder without a nested key.
   */
  lemma {:induction false} EveryPrefixIsHandled(u: Unicode, text: string, at: nat, j: nat)
    requires at <= j <= |text| && MatchesAt(u, text, j, false)
    ensures Answered(u, text, Spans(u, text[at..], WordBefore(u, text, at, false), at), j)
    decreases |text| - at
  {
    hide FirstAssignment, Rewritten, Spans, MatchesAt, Answered, WordBefore, EndsInWord;
    var b := WordBefore(u, text, at, false);
    SpansUnfold(u, text[at..], b, at);
    if FirstAssignment(u, text[at..], b).Some? {
      var a := FirstAssignment(u, text[at..], b).value;
      RestIsLater(u, text, at, b);
      var start := at + a.prefix.end;
      var end := start + |a.value.full|;
      var span := Span(start, end, Rewritten(u, a.value));
      var later := Spans(u, a.rest, EndsInWord(u, a), end);
      if j < start {
        EarlyIsAnswered(u, text, at, j, later);
      } else if j < end {
        InsideFirst(u, text, span, later, j);
      } else {
        EveryPrefixIsHandled(u, text, end, j);
        AnsweredLater(u, text, span, later, j);
      }
    } else {
      NoAssignment(u, text, at, j);
      NothingToAnswer(u, text, Spans(u, text[at..], b, at), j);
    }
  }

  /** The spans behind the first one are those of the text behind its value. */
  lemma RestIsLater(u: Unicode, text: string, at: nat, before: bool)
    requires at <= |text| && FirstAssignment(u, text[at..], before).Some?
    ensures var a := FirstAssignment(u, text[at..], before).value;
      var end := at + a.prefix.end + |a.value.full|;
      && at < at + a.prefix.end < end <= |text|
      && Spans(u, a.rest, EndsInWord(u, a), end) == Spans(u, text[end..], WordBefore(u, text, end, false), end)
  {
    hide FirstAssignment, Scan, Rewritten, Spans, IsWord;
    AssignmentInText(u, text, at, before);
    var a := FirstAssignment(u, text[at..], before).value;
    LastOfSlice(u, text, at + a.prefix.end, a.value.full);
  }

  lemma NothingToAnswer(u: Unicode, text: string, spans: seq<Span>, j: nat)
    requires j <= |text| && MatchesAt(u, text, j, false) && PrefixEnd(u, text, j, false) == |text|
    ensures Answered(u, text, spans, j)
  {
    hide MatchesAt, PrefixEnd, Handled;
  }

  lemma FirstValue(u: Unicode, text: string, at: nat, before: bool)
    requires at <= |text| && FirstAssignment(u, text[at..], before).Some?
    ensures var a := FirstAssignment(u, text[at..], before).value;
      && Find(u, text[at..], before) == Some(a.prefix)
      && at + a.prefix.end <= |text| && Scan(text[at + a.prefix.end..]) == Some(a.value)
  {
    hide FirstAssignment, Scan, Find;
    AssignmentOf(u, text[at..], before);
    AssignmentInText(u, text, at, before);
  }

  /** A prefix that starts ahead of the first value ends where that value starts. */
  lemma AnsweredFirst(u: Unicode, text: string, at: nat, j: nat, a: Assignment, later: seq<Span>)
    requires at <= j <= |text| && MatchesAt(u, text, j, false) && j < at + a.prefix.end <= |text|
    requires Find(u, text[at..], WordBefore(u, text, at, false)) == Some(a.prefix)
    requires Scan(text[at + a.prefix.end..]) == Some(a.value)
    ensures var start := at + a.prefix.end;
      Answered(u, text, [Span(start, start + |a.value.full|, Rewritten(u, a.value))] + later, j)
  {
    hide Scan, Rewritten, MatchesAt, Find, PrefixEnd, IsWord, IsSpace, Answered, WordBefore;
    var start := at + a.prefix.end;
    EarlyPrefix(u, text, at, j, a.prefix);
    FirstIsHandled(u, text, Span(start, start + |a.value.full|, Rewritten(u, a.value)), later, j, a.value);
  }

  lemma EarlyIsAnswered(u: Unicode, text: string, at: nat, j: nat, later: seq<Span>)
    requires at <= j <= |text| && MatchesAt(u, text, j, false)
    requires var p := FirstAssignment(u, text[at..], WordBefore(u, text, at, false));
      p.Some? && j < at + p.value.prefix.end
    ensures var a := FirstAssignment(u, text[at..], WordBefore(u, text, at, false)).value;
      var start := at + a.prefix.end;
      Answered(u, text, [Span(start, start + |a.value.full|, Rewritten(u, a.value))] + later, j)
  {
    hide FirstAssignment, Scan, Rewritten, MatchesAt, Find, Answered, WordBefore;
    var b := WordBefore(u, text, at, false);
    FirstValue(u, text, at, b);
    AnsweredFirst(u, text, at, j, FirstAssignment(u, text[at..], b).value, later);
  }

  lemma FirstIsHandled(u: Unicode, text: string, span: Span, later: seq<Span>, j: nat, v: Scanned)
    requires j <= |text| && MatchesAt(u, text, j, false) && PrefixEnd(u, text, j, false) == span.start
    requires Scan(text[span.start..]) == Some(v) && span == Span(span.start, span.start + |v.full|, Rewritten(u, v))
    ensures Answered(u, text, [span] + later, j)
  {
    hide Scan, Rewritten, MatchesAt, PrefixEnd;
    assert ([span] + later)[0] == span;
  }

  lemma InsideFirst(u: Unicode, text: string, span: Span, later: seq<Span>, j: nat)
    requires j <= |text| && MatchesAt(u, text, j, false) && span.start <= j < span.end
    ensures Answered(u, text, [span] + later, j)
  {
    hide Scan, Rewritten, MatchesAt, PrefixEnd;
    assert ([span] + later)[0] == span;
  }

  lemma NoAssignment(u: Unicode, text: string, at: nat, j: nat)
    requires at <= j <= |text| && MatchesAt(u, text, j, false)
    requires FirstAssignment(u, text[at..], WordBefore(u, text, at, false)).None?
    ensures PrefixEnd(u, text, j, false) == |text|
  {
    hide Scan, IsMatch, Find, KeyAt, OperatorEnd, IsWord, IsSpace, FirstAssignment, IsPrefix;
    var b := WordBefore(u, text, at, false);
    FindFrom(u, text, at, false);
    var found := Shifted(at, Find(u, text[at..], b));
    assert found.Some?;
    var f := found.value;
    FirstAssignmentIs(u, text[at..], b);
    assert text[at..][f.end - at..] == text[f.end..];
    NoValueAtEnd(u, text, f, false);
    assert !(j < f.start);
    if f.end == |text| && j < |text| {
      OverlappingPrefixes(u, text, f, j, false);
    }
  }

  /** The two halves together, for the whole text. */
  lemma RedactionReplacesValues(u: Unicode, text: string)
    ensures var spans := Spans(u, text, false, 0);
      && Ordered(text, spans, 0) && Redact(u, text, false) == Splice(text, spans, 0)
      && forall j | 0 <= j <= |text| && MatchesAt(u, text, j, false) :: Answered(u, text, spans, j)
  {
    hide IsMatch, Spans, Redact, Splice, Answered;
    assert text[0..] == text;
    RedactSplices(u, text, 0, false);
    forall j | 0 <= j <= |text| && MatchesAt(u, text, j, false)
      ensures Answered(u, text, Spans(u, text, false, 0), j)
    {
      EveryPrefixIsHandled(u, text, 0, j);
    }
  }
}
