/**
 What a delimited value is, as a grammar: a quoted value is a run of units (escaped characters,
 doubled quotes, quotes that do not close, plain characters) up to its closing quote or the
 line's end.
 */
module ValueGrammar {
  import opened Options
  import opened AsciiText
  import opened ValueScanner

  /** White space, or the end, comes before any further quote. */
  predicate SpaceComesFirst(after: string, q: char) {
    exists i | 0 <= i <= |after| :: (i < |after| ==> after[i] in " \t\n\U{0C}\r") && q !in after[..i]
  }

  /** A letter, digit, underscore or dash, or anything beyond ASCII. */
  predicate Glue(c: char) {
    || c in "abcdefghijklmnopqrstuvwxyz" || c in "ABCDEFGHIJKLMNOPQRSTUVWXYZ" || c in "0123456789"
    || c == '_' || c == '-' || c as int >= 128
  }

  /** A quote closes at the end, before white space, or before punctuation that no further quote follows closely. */
  predicate Closing(after: string, q: char) {
    after == "" || after[0] in " \t\n\U{0C}\r" || (!Glue(after[0]) && SpaceComesFirst(after, q))
  }

  /** One unit of the inside of a value quoted by `q`, `after` being the text behind it. */
  predicate Unit(unit: string, after: string, q: char) {
    || (|unit| == 1 && unit[0] !in "\n\\" && unit[0] != q)
    || (|unit| == 2 && unit[0] == '\\' && unit[1] != '\n')
    || (unit == "\\" && (after == "" || after[0] == '\n'))
    || (unit == [q, q] && q != '\\')
    || (unit == [q] && q != '\\' && after != "" && after[0] != q && !Closing(after, q))
  }

  /** Where the inside of a value stops: at its closing quote, or unclosed at the line's end. */
  predicate Stops(after: string, q: char, closed: bool) {
    if closed then after != "" && after[0] == q && (|after| > 1 ==> after[1] != q) && Closing(after[1..], q)
    else after == "" || after[0] == '\n'
  }

  predicate Units(us: seq<string>, after: string, q: char) {
    us == [] || (Unit(us[0], Text(us[1..]) + after, q) && Units(us[1..], after, q))
  }

  function Text(us: seq<string>): string {
    if us == [] then "" else us[0] + Text(us[1..])
  }

  lemma SpacesAgree(c: char)
    ensures c in " \t\n\U{0C}\r" <==> IsAsciiWhitespace(c)
  {
  }

  lemma GlueAgrees(c: char)
    ensures Glue(c) <==> IsValueGlue(c)
  {
    SmallLetters(c);
    Capitals(c);
    Digits(c);
  }

  lemma {:induction false} LookaheadAgrees(after: string, q: char)
    ensures LookaheadCloses(after, q) <==> SpaceComesFirst(after, q)
  {
    if after == "" {
      assert after[..0] == "";
    } else {
      SpacesAgree(after[0]);
      assert after[..0] == "";
      if !IsAsciiWhitespace(after[0]) && after[0] != q {
        LookaheadAgrees(after[1..], q);
        forall i | 0 < i <= |after|
          ensures after[..i] == [after[0]] + after[1..][..i - 1]
        {
        }
        if SpaceComesFirst(after[1..], q) {
          var i :| 0 <= i <= |after[1..]| && q !in after[1..][..i]
            && (i < |after[1..]| ==> after[1..][i] in " \t\n\U{0C}\r");
          assert after[..i + 1] == [after[0]] + after[1..][..i];
        }
        if SpaceComesFirst(after, q) {
          var i :| 0 <= i <= |after| && (i < |after| ==> after[i] in " \t\n\U{0C}\r") && q !in after[..i];
          assert after[..i] == [after[0]] + after[1..][..i - 1];
        }
      } else if after[0] == q && !IsAsciiWhitespace(q) {
        forall i | 0 < i <= |after|
          ensures q in after[..i]
        {
          assert after[..i][0] == q;
        }
      }
    }
  }

  lemma ClosingAgrees(after: string, q: char)
    ensures Closing(after, q) <==> ClosesHere(after, q)
  {
    hide SpaceComesFirst, LookaheadCloses, Glue, IsValueGlue;
    if after != "" {
      SpacesAgree(after[0]);
      GlueAgrees(after[0]);
      LookaheadAgrees(after, q);
    }
  }

  lemma UnitIsTaken(unit: string, rest: string, q: char)
    requires IsQuote(q) && Unit(unit, rest, q)
    ensures QuotedExtent(unit + rest, q) == Beyond(|unit|, QuotedExtent(rest, q))
  {
    hide Closing, ClosesHere;
    var s := unit + rest;
    ClosingAgrees(rest, q);
    assert s[|unit|..] == rest;
    assert forall i | 0 <= i < |unit| :: s[i] == unit[i];
  }

  lemma StopIsTaken(after: string, q: char, closed: bool)
    requires IsQuote(q) && Stops(after, q, closed)
    ensures QuotedExtent(after, q) == Extent(0, closed)
  {
    hide Closing, ClosesHere;
    if closed {
      ClosingAgrees(after[1..], q);
    }
  }

  /** A run of units up to a stop is what the scanner takes. */
  lemma {:induction false} UnitsAreScanned(us: seq<string>, after: string, q: char, closed: bool)
    requires IsQuote(q) && Units(us, after, q) && Stops(after, q, closed)
    ensures QuotedExtent(Text(us) + after, q) == Extent(|Text(us)|, closed)
  {
    hide Unit, Stops, QuotedExtent;
    if us == [] {
      assert Text(us) + after == after;
      StopIsTaken(after, q, closed);
    } else {
      var rest := Text(us[1..]) + after;
      UnitsAreScanned(us[1..], after, q, closed);
      assert Text(us) + after == us[0] + rest;
      UnitIsTaken(us[0], rest, q);
    }
  }

  /** The unit a text begins with, unless it stops there. */
  lemma HeadIsUnit(s: string, q: char) returns (n: nat)
    requires IsQuote(q)
    ensures n <= |s|
    ensures n == 0 ==> Stops(s, q, QuotedExtent(s, q).closed) && QuotedExtent(s, q).len == 0
    ensures n > 0 ==> Unit(s[..n], s[n..], q) && QuotedExtent(s, q) == Beyond(n, QuotedExtent(s[n..], q))
  {
    hide Closing, ClosesHere;
    if s == "" || s[0] == '\n' {
      n := 0;
    } else {
      ClosingAgrees(s[1..], q);
      n := if s[0] == '\\' then (if |s| > 1 && s[1] != '\n' then 2 else 1)
           else if s[0] != q then 1
           else if |s| > 1 && s[1] == q then 2
           else if ClosesHere(s[1..], q) then 0 else 1;
      assert Closing("", q) by { EndCloses(q); }
    }
  }

  lemma EndCloses(q: char)
    ensures Closing("", q)
  {
  }

  /** And every text begins with such a run, so the scanner takes exactly that. */
  lemma {:induction false} ScannedIsUnits(s: string, q: char) returns (us: seq<string>)
    requires IsQuote(q)
    ensures var e := QuotedExtent(s, q);
      Text(us) == s[..e.len] && Units(us, s[e.len..], q) && Stops(s[e.len..], q, e.closed)
    decreases |s|
  {
    hide Unit, Stops, QuotedExtent;
    var e := QuotedExtent(s, q);
    var n := HeadIsUnit(s, q);
    if n == 0 {
      us := [];
      assert s[0..] == s;
    } else {
      var tail := ScannedIsUnits(s[n..], q);
      us := [s[..n]] + tail;
      assert us[1..] == tail;
      assert s[..e.len] == s[..n] + s[n..][..e.len - n] && s[n..][e.len - n..] == s[e.len..];
      assert Text(tail) + s[e.len..] == s[n..];
    }
  }

  /**
   A value quoted by `q`: its inside is a run of units, and it is closed by a quote or by
   nothing at the line's end.
   */
  lemma QuotedValueIsUnits(q: char, us: seq<string>, after: string, closed: bool)
    requires IsQuote(q) && Units(us, after, q) && Stops(after, q, closed)
    ensures Scan([q] + (Text(us) + after))
         == Some(Scanned([q] + Text(us) + if closed then [q] else "", Text(us), Some(q), closed))
  {
    hide Units, Stops, QuotedExtent, Scan;
    UnitsAreScanned(us, after, q, closed);
    if closed {
      StopIsQuote(after, q);
    }
    QuotedScan(q, Text(us), after, closed);
  }

  lemma QuotedScan(q: char, inside: string, after: string, closed: bool)
    requires IsQuote(q) && QuotedExtent(inside + after, q) == Extent(|inside|, closed)
    requires closed ==> after != "" && after[0] == q
    ensures Scan([q] + (inside + after))
         == Some(Scanned([q] + inside + if closed then [q] else "", inside, Some(q), closed))
  {
    hide QuotedExtent;
    var s := [q] + (inside + after);
    assert s[1..] == inside + after;
    assert s[1..1 + |inside|] == inside;
    if closed {
      assert s[..2 + |inside|] == [q] + inside + [q];
    } else {
      assert s[..1 + |inside|] == [q] + inside + "";
    }
  }

  lemma StopIsQuote(after: string, q: char)
    requires Stops(after, q, true)
    ensures after != "" && after[0] == q
  {
  }

  /** What follows an assignment unquoted is a value up to the first white space. */
  lemma UnquotedValueIsRun(run: string, after: string)
    requires run != "" && run[0] !in "\"'`" && (forall i | 0 <= i < |run| :: run[i] !in " \t\n\U{0C}\r")
    requires after == "" || after[0] in " \t\n\U{0C}\r"
    ensures Scan(run + after) == Some(Scanned(run, run, None, false))
  {
    forall c
      ensures c in " \t\n\U{0C}\r" <==> IsAsciiWhitespace(c)
    {
      SpacesAgree(c);
    }
    var s := run + after;
    var n := UnquotedLength(s);
    assert forall i | 0 <= i < |run| :: s[i] == run[i];
    assert !(n < |run|);
    assert |run| < |s| ==> s[|run|] == after[0];
    assert n == |run|;
    assert s[..n] == run;
  }
}
