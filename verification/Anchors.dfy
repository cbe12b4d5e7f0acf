/**
 The anchors of src/relevance.rs: parsing `path`, `path#kind`, `#kind`, and a trailing `@a-b`,
 printing the canonical form, and matching a search result.
 */
module Anchors {
  import opened Options
  import opened Decimal
  import opened Trimming

  datatype LineRange = LineRange(lo: nat, hi: nat)

  datatype Anchor = Anchor(path: Option<string>, kind: Option<string>, range: Option<LineRange>)

  datatype ParseError = InvalidRange | EmptyKind | EmptyAnchor | RangeWithoutPath

  datatype Result<T> = Ok(value: T) | Err(error: ParseError)

  /** The largest value of the source's 64-bit line numbers. */
  const MAX_LINE: nat := 0xFFFF_FFFF_FFFF_FFFF

  /** The first position of a character, or the length. */
  function FirstOf(s: string, c: char): (n: nat)
    ensures n <= |s| && (n < |s| ==> s[n] == c) && c !in s[..n]
  {
    if s == "" || s[0] == c then 0
    else
      assert s == [s[0]] + s[1..];
      1 + FirstOf(s[1..], c)
  }

  /** The position behind the last occurrence of a character, or 0. */
  function BehindLast(s: string, c: char): (n: nat)
    ensures n <= |s| && (n > 0 ==> s[n - 1] == c) && c !in s[n..]
  {
    if s == "" || s[|s| - 1] == c then |s|
    else
      var n := BehindLast(s[..|s| - 1], c);
      assert s[n..] == s[..|s| - 1][n..] + [s[|s| - 1]];
      n
  }

  lemma FirstOfUnique(s: string, c: char, n: nat)
    requires n <= |s| && c !in s[..n] && (n < |s| ==> s[n] == c)
    ensures FirstOf(s, c) == n
  {
  }

  lemma BehindLastUnique(s: string, c: char, n: nat)
    requires n <= |s| && c !in s[n..] && (n > 0 ==> s[n - 1] == c)
    ensures BehindLast(s, c) == n
  {
  }

  // ----- Parsing -----

  predicate RangeChar(c: char) {
    IsDigit(c) || c == '-'
  }

  predicate RangeChars(s: string) {
    forall i | 0 <= i < |s| :: RangeChar(s[i])
  }

  /** The text ends in an attempted range: behind its last `@` only digits and dashes, at least one. */
  predicate RangeLike(s: string) {
    var n := BehindLast(s, '@');
    n > 0 && Trim(s[n..]) != "" && RangeChars(Trim(s[n..]))
  }

  /** A line number; a sign cannot occur in the texts this is asked for. */
  function ParseLine(s: string): Option<nat> {
    if s == "" || !AllDigits(s) || Value(s) > MAX_LINE then None else Some(Value(s))
  }

  function ParseRange(tail: string): Option<LineRange> {
    var dash := FirstOf(tail, '-');
    if dash == |tail| then None
    else
      match (ParseLine(tail[..dash]), ParseLine(tail[dash + 1..]))
      case (Some(a), Some(b)) => if a == 0 || b < a then None else Some(LineRange(a, b))
      case _ => None
  }

  /** The body before a trailing range, and the range. */
  function SplitRange(s: string): Result<(string, Option<LineRange>)> {
    if !RangeLike(s) then Ok((s, None))
    else
      var n := BehindLast(s, '@');
      match ParseRange(Trim(s[n..]))
      case Some(r) => Ok((s[..n - 1], Some(r)))
      case None => Err(InvalidRange)
  }

  /** The anchor of a body: what stands before and behind the first `#`. */
  function ParseBody(body: string, range: Option<LineRange>): Result<Anchor> {
    var hash := FirstOf(body, '#');
    var path := Trim(body[..hash]);
    var filePath := if path == "" then None else Some(path);
    if hash == |body| then
      if filePath.None? then Err(EmptyAnchor) else Ok(Anchor(filePath, None, range))
    else
      var kind := Trim(body[hash + 1..]);
      if kind == "" then Err(EmptyKind)
      else if range.Some? && filePath.None? then Err(RangeWithoutPath)
      else Ok(Anchor(filePath, Some(kind), range))
  }

  function Parse(s: string): Result<Anchor> {
    match SplitRange(s)
    case Err(e) => Err(e)
    case Ok(split) => ParseBody(split.0, split.1)
  }

  // ----- Printing -----

  function DisplayBody(a: Anchor): string {
    match (a.path, a.kind)
    case (Some(p), Some(k)) => p + "#" + k
    case (Some(p), None) => p
    case (None, Some(k)) => "#" + k
    case (None, None) => ""
  }

  function DisplayRange(r: LineRange): string {
    Numeral(r.lo) + "-" + Numeral(r.hi)
  }

  function Display(a: Anchor): string {
    match a.range
    case Some(r) => DisplayBody(a) + "@" + DisplayRange(r)
    case None => DisplayBody(a)
  }

  /**
   The anchors that survive printing: facets neither blank nor padded, no `#` in the path, a
   range in bounds and with a path, and no range seen where there is none.
   */
  predicate Printable(a: Anchor) {
    && (a.path.Some? ==> a.path.value != "" && Trimmed(a.path.value) && '#' !in a.path.value)
    && (a.kind.Some? ==> a.kind.value != "" && Trimmed(a.kind.value))
    && (a.path.Some? || a.kind.Some?)
    && match a.range
       case Some(r) => a.path.Some? && 1 <= r.lo <= r.hi <= MAX_LINE
       case None => !RangeLike(DisplayBody(a))
  }

  // ----- Printable anchors parse back -----

  lemma BodyParsesBack(a: Anchor)
    requires Printable(a)
    ensures ParseBody(DisplayBody(a), a.range) == Ok(a)
  {
    hide Trim, RangeLike;
    var body := DisplayBody(a);
    var p := if a.path.Some? then a.path.value else "";
    TrimmedIsFixed(p);
    if a.kind.Some? {
      TrimmedIsFixed(a.kind.value);
      assert body[..|p|] == p;
      FirstOfUnique(body, '#', |p|);
      assert body[|p| + 1..] == a.kind.value;
    } else {
      assert body[..|p|] == p;
      FirstOfUnique(body, '#', |p|);
    }
  }

  lemma DisplayedRangeParses(r: LineRange)
    requires 1 <= r.lo <= r.hi <= MAX_LINE
    ensures var t := DisplayRange(r);
      '@' !in t && t != "" && RangeChars(t) && Trim(t) == t && ParseRange(t) == Some(r)
  {
    hide Numeral, Value, Trim;
    var a, b := Numeral(r.lo), Numeral(r.hi);
    var t := DisplayRange(r);
    ValueOfNumeral(r.lo);
    ValueOfNumeral(r.hi);
    assert t[..|a|] == a && t[|a| + 1..] == b;
    FirstOfUnique(t, '-', |a|);
    assert IsDigit(t[0]) && t[|t| - 1] == b[|b| - 1];
    TrimmedIsFixed(t);
  }

  lemma PrintableParsesBack(a: Anchor)
    requires Printable(a)
    ensures Parse(Display(a)) == Ok(a)
  {
    hide Trim, RangeChars, ParseBody, DisplayRange, ParseRange;
    BodyParsesBack(a);
    if a.range.Some? {
      var body, t := DisplayBody(a), DisplayRange(a.range.value);
      var s := body + "@" + t;
      DisplayedRangeParses(a.range.value);
      assert s[|body| + 1..] == t;
      BehindLastUnique(s, '@', |body| + 1);
      assert s[..|body|] == body;
    }
  }

  // ----- Parsed anchors are printable -----

  /** White space behind a text and any text before its last `@` do not change what its end looks like. */
  lemma RangeLikeWithin(pre: string, t: string, post: string, n: nat)
    requires 0 < n <= |t| && t[n - 1] == '@' && '@' !in t[n..]
    requires Trim(t[n..]) != "" && RangeChars(Trim(t[n..])) && AllWhite(post)
    ensures RangeLike(pre + t + post)
  {
    hide Trim, RangeChars;
    var s := pre + t + post;
    assert s[|pre| + n..] == t[n..] + post;
    TrimPadded(t[n..], post);
    BehindLastUnique(s, '@', |pre| + n);
  }

  /** A range-like tail holds no `#`. */
  lemma NoHashInTail(tail: string)
    requires RangeChars(Trim(tail))
    ensures '#' !in tail
  {
    hide Trim;
    var pre, post := TrimSplit(tail);
  }

  /** Where the printed form of a parsed anchor would look ranged, the parsed text did. */
  lemma PrintedNoMoreRanged(s: string, a: Anchor)
    requires ParseBody(s, None) == Ok(a) && RangeLike(DisplayBody(a))
    ensures RangeLike(s)
  {
    hide Trim, RangeChars;
    var hash := FirstOf(s, '#');
    var shown := DisplayBody(a);
    var n := BehindLast(shown, '@');
    if a.kind.None? {
      var pre, post := TrimSplit(s);
      assert s[..hash] == s;
      RangeLikeWithin(pre, shown, post, n);
      assert pre + shown + post == s;
    } else {
      var k := a.kind.value;
      var p := |shown| - |k|;
      assert shown[p..] == k && shown[p - 1] == '#';
      NoHashInTail(shown[n..]);
      AtLeast(shown, n, p);
      assert k[n - p..] == shown[n..];
      AddPrefix(s, hash + 1, k, n - p);
    }
  }

  /** A `#` before position `p` and none from `n` on put `n` at or behind `p`. */
  lemma AtLeast(shown: string, n: nat, p: nat)
    requires 0 < n <= |shown| && 0 < p <= |shown| && shown[p - 1] == '#' && '#' !in shown[n..] && shown[n - 1] == '@'
    ensures n > p
  {
  }

  lemma AddPrefix(s: string, from: nat, k: string, n: nat)
    requires from <= |s| && Trim(s[from..]) == k
    requires 0 < n <= |k| && k[n - 1] == '@' && '@' !in k[n..] && Trim(k[n..]) != "" && RangeChars(Trim(k[n..]))
    ensures RangeLike(s)
  {
    hide Trim, RangeChars, RangeLike;
    var pre, post := TrimSplit(s[from..]);
    RangeLikeWithin(s[..from] + pre, k, post, n);
    assert s == s[..from] + s[from..];
    assert s[..from] + pre + k + post == s[..from] + (pre + k + post);
  }

  lemma ParsedIsPrintable(s: string, a: Anchor)
    requires Parse(s) == Ok(a)
    ensures Printable(a)
  {
    hide Trim, RangeLike, Value;
    var split := SplitRange(s).value;
    var body := split.0;
    var hash := FirstOf(body, '#');
    var pre, post := TrimSplit(body[..hash]);
    var path := Trim(body[..hash]);
    assert '#' !in path by {
      forall i | 0 <= i < |path|
        ensures path[i] != '#'
      {
        assert body[..hash][|pre| + i] == path[i];
      }
    }
    if hash < |body| {
      var q, w := TrimSplit(body[hash + 1..]);
    }
    if a.range.None? && RangeLike(DisplayBody(a)) {
      PrintedNoMoreRanged(s, a);
    }
  }

  /** An anchor's printed form parses back to it exactly when it is printable. */
  lemma ParsesBackIffPrintable(a: Anchor)
    ensures Parse(Display(a)) == Ok(a) <==> Printable(a)
  {
    hide Parse, Display, Printable;
    if Printable(a) {
      PrintableParsesBack(a);
    }
    if Parse(Display(a)) == Ok(a) {
      ParsedIsPrintable(Display(a), a);
    }
  }

  /** Whatever parses is printed in a form that parses to the same anchor. */
  lemma DisplayIsCanonical(s: string)
    requires Parse(s).Ok?
    ensures Parse(Display(Parse(s).value)) == Parse(s)
  {
    hide Parse, Display, Printable;
    ParsedIsPrintable(s, Parse(s).value);
    PrintableParsesBack(Parse(s).value);
  }

  // ----- The grammar, written out -----

  /** A range is two line numbers with a dash between them, the first at least one, the second no less, both 64-bit. */
  lemma RangeIs(a: string, b: string)
    requires a != "" && AllDigits(a) && b != "" && AllDigits(b)
    ensures ParseRange(a + "-" + b) ==
      if 1 <= Value(a) <= Value(b) <= 18446744073709551615 then Some(LineRange(Value(a), Value(b))) else None
  {
    hide Value;
    var t := a + "-" + b;
    assert t[..|a|] == a && t[|a| + 1..] == b;
    FirstOfUnique(t, '-', |a|);
  }

  /** Nothing else is a range. */
  lemma RangeIsTwoNumbers(tail: string)
    requires ParseRange(tail).Some?
    ensures exists a, b :: tail == a + "-" + b && a != "" && AllDigits(a) && b != "" && AllDigits(b)
  {
    hide Value;
    var dash := FirstOf(tail, '-');
    assert tail == tail[..dash] + "-" + tail[dash + 1..];
  }

  /** An anchor text without a range: its parts, trimmed, stand before and behind its first hash. */
  lemma PlainAnchorIs(path: string, kind: string)
    requires '#' !in path && !RangeLike(path + "#" + kind) && !RangeLike(path)
    ensures Parse(path + "#" + kind) ==
      if Trim(kind) == "" then Err(EmptyKind)
      else Ok(Anchor(if Trim(path) == "" then None else Some(Trim(path)), Some(Trim(kind)), None))
    ensures Parse(path) == if Trim(path) == "" then Err(EmptyAnchor) else Ok(Anchor(Some(Trim(path)), None, None))
  {
    hide Trim, RangeLike;
    var s := path + "#" + kind;
    assert s[..|path|] == path && s[|path| + 1..] == kind && path[..|path|] == path;
    FirstOfUnique(s, '#', |path|);
    FirstOfUnique(path, '#', |path|);
  }

  /** An anchor text with something like a range behind its last at-sign. */
  lemma RangedAnchorIs(body: string, tail: string)
    requires '@' !in tail && Trim(tail) != "" && RangeChars(Trim(tail))
    ensures Parse(body + "@" + tail) ==
      match ParseRange(Trim(tail))
      case None => Err(InvalidRange)
      case Some(r) => ParseBody(body, Some(r))
  {
    hide Trim, RangeChars, ParseRange, ParseBody;
    var s := body + "@" + tail;
    assert s[|body| + 1..] == tail && s[..|body|] == body;
    BehindLastUnique(s, '@', |body| + 1);
  }

  /** A ranged anchor needs a path. */
  lemma RangedBodyIs(path: string, kind: string, r: LineRange)
    requires '#' !in path
    ensures ParseBody(path + "#" + kind, Some(r)) ==
      if Trim(kind) == "" then Err(EmptyKind)
      else if Trim(path) == "" then Err(RangeWithoutPath)
      else Ok(Anchor(Some(Trim(path)), Some(Trim(kind)), Some(r)))
    ensures ParseBody(path, Some(r)) ==
      if Trim(path) == "" then Err(EmptyAnchor) else Ok(Anchor(Some(Trim(path)), None, Some(r)))
  {
    hide Trim;
    var s := path + "#" + kind;
    assert s[..|path|] == path && s[|path| + 1..] == kind && path[..|path|] == path;
    FirstOfUnique(s, '#', |path|);
    FirstOfUnique(path, '#', |path|);
  }
}
