/**
 The quote- and escape-aware scanner of src/redactor.rs that delimits the value after a
 secret-looking `key =` prefix. The source walks UTF-8 bytes; since it treats every byte
 of a multi-byte character alike, walking characters finds the same value.
 */
module ValueScanner {
  import opened AsciiText
  import opened Options

  predicate IsQuote(c: char) {
    c == '"' || c == '\'' || c == '`'
  }

  /** A character that glues an inner quote to a longer token. */
  predicate IsValueGlue(c: char) {
    'a' <= c <= 'z' || 'A' <= c <= 'Z' || '0' <= c <= '9' || c == '_' || c == '-' || c >= 128 as char
  }

  /** Does whitespace, or the end of input, come before the next `quote`? */
  predicate LookaheadCloses(after: string, quote: char) {
    if after == "" || IsAsciiWhitespace(after[0]) then true
    else if after[0] == quote then false
    else LookaheadCloses(after[1..], quote)
  }

  /** Is a quote a structural close when `after` is the text behind it? */
  predicate ClosesHere(after: string, quote: char) {
    || after == "" || IsAsciiWhitespace(after[0])
    || (!IsValueGlue(after[0]) && LookaheadCloses(after, quote))
  }

  /** Length of a quoted value's inside, and whether a closing quote follows it. */
  datatype Extent = Extent(len: nat, closed: bool)

  function Beyond(n: nat, e: Extent): Extent {
    Extent(n + e.len, e.closed)
  }

  /** The extent of the inside of a quoted value, `s` being the text behind the opening quote. */
  function QuotedExtent(s: string, quote: char): (e: Extent)
    ensures e.len <= |s| && (e.closed ==> e.len < |s| && s[e.len] == quote)
    ensures '\n' !in s[..e.len]
    ensures !e.closed ==> e.len == |s| || s[e.len] == '\n'
    decreases |s|
  {
    if s == "" || s[0] == '\n' then Extent(0, false)
    else if s[0] == '\\' then
      if |s| > 1 && s[1] != '\n' then Beyond(2, QuotedExtent(s[2..], quote))
      else Beyond(1, QuotedExtent(s[1..], quote))
    else if s[0] == quote then
      if |s| > 1 && s[1] == quote then Beyond(2, QuotedExtent(s[2..], quote))
      else if ClosesHere(s[1..], quote) then Extent(0, true)
      else Beyond(1, QuotedExtent(s[1..], quote))
    else Beyond(1, QuotedExtent(s[1..], quote))
  }

  function UnquotedLength(s: string): (n: nat)
    ensures n <= |s| && (n < |s| ==> IsAsciiWhitespace(s[n]))
    ensures forall i | 0 <= i < n :: !IsAsciiWhitespace(s[i])
  {
    if s == "" || IsAsciiWhitespace(s[0]) then 0 else 1 + UnquotedLength(s[1..])
  }

  /** A delimited value: its whole text, the text inside the quotes, the quote if any, and whether it closed. */
  datatype Scanned = Scanned(full: string, inner: string, quote: Option<char>, closed: bool)

  function Scan(s: string): (r: Option<Scanned>)
    ensures r.Some? <==> s != "" && !IsAsciiWhitespace(s[0])
    ensures r.Some? ==> |r.value.full| >= 1 && r.value.full <= s && '\n' !in r.value.full
  {
    if s == "" || IsAsciiWhitespace(s[0]) then None
    else if IsQuote(s[0]) then
      var e := QuotedExtent(s[1..], s[0]);
      assert forall i | 1 <= i <= e.len :: s[i] == s[1..][..e.len][i - 1];
      Some(Scanned(s[..1 + e.len + if e.closed then 1 else 0], s[1..1 + e.len], Some(s[0]), e.closed))
    else
      var n := UnquotedLength(s);
      Some(Scanned(s[..n], s[..n], None, false))
  }

  method PunctuationClosesValue(text: string, closeIdx: nat, quote: char) returns (closes: bool)
    requires closeIdx < |text|
    ensures closes == LookaheadCloses(text[closeIdx + 1..], quote)
  {
    var j := closeIdx + 1;
    while j < |text|
      invariant closeIdx < j <= |text|
      invariant LookaheadCloses(text[j..], quote) == LookaheadCloses(text[closeIdx + 1..], quote)
    {
      var c := text[j];
      if c == '\n' || IsAsciiWhitespace(c) {
        return true;
      }
      if c == quote {
        return false;
      }
      j := j + 1;
    }
    return true;
  }

  /** The extent from position `i` on, by the characters at `i` and behind it. */
  lemma ExtentAt(s: string, i: nat, quote: char)
    requires i < |s|
    ensures var next := if i + 1 < |s| then Some(s[i + 1]) else None;
      QuotedExtent(s[i..], quote) ==
        if s[i] == '\n' then Extent(0, false)
        else if s[i] == '\\' && next.Some? && next != Some('\n') then Beyond(2, QuotedExtent(s[i + 2..], quote))
        else if s[i] != '\\' && s[i] == quote && next == Some(quote) then Beyond(2, QuotedExtent(s[i + 2..], quote))
        else if s[i] != '\\' && s[i] == quote && ClosesHere(s[i + 1..], quote) then Extent(0, true)
        else Beyond(1, QuotedExtent(s[i + 1..], quote))
  {
    hide ClosesHere;
    var t := s[i..];
    assert t[1..] == s[i + 1..];
    if i + 1 < |s| {
      assert t[2..] == s[i + 2..];
    }
  }

  lemma NoExtent(s: string, i: nat, quote: char)
    requires i <= |s| && (i < |s| ==> s[i] == '\n')
    ensures QuotedExtent(s[i..], quote) == Extent(0, false)
  {
  }

  method ScanQuoted(s: string) returns (r: Scanned)
    requires s != "" && IsQuote(s[0])
    ensures Scan(s) == Some(r)
  {
    hide QuotedExtent, LookaheadCloses, IsValueGlue;
    var quote := s[0];
    ghost var whole := QuotedExtent(s[1..], quote);
    var i := 1;
    while i < |s|
      invariant 1 <= i <= |s|
      invariant Beyond(i - 1, QuotedExtent(s[i..], quote)) == whole
    {
      ExtentAt(s, i, quote);
      var c := s[i];
      if c == '\n' {
        break;
      }
      if c == '\\' {
        i := i + 1;
        if i < |s| && s[i] != '\n' {
          i := i + 1;
        }
        continue;
      }
      if c == quote {
        if i + 1 < |s| && s[i + 1] == quote {
          i := i + 2;
          continue;
        }
        if i + 1 < |s| && !IsAsciiWhitespace(s[i + 1]) {
          if IsValueGlue(s[i + 1]) {
            i := i + 1;
            continue;
          }
          var closes := PunctuationClosesValue(s, i, quote);
          if !closes {
            i := i + 1;
            continue;
          }
        }
        return Scanned(s[..i + 1], s[1..i], Some(quote), true);
      }
      i := i + 1;
    }
    assert QuotedExtent(s[i..], quote) == Extent(0, false) by { NoExtent(s, i, quote); }
    return Scanned(s[..i], s[1..i], Some(quote), false);
  }

  method ScanValue(s: string) returns (r: Option<Scanned>)
    ensures r == Scan(s)
  {
    if s == "" || IsAsciiWhitespace(s[0]) {
      return None;
    }
    if IsQuote(s[0]) {
      var scanned := ScanQuoted(s);
      return Some(scanned);
    }
    var i := 0;
    while i < |s| && !IsAsciiWhitespace(s[i])
      invariant 0 <= i <= |s|
      invariant i + UnquotedLength(s[i..]) == UnquotedLength(s)
    {
      i := i + 1;
    }
    return Some(Scanned(s[..i], s[..i], None, false));
  }
}
