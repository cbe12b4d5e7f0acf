/** ASCII lowercasing and white space, and the source's tests for substrings and ends of texts. */
module AsciiText {
  function LowerChar(c: char): char {
    if 'A' <= c <= 'Z' then 'a' + (c - 'A') else c
  }

  function Lower(s: string): (r: string)
    ensures |r| == |s| && forall i | 0 <= i < |s| :: r[i] == LowerChar(s[i])
  {
    seq(|s|, i requires 0 <= i < |s| => LowerChar(s[i]))
  }

  lemma LowerAppend(s: string, c: char)
    ensures Lower(s + [c]) == Lower(s) + [LowerChar(c)]
  {
  }

  predicate IsAsciiWhitespace(c: char) {
    c == ' ' || c == '\t' || c == '\n' || c == '\U{0C}' || c == '\r'
  }

  predicate EndsWith(s: string, tail: string) {
    |tail| <= |s| && s[|s| - |tail|..] == tail
  }

  predicate Contains(text: string, part: string) {
    part <= text || (text != "" && Contains(text[1..], part))
  }

  lemma {:induction false} ContainsAt(text: string, part: string, i: nat)
    requires i + |part| <= |text| && text[i..i + |part|] == part
    ensures Contains(text, part)
  {
    if i > 0 {
      assert text[1..][i - 1..i - 1 + |part|] == part;
      ContainsAt(text[1..], part, i - 1);
    }
  }

  /** `part` stands somewhere in the text. */
  predicate Occurs(part: string, text: string) {
    exists p | 0 <= p <= |text| :: part <= text[p..]
  }

  lemma {:induction false} ContainsIff(text: string, part: string)
    ensures Contains(text, part) <==> Occurs(part, text)
  {
    assert text[0..] == text;
    if Contains(text, part) && !(part <= text) {
      ContainsIff(text[1..], part);
      var p :| 0 <= p <= |text[1..]| && part <= text[1..][p..];
      assert text[1..][p..] == text[p + 1..];
    }
    if Occurs(part, text) {
      var p :| 0 <= p <= |text| && part <= text[p..];
      assert text[p..p + |part|] == part;
      ContainsAt(text, part, p);
    }
  }

  /** Lowercasing replaces the 26 capitals by their small letters and nothing else. */
  lemma LowercaseLetters(c: char)
    ensures var capitals, small := "ABCDEFGHIJKLMNOPQRSTUVWXYZ", "abcdefghijklmnopqrstuvwxyz";
      if c in capitals then exists i | 0 <= i < 26 :: capitals[i] == c && LowerChar(c) == small[i]
      else LowerChar(c) == c
  {
    var capitals, small := "ABCDEFGHIJKLMNOPQRSTUVWXYZ", "abcdefghijklmnopqrstuvwxyz";
    assert forall i | 0 <= i < 26 :: capitals[i] == 'A' + (i as char) && small[i] == 'a' + (i as char);
    if 'A' <= c <= 'Z' {
      assert capitals[(c - 'A') as int] == c;
    }
  }

  lemma SmallLetters(c: char)
    ensures c in "abcdefghijklmnopqrstuvwxyz" <==> 'a' <= c <= 'z'
  {
    var all := "abcdefghijklmnopqrstuvwxyz";
    assert forall i | 0 <= i < 26 :: all[i] == 'a' + (i as char);
    if 'a' <= c <= 'z' {
      assert all[(c - 'a') as int] == c;
    }
  }

  lemma Capitals(c: char)
    ensures c in "ABCDEFGHIJKLMNOPQRSTUVWXYZ" <==> 'A' <= c <= 'Z'
  {
    var all := "ABCDEFGHIJKLMNOPQRSTUVWXYZ";
    assert forall i | 0 <= i < 26 :: all[i] == 'A' + (i as char);
    if 'A' <= c <= 'Z' {
      assert all[(c - 'A') as int] == c;
    }
  }

  lemma Digits(c: char)
    ensures c in "0123456789" <==> '0' <= c <= '9'
  {
    var all := "0123456789";
    assert forall i | 0 <= i < 10 :: all[i] == '0' + (i as char);
    if '0' <= c <= '9' {
      assert all[(c - '0') as int] == c;
    }
  }
}
