/**
 Decimal numerals: the printing behind `format!` and the parsing behind `str::parse`.
 A text is a sequence of characters, one for each UTF-8 byte.
 */
module Decimal {
  import opened Options

  predicate IsDigit(c: char) {
    '0' <= c <= '9'
  }

  predicate AllDigits(s: string) {
    forall i | 0 <= i < |s| :: IsDigit(s[i])
  }

  function Digit(n: int): char
    requires 0 <= n < 10
  {
    '0' + (n as char)
  }

  /** The numeral of a natural number, without leading zeros. */
  function Numeral(n: nat): (s: string)
    ensures |s| >= 1 && AllDigits(s)
    decreases n
  {
    if n < 10 then [Digit(n)] else Numeral(n / 10) + [Digit(n % 10)]
  }

  function Value(s: string): nat
    requires AllDigits(s)
  {
    if s == [] then 0
    else 10 * Value(s[..|s| - 1]) + (s[|s| - 1] - '0') as nat
  }

  function Zeros(n: int): (s: string)
    ensures AllDigits(s) && |s| == if n <= 0 then 0 else n
  {
    if n <= 0 then "" else Zeros(n - 1) + "0"
  }

  /** Rust's `{:0w}`: zero padding to width `w`, the sign counting as one column. */
  function Padded(n: int, w: nat): string {
    if n >= 0 then Zeros(w - |Numeral(n)|) + Numeral(n)
    else "-" + Zeros(w - 1 - |Numeral(-n)|) + Numeral(-n)
  }

  /** Rust's `parse::<i64>` on a short text: digits, optionally preceded by one sign. */
  function ParseInt(s: string): Option<int> {
    if s == [] then None
    else if s[0] == '-' then
      if |s| == 1 || !AllDigits(s[1..]) then None else Some(0 - Value(s[1..]))
    else if s[0] == '+' then
      if |s| == 1 || !AllDigits(s[1..]) then None else Some(Value(s[1..]))
    else if AllDigits(s) then Some(Value(s))
    else None
  }

  lemma {:induction false} ValueOfNumeral(n: nat)
    ensures Value(Numeral(n)) == n
    decreases n
  {
    if n >= 10 {
      ValueOfNumeral(n / 10);
      assert Numeral(n)[..|Numeral(n)| - 1] == Numeral(n / 10);
    }
  }

  lemma ValueOfLonger(s: string, c: char)
    requires AllDigits(s) && IsDigit(c)
    ensures AllDigits(s + [c]) && Value(s + [c]) == 10 * Value(s) + (c - '0') as nat
  {
    assert (s + [c])[..|s|] == s;
  }

  lemma TimesTen(a: nat, p: nat)
    ensures a * (10 * p) == 10 * (a * p)
  {
  }

  lemma ConcatOneMore(a: string, init: string, c: char)
    requires AllDigits(a) && AllDigits(init) && AllDigits(a + init) && IsDigit(c)
    requires Value(a + init) == Value(a) * Pow10(|init|) + Value(init)
    ensures AllDigits((a + init) + [c]) && AllDigits(init + [c])
    ensures Value((a + init) + [c]) == Value(a) * Pow10(|init| + 1) + Value(init + [c])
  {
    assert Pow10(|init| + 1) == 10 * Pow10(|init|);
    hide Value, Pow10;
    ValueOfLonger(a + init, c);
    ValueOfLonger(init, c);
    TimesTen(Value(a), Pow10(|init|));
  }

  lemma SplitLast(a: string, b: string)
    requires b != "" && AllDigits(b)
    ensures var init, c := b[..|b| - 1], b[|b| - 1];
      b == init + [c] && a + b == (a + init) + [c] && AllDigits(init) && IsDigit(c)
  {
  }

  lemma {:induction false} ValueOfConcat(a: string, b: string)
    requires AllDigits(a) && AllDigits(b)
    ensures AllDigits(a + b) && Value(a + b) == Value(a) * Pow10(|b|) + Value(b)
    decreases |b|
  {
    if b == "" {
      assert a + b == a;
    } else {
      hide Value, Pow10, AllDigits, IsDigit;
      var init, c := b[..|b| - 1], b[|b| - 1];
      SplitLast(a, b);
      ValueOfConcat(a, init);
      ConcatOneMore(a, init, c);
    }
  }

  lemma {:induction false} ValueOfZeros(k: int)
    ensures Value(Zeros(k)) == 0
    decreases if k <= 0 then 0 else k
  {
    if k > 0 {
      ValueOfZeros(k - 1);
      assert Zeros(k)[..|Zeros(k)| - 1] == Zeros(k - 1);
    }
  }

  lemma ValueOfZerosThen(k: int, s: string)
    requires AllDigits(s)
    ensures AllDigits(Zeros(k) + s) && Value(Zeros(k) + s) == Value(s)
  {
    hide Value, Zeros;
    ValueOfZeros(k);
    ValueOfConcat(Zeros(k), s);
  }

  lemma {:induction false} ValueBound(s: string)
    requires AllDigits(s)
    ensures Value(s) < Pow10(|s|)
  {
    if s != [] {
      ValueBound(s[..|s| - 1]);
    }
  }

  function Pow10(k: nat): (p: nat)
    ensures p >= 1
  {
    if k == 0 then 1 else 10 * Pow10(k - 1)
  }

  /** A numeral has at most `k` digits exactly when the number is below 10 to the `k`. */
  lemma {:induction false} NumeralLength(n: nat, k: nat)
    requires k >= 1
    ensures |Numeral(n)| <= k <==> n < Pow10(k)
    decreases k
  {
    if n >= 10 && k > 1 {
      NumeralLength(n / 10, k - 1);
    } else if n < 10 {
      assert Pow10(k) >= 10;
    } else {
      assert Pow10(1) == 10;
    }
  }

  /** Printing is injective: a numeral determines its number. */
  lemma NumeralInjective(m: nat, n: nat)
    requires Numeral(m) == Numeral(n)
    ensures m == n
  {
    ValueOfNumeral(m);
    ValueOfNumeral(n);
  }

  /** Zero-padded printing parses back to the number, whatever its sign and width. */
  lemma ParsePadded(n: int, w: nat)
    ensures ParseInt(Padded(n, w)) == Some(n)
  {
    hide Numeral, Value, Zeros;
    if n >= 0 {
      var k := w - |Numeral(n)|;
      ValueOfZerosThen(k, Numeral(n));
      ValueOfNumeral(n);
      assert IsDigit((Zeros(k) + Numeral(n))[0]);
    } else {
      var k := w - 1 - |Numeral(-n)|;
      ValueOfZerosThen(k, Numeral(-n));
      ValueOfNumeral(-n);
      assert ("-" + Zeros(k) + Numeral(-n))[1..] == Zeros(k) + Numeral(-n);
    }
  }

  /** A padded number fills its width exactly when it fits. */
  lemma PaddedLength(n: int, w: nat)
    requires w >= 2
    ensures |Padded(n, w)| >= w
    ensures |Padded(n, w)| == w <==> 0 - Pow10(w - 1) < n < Pow10(w)
  {
    if n >= 0 {
      NumeralLength(n, w);
    } else {
      NumeralLength(-n, w - 1);
    }
  }

  /** What `ParseInt` reads: digits, at least one, behind one sign at most. */
  lemma ParseIntReads(digits: string)
    requires digits != "" && AllDigits(digits)
    ensures ParseInt(digits) == ParseInt("+" + digits) == Some(Value(digits))
    ensures ParseInt("-" + digits) == Some(0 - Value(digits))
  {
    assert ("+" + digits)[1..] == digits && ("-" + digits)[1..] == digits;
  }

  /** And nothing else. */
  lemma ParseIntReadsNumerals(s: string)
    requires ParseInt(s).Some?
    ensures exists digits: string :: digits != "" && AllDigits(digits) && s in [digits, "+" + digits, "-" + digits]
  {
    if s[0] == '-' || s[0] == '+' {
      assert s == [s[0]] + s[1..];
      assert s[1..] != "";
    }
  }
}
