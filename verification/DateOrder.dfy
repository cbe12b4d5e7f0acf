/**
 The `date_str` of src/metrics.rs as a key: every UTC day has a text of its own, and for any two
 days it says exactly when their texts sort in time order.
 */
module DateOrder {
  import opened Options
  import opened Decimal
  import opened Calendar
  import opened Lexicographic
  import opened Timestamps

  // ----- A text for each day -----

  lemma FieldsOfDate(ay: string, am: string, ad: string, yb: string, bm: string, bd: string)
    requires |ay| == |yb| && |am| == |bm| && |ad| == |bd|
    requires ay + "-" + am + "-" + ad == yb + "-" + bm + "-" + bd
    ensures ay == yb && am == bm && ad == bd
  {
    var s, t := ay + "-" + am + "-" + ad, yb + "-" + bm + "-" + bd;
    assert ay == s[..|ay|] && yb == t[..|ay|];
    assert am == s[|ay| + 1..|ay| + 1 + |am|] && bm == t[|ay| + 1..|ay| + 1 + |am|];
    assert ad == s[|ay| + 2 + |am|..] && bd == t[|ay| + 2 + |am|..];
  }

  /** A date's text determines the date, whatever its year. */
  lemma FormatDateInjective(a: Date, b: Date)
    requires ValidDate(a) && ValidDate(b) && FormatDate(a) == FormatDate(b)
    ensures a == b
  {
    hide Padded, ParseInt;
    var ay, am, ad := Padded(a.year, 4), Padded(a.month, 2), Padded(a.day, 2);
    var yb, bm, bd := Padded(b.year, 4), Padded(b.month, 2), Padded(b.day, 2);
    TwoDigits(a.month);
    TwoDigits(a.day);
    TwoDigits(b.month);
    TwoDigits(b.day);
    assert |FormatDate(a)| == |ay| + 6 && |FormatDate(b)| == |yb| + 6;
    FieldsOfDate(ay, am, ad, yb, bm, bd);
    ParsePadded(a.year, 4);
    ParsePadded(b.year, 4);
  }

  /** So `date_str` groups instants by UTC day: every day has a text of its own. */
  lemma DateStrIsTheDay(t: int, u: int)
    ensures DateStr(t) == DateStr(u) <==> t / DAY == u / DAY
  {
    hide CivilFromDays, DaysFromCivil, FormatDate;
    DaysOfCivil(t / DAY);
    DaysOfCivil(u / DAY);
    if DateStr(t) == DateStr(u) {
      FormatDateInjective(CivilFromDays(t / DAY), CivilFromDays(u / DAY));
    }
  }

  // ----- Numerals as texts -----

  /** Numerals of one width sort as their values do. */
  lemma {:induction false} NumeralsSortByValue(a: string, b: string)
    requires |a| == |b| && AllDigits(a) && AllDigits(b)
    ensures LexLess(a, b) <==> Value(a) < Value(b)
    ensures a == b <==> Value(a) == Value(b)
  {
    if a != "" {
      var n := |a| - 1;
      NumeralsSortByValue(a[..n], b[..n]);
      LexConcat(a[..n], [a[n]], b[..n], [b[n]]);
      assert a == a[..n] + [a[n]] && b == b[..n] + [b[n]];
      assert LexLess([a[n]], [b[n]]) <==> a[n] < b[n] by { assert [a[n]][1..] == [b[n]][1..] == ""; }
    }
  }

  /** A text that goes on with a hyphen. */
  predicate Hyphenated(u: string) {
    u != "" && u[0] == '-'
  }

  lemma HyphenBeforeDigit(u: string, b: string, v: string)
    requires Hyphenated(u) && b != "" && AllDigits(b)
    ensures LexLess(u, b + v) && !LexLess(b + v, u)
  {
    assert (b + v)[0] == b[0];
  }

  /** Multiplying out: `q` tens of powers and less than one power more. */
  lemma ScaledBound(a: nat, q: nat, p: nat, rest: nat)
    requires rest < p
    ensures a <= q <==> a * p <= q * p + rest
  {
    if a <= q {
      assert (q - a) * p >= 0;
    } else {
      assert (a - q - 1) * p >= 0;
    }
  }

  /** A numeral against a longer one, a hyphen behind each: the shorter is scaled up to the longer. */
  lemma ShorterNumeralSorts(a: string, x: string, u: string, v: string)
    requires AllDigits(a) && AllDigits(x) && |a| < |x| && Hyphenated(u) && Hyphenated(v)
    ensures LexLess(a + u, x + v) <==> Value(a) * Pow10(|x| - |a|) <= Value(x)
    ensures LexLess(x + v, a + u) <==> Value(x) < Value(a) * Pow10(|x| - |a|)
  {
    hide LexLess, Value, Pow10;
    var head, tail := x[..|a|], x[|a|..];
    assert x == head + tail && x + v == head + (tail + v);
    ValueOfConcat(head, tail);
    ValueBound(tail);
    ScaledBound(Value(a), Value(head), Pow10(|tail|), Value(tail));
    NumeralsSortByValue(a, head);
    NumeralsSortByValue(head, a);
    LexConcat(a, u, head, tail + v);
    LexConcat(head, tail + v, a, u);
    HyphenBeforeDigit(u, tail, v);
  }

  lemma SameWidthSorts(a: string, x: string, u: string, v: string)
    requires AllDigits(a) && AllDigits(x) && |a| == |x| && Value(a) != Value(x)
    ensures LexLess(a + u, x + v) <==> Value(a) < Value(x)
  {
    hide LexLess, Value;
    NumeralsSortByValue(a, x);
    LexConcat(a, u, x, v);
  }

  /** Two numerals, the shorter scaled up to the longer. */
  lemma NumeralsSortScaled(a: string, x: string, u: string, v: string, p: nat)
    requires AllDigits(a) && AllDigits(x) && |a| <= |x| && p == Pow10(|x| - |a|) && Value(a) < Value(x)
    requires Hyphenated(u) && Hyphenated(v)
    ensures LexLess(a + u, x + v) <==> Value(a) * p <= Value(x)
    ensures LexLess(x + v, a + u) <==> Value(x) < Value(a) * p
  {
    hide LexLess, Value;
    if |a| < |x| {
      ShorterNumeralSorts(a, x, u, v);
    } else {
      SameWidthSorts(a, x, u, v);
      SameWidthSorts(x, a, v, u);
      assert p == 1;
    }
  }

  // ----- Years as texts -----

  /** The digits a year is printed with, its sign aside. */
  function Digits(y: int): (s: string) {
    if y >= 0 then Padded(y, 4) else Padded(y, 4)[1..]
  }

  lemma PaddedDigits(n: nat, k: int)
    ensures AllDigits(Zeros(k) + Numeral(n)) && Value(Zeros(k) + Numeral(n)) == n
  {
    hide Numeral, Zeros, Value;
    ValueOfNumeral(n);
    ValueOfZerosThen(k, Numeral(n));
  }

  lemma YearText(y: int)
    ensures AllDigits(Digits(y)) && Value(Digits(y)) == if y >= 0 then y else -y
    ensures Padded(y, 4) == if y >= 0 then Digits(y) else "-" + Digits(y)
  {
    hide Numeral, Zeros, Value;
    if y >= 0 {
      PaddedDigits(y, 4 - |Numeral(y)|);
    } else {
      var k := 3 - |Numeral(-y)|;
      PaddedDigits(-y, k);
      assert Padded(y, 4) == "-" + (Zeros(k) + Numeral(-y));
    }
  }

  /** Ten to as many places as the two years differ by in width. */
  function Scale(y: int, z: int): nat {
    var m, n := |Padded(y, 4)|, |Padded(z, 4)|;
    Pow10(if m < n then n - m else m - n)
  }

  /**
   Does the earlier year `y` sort before the later year `z`? A negative year does before one that
   is not; of two others, the one printed shorter is scaled up to the width of the longer.
   */
  predicate YearsSort(y: int, z: int) {
    || (y < 0 <= z)
    || (y >= 0 && y * Scale(y, z) <= z)
    || (z < 0 && -y < -z * Scale(y, z))
  }

  /** A greater number is not printed shorter. */
  lemma WidthGrows(m: nat, n: nat)
    requires m <= n
    ensures |Padded(m, 4)| <= |Padded(n, 4)|
    ensures |Padded(0 - m, 4)| <= |Padded(0 - n, 4)| || m == 0
  {
    hide Zeros;
    NumeralLength(m, |Numeral(n)|);
    NumeralLength(n, |Numeral(n)|);
  }

  lemma PlainYearsSort(y: nat, z: nat, u: string, v: string)
    requires y < z && Hyphenated(u) && Hyphenated(v)
    ensures LexLess(Padded(y, 4) + u, Padded(z, 4) + v) <==> y * Scale(y, z) <= z
  {
    hide LexLess, Value, Padded, Pow10;
    YearText(y);
    YearText(z);
    WidthGrows(y, z);
    NumeralsSortScaled(Padded(y, 4), Padded(z, 4), u, v, Scale(y, z));
  }

  lemma NegativeScale(y: int, z: int)
    requires y < z < 0
    ensures |Digits(z)| <= |Digits(y)| && Scale(y, z) == Pow10(|Digits(y)| - |Digits(z)|)
  {
    hide Padded, Value, Pow10;
    YearText(y);
    YearText(z);
    WidthGrows(0 - z, 0 - y);
  }

  lemma NegativeYearsSort(y: int, z: int, u: string, v: string)
    requires y < z < 0 && Hyphenated(u) && Hyphenated(v)
    ensures LexLess(Padded(y, 4) + u, Padded(z, 4) + v) <==> -y < -z * Scale(y, z)
  {
    hide LexLess, Value, Padded, Pow10, Scale, Digits;
    YearText(y);
    YearText(z);
    NegativeScale(y, z);
    var a, x := Digits(z), Digits(y);
    assert Padded(y, 4) + u == "-" + (x + u) && Padded(z, 4) + v == "-" + (a + v);
    LexCommonPrefix("-", x + u, a + v);
    NumeralsSortScaled(a, x, v, u, Scale(y, z));
  }

  lemma SignSorts(y: int, z: int, u: string, v: string)
    requires y < 0 <= z
    ensures LexLess(Padded(y, 4) + u, Padded(z, 4) + v)
  {
    hide Value, Padded;
    YearText(y);
    YearText(z);
    assert Digits(z) != "" by { ParsePadded(z, 4); }
    assert (Padded(y, 4) + u)[0] == '-' && (Padded(z, 4) + v)[0] == Digits(z)[0];
  }

  // ----- Dates as texts -----

  function BehindYear(date: Date): string {
    "-" + (Padded(date.month, 2) + ("-" + Padded(date.day, 2)))
  }

  lemma TwoDigitsSort(m: int, n: int)
    requires 0 <= m < 100 && 0 <= n < 100
    ensures |Padded(m, 2)| == |Padded(n, 2)| && (Padded(m, 2) == Padded(n, 2) <==> m == n)
    ensures LexLess(Padded(m, 2), Padded(n, 2)) <==> m < n
  {
    hide Numeral, Zeros, Value, LexLess;
    TwoDigits(m);
    TwoDigits(n);
    ValueOfNumeral(m);
    ValueOfNumeral(n);
    ValueOfZerosThen(2 - |Numeral(m)|, Numeral(m));
    ValueOfZerosThen(2 - |Numeral(n)|, Numeral(n));
    NumeralsSortByValue(Padded(m, 2), Padded(n, 2));
  }

  lemma SameYearSorts(a: Date, b: Date)
    requires ValidDate(a) && ValidDate(b) && a.year == b.year && Earlier(a, b)
    ensures LexLess(FormatDate(a), FormatDate(b))
  {
    hide Padded, LexLess;
    var y := Padded(a.year, 4);
    assert FormatDate(a) == y + BehindYear(a) && FormatDate(b) == y + BehindYear(b);
    LexCommonPrefix(y, BehindYear(a), BehindYear(b));
    var am, ad, bm, bd := Padded(a.month, 2), Padded(a.day, 2), Padded(b.month, 2), Padded(b.day, 2);
    LexCommonPrefix("-", am + ("-" + ad), bm + ("-" + bd));
    TwoDigitsSort(a.month, b.month);
    TwoDigitsSort(a.day, b.day);
    LexConcat(am, "-" + ad, bm, "-" + bd);
    LexCommonPrefix("-", ad, bd);
  }

  /** Of two dates the text of the earlier sorts first exactly when the years are the same or sort. */
  lemma DatesSortIff(a: Date, b: Date)
    requires ValidDate(a) && ValidDate(b) && Earlier(a, b)
    ensures LexLess(FormatDate(a), FormatDate(b)) <==> a.year == b.year || YearsSort(a.year, b.year)
  {
    hide Padded, LexLess, Scale;
    var u, v := BehindYear(a), BehindYear(b);
    assert FormatDate(a) == Padded(a.year, 4) + u && FormatDate(b) == Padded(b.year, 4) + v;
    if a.year == b.year {
      SameYearSorts(a, b);
    } else if a.year >= 0 {
      PlainYearsSort(a.year, b.year, u, v);
    } else if b.year < 0 {
      NegativeYearsSort(a.year, b.year, u, v);
    } else {
      SignSorts(a.year, b.year, u, v);
    }
  }

  /** For any two days: the text of the earlier sorts first exactly when the years are the same or sort. */
  lemma DateStrSortsIff(t: int, u: int)
    requires t / DAY < u / DAY
    ensures LexLess(DateStr(t), DateStr(u)) <==> UtcYear(t) == UtcYear(u) || YearsSort(UtcYear(t), UtcYear(u))
  {
    hide CivilFromDays, DaysFromCivil, FormatDate, YearsSort, LexLess;
    DaysOfCivil(t / DAY);
    DaysOfCivil(u / DAY);
    var a, b := CivilFromDays(t / DAY), CivilFromDays(u / DAY);
    DaysAreChronological(a, b);
    DatesSortIff(a, b);
  }

  lemma FourColumns(y: int, z: int)
    requires -999 <= y < z <= 9999
    ensures YearsSort(y, z) <==> z >= 0
  {
    hide Padded;
    PaddedLength(y, 4);
    PaddedLength(z, 4);
    assert Pow10(3) == 1000 && Pow10(4) == 10000 && Pow10(0) == 1;
  }

  /**
   While years print in four columns, text order is time order exactly unless both years are
   negative and different.
   */
  lemma DateStrSortsByDay(t: int, u: int)
    requires -999 <= UtcYear(t) <= 9999 && -999 <= UtcYear(u) <= 9999
    ensures (LexLess(DateStr(t), DateStr(u)) <==> t / DAY < u / DAY)
       <==> !(UtcYear(t) < 0 && UtcYear(u) < 0 && UtcYear(t) != UtcYear(u))
  {
    hide DateStr, YearsSort, LexLess, UtcYear;
    LexTrichotomy(DateStr(t), DateStr(u));
    DateStrIsTheDay(t, u);
    if t / DAY < u / DAY {
      DateStrSortsIff(t, u);
      LaterYear(t, u);
    } else if u / DAY < t / DAY {
      DateStrSortsIff(u, t);
      LaterYear(u, t);
    } else {
      assert UtcYear(t) == UtcYear(u) by { SameDay(t, u); }
    }
  }

  lemma SameDay(t: int, u: int)
    requires t / DAY == u / DAY
    ensures UtcYear(t) == UtcYear(u)
  {
  }

  lemma LaterYear(t: int, u: int)
    requires t / DAY < u / DAY && -999 <= UtcYear(t) <= 9999 && -999 <= UtcYear(u) <= 9999
    ensures UtcYear(t) <= UtcYear(u)
    ensures UtcYear(t) < UtcYear(u) ==> (YearsSort(UtcYear(t), UtcYear(u)) <==> UtcYear(u) >= 0)
  {
    hide CivilFromDays, DaysFromCivil, YearsSort;
    DaysOfCivil(t / DAY);
    DaysOfCivil(u / DAY);
    DaysAreChronological(CivilFromDays(t / DAY), CivilFromDays(u / DAY));
    if UtcYear(t) < UtcYear(u) {
      FourColumns(UtcYear(t), UtcYear(u));
    }
  }

  // ----- Texts that lose the order -----

  /** Midnight of a date is in its year. */
  lemma MidnightYear(date: Date, t: int)
    requires ValidDate(date) && DaysFromCivil(date) * DAY <= t < DaysFromCivil(date) * DAY + DAY
    ensures UtcYear(t) == date.year && t / DAY == DaysFromCivil(date)
  {
    hide DaysFromCivil, CivilFromDays;
    CivilOfDays(date);
    assert t / DAY == DaysFromCivil(date);
  }

  lemma NegativeNumerals()
    ensures ParseInt("-001") == Some(-1) && ParseInt("-002") == Some(-2)
  {
    assert "-001"[1..] == "001" && "-002"[1..] == "002";
    assert "001"[..2] == "002"[..2] == "00" && "00"[..1] == "0" && "0"[..0] == "";
    assert Value("0") == 0 && Value("00") == 0;
  }

  /** Two parsed texts of different negative years: the later instant has the smaller date text. */
  lemma EarlierYearSortsLater()
    ensures var t, u := ParseIso("-001-01-01T00:00:00Z"), ParseIso("-002-01-01T00:00:00Z");
      t.Some? && u.Some? && u.value / DAY < t.value / DAY && LexLess(DateStr(t.value), DateStr(u.value))
  {
    hide ParseInt, DaysFromCivil, ParseIso, YearsSort, LexLess, DateStr, UtcYear;
    SmallNumerals();
    NegativeNumerals();
    var a, b := Date(-1, 1, 1), Date(-2, 1, 1);
    ReadsFields("-001", "01", "01", "00", "00", "00", a, 0, 0, 0);
    ReadsFields("-002", "01", "01", "00", "00", "00", b, 0, 0, 0);
    assert "-001-01-01T00:00:00Z" == "-001" + "-" + "01" + "-" + "01" + "T" + ("00" + ":" + "00" + ":" + "00") + "Z";
    assert "-002-01-01T00:00:00Z" == "-002" + "-" + "01" + "-" + "01" + "T" + ("00" + ":" + "00" + ":" + "00") + "Z";
    DaysAreChronological(b, a);
    var t, u := DaysFromCivil(a) * DAY, DaysFromCivil(b) * DAY;
    MidnightYear(a, t);
    MidnightYear(b, u);
    DateStrSortsIff(u, t);
    FourColumns(-2, -1);
    LexTrichotomy(DateStr(t), DateStr(u));
    DateStrIsTheDay(t, u);
  }

  lemma LateNumerals()
    ensures ParseInt("9999") == Some(9999) && ParseInt("12") == Some(12) && ParseInt("31") == Some(31)
    ensures ParseTzOffset("-01:00") == Some(-3600)
  {
    SmallNumerals();
    assert "9999"[..3] == "999" && "999"[..2] == "99" && "99"[..1] == "9" && "9"[..0] == "";
    assert Value("9") == 9 && Value("99") == 99 && Value("999") == 999;
    assert "12"[..1] == "1" && "31"[..1] == "3" && "1"[..0] == "3"[..0] == "" && Value("1") == 1 && Value("3") == 3;
    assert "-01:00"[1..] == "01:00" && "01:00"[..2] == "01" && "01:00"[3..] == "00";
  }

  lemma FiveColumns()
    ensures !YearsSort(9999, 10000)
  {
    hide Padded;
    PaddedLength(9999, 4);
    assert Pow10(4) == 10000 && Pow10(3) == 1000 && Pow10(1) == 10;
    WideYear();
  }

  lemma WideYear()
    ensures |Padded(10000, 4)| == 5
  {
    NumeralLength(10000, 4);
    NumeralLength(10000, 5);
    assert Pow10(4) == 10000 && Pow10(5) == 100000;
  }

  /** An offset leads out of the four columns: an instant of the year 10000 sorts before one an hour earlier. */
  lemma OffsetReachesFiveColumns()
    ensures var t, u := ParseIso("9999-12-31T23:00:00-01:00"), ParseIso("9999-12-31T23:00:00Z");
      t.Some? && u.Some? && u.value / DAY < t.value / DAY && LexLess(DateStr(t.value), DateStr(u.value))
  {
    hide ParseInt, DaysFromCivil, ParseIso, ParseTzOffset, YearsSort, LexLess, DateStr, UtcYear;
    SmallNumerals();
    LateNumerals();
    var last, next := Date(9999, 12, 31), Date(10000, 1, 1);
    ReadsFields("9999", "12", "31", "23", "00", "00", last, 23, 0, 0);
    var local := "9999-12-31T23:00:00";
    assert local + "Z" == "9999" + "-" + "12" + "-" + "31" + "T" + ("23" + ":" + "00" + ":" + "00") + "Z";
    OffsetIsSubtracted(local, "-01:00");
    assert local + "Z" == "9999-12-31T23:00:00Z" && local + "-01:00" == "9999-12-31T23:00:00-01:00";
    NextDayIsPlusOne(last);
    assert NextDay(last) == next;
    var u := DaysFromCivil(last) * DAY + 23 * 3600;
    var t := u + 3600;
    MidnightYear(last, u);
    MidnightYear(next, t);
    DateStrSortsIff(u, t);
    FiveColumns();
    LexTrichotomy(DateStr(t), DateStr(u));
    DateStrIsTheDay(t, u);
  }
}
