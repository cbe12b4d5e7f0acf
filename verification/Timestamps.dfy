/**
 The ISO 8601 parser and printer of src/metrics.rs, over texts of one character per
 UTF-8 byte. The profile is the `date-time` of section 5.6 of RFC 3339.
 */
module Timestamps {
  import opened Options
  import opened Decimal
  import opened Calendar

  const DAY := 86400

  function ParseIso(s: string): Option<int> {
    if |s| < 19 then None
    else
      match (ParseLocal(s[..19]), ParseTzOffset(s[19..]))
      case (Some(secs), Some(offset)) => Some(secs - offset)
      case _ => None
  }

  /** The first nineteen columns, as seconds since the epoch were they UTC. */
  function ParseLocal(s: string): Option<int>
    requires |s| == 19
  {
    if s[4] != '-' || s[7] != '-' || s[13] != ':' || s[16] != ':' then None
    else
      match (ParseInt(s[0..4]), ParseInt(s[5..7]), ParseInt(s[8..10]),
             ParseInt(s[11..13]), ParseInt(s[14..16]), ParseInt(s[17..19]))
      case (Some(year), Some(month), Some(day), Some(hour), Some(min), Some(sec)) =>
        if !(1 <= month <= 12) then None
        else if hour > 23 || min > 59 || sec > 60 then None
        else
          var date := Date(year, month, day);
          var days := DaysFromCivil(date);
          if CivilFromDays(days) != date then None
          else Some(days * DAY + hour * 3600 + min * 60 + sec)
      case _ => None
  }

  predicate IsAscii(s: string) {
    forall i | 0 <= i < |s| :: s[i] < 128 as char
  }

  function ParseTzOffset(tz: string): Option<int> {
    if !IsAscii(tz) then None
    else if tz == "" || tz == "Z" || tz == "z" then Some(0)
    else if tz[0] != '+' && tz[0] != '-' then None
    else
      var sign := if tz[0] == '+' then 1 else -1;
      var rest := tz[1..];
      if |rest| == 2 then OffsetFields(sign, rest, "00")
      else if |rest| == 4 then OffsetFields(sign, rest[..2], rest[2..])
      else if |rest| == 5 && rest[2] == ':' then OffsetFields(sign, rest[..2], rest[3..])
      else None
  }

  function OffsetFields(sign: int, hh: string, mm: string): Option<int> {
    if !AllDigits(hh) || !AllDigits(mm) then None
    else
      match (ParseInt(hh), ParseInt(mm))
      case (Some(oh), Some(om)) => if oh > 23 || om > 59 then None else Some(sign * (oh * 3600 + om * 60))
      case _ => None
  }

  function FormatDate(date: Date): string {
    Padded(date.year, 4) + "-" + Padded(date.month, 2) + "-" + Padded(date.day, 2)
  }

  function FormatTime(rem: int): string {
    Padded(rem / 3600, 2) + ":" + Padded(rem % 3600 / 60, 2) + ":" + Padded(rem % 60, 2)
  }

  function FormatIso(secs: int): string {
    FormatDate(CivilFromDays(secs / DAY)) + "T" + FormatTime(secs % DAY) + "Z"
  }

  function DateStr(secs: int): string {
    FormatDate(CivilFromDays(secs / DAY))
  }

  // ----- Round trip -----

  function UtcYear(secs: int): int {
    CivilFromDays(secs / DAY).year
  }

  /** The punctuated layout: where the six fields sit. */
  lemma Layout(y: string, m: string, d: string, h: string, mi: string, se: string)
    requires |y| == 4 && |m| == |d| == |h| == |mi| == |se| == 2
    ensures var s := y + "-" + m + "-" + d + "T" + (h + ":" + mi + ":" + se);
      && |s| == 19 && s[4] == s[7] == '-' && s[13] == s[16] == ':'
      && s[0..4] == y && s[5..7] == m && s[8..10] == d
      && s[11..13] == h && s[14..16] == mi && s[17..19] == se
  {
  }

  lemma TwoDigits(n: int)
    requires 0 <= n < 100
    ensures |Padded(n, 2)| == 2 && ParseInt(Padded(n, 2)) == Some(n)
  {
    hide Padded, ParseInt;
    PaddedLength(n, 2);
    ParsePadded(n, 2);
    assert Pow10(2) == 100;
  }

  lemma ClockParts(rem: int)
    requires 0 <= rem < DAY
    ensures 0 <= rem / 3600 <= 23 && 0 <= rem % 3600 / 60 <= 59 && 0 <= rem % 60 <= 59
    ensures rem / 3600 * 3600 + rem % 3600 / 60 * 60 + rem % 60 == rem
  {
  }

  /** `parse_iso` inverts `format_iso` exactly when the year prints in four columns. */
  lemma ParseFormat(secs: int)
    ensures ParseIso(FormatIso(secs)) == if -999 <= UtcYear(secs) <= 9999 then Some(secs) else None
  {
    hide Padded, ParseInt, CivilFromDays, DaysFromCivil;
    var date, rem := CivilFromDays(secs / DAY), secs % DAY;
    DaysOfCivil(secs / DAY);
    ClockParts(rem);
    PaddedLength(date.year, 4);
    assert Pow10(3) == 1000 && Pow10(4) == 10000;
    TwoDigits(date.month);
    TwoDigits(date.day);
    TwoDigits(rem / 3600);
    TwoDigits(rem % 3600 / 60);
    TwoDigits(rem % 60);
    if -999 <= date.year <= 9999 {
      ParsePadded(date.year, 4);
      Layout(Padded(date.year, 4), Padded(date.month, 2), Padded(date.day, 2),
             Padded(rem / 3600, 2), Padded(rem % 3600 / 60, 2), Padded(rem % 60, 2));
      var local := FormatDate(date) + "T" + FormatTime(rem);
      assert FormatIso(secs)[..19] == local && FormatIso(secs)[19..] == "Z";
    } else {
      FifthColumnIsDigit(date.year);
      assert FormatIso(secs)[..19][4] == Padded(date.year, 4)[4];
    }
  }

  lemma FifthColumnIsDigit(n: int)
    requires |Padded(n, 4)| > 4
    ensures IsDigit(Padded(n, 4)[4])
  {
    hide Numeral, Zeros;
  }

  // ----- What is accepted -----

  predicate Punctuated(s: string) {
    |s| >= 19 && s[4] == s[7] == '-' && s[13] == s[16] == ':'
  }

  /** All six fields consist of digits, as the grammar demands. */
  predicate DigitFields(s: string) {
    && Punctuated(s)
    && AllDigits(s[0..4]) && AllDigits(s[5..7]) && AllDigits(s[8..10])
    && AllDigits(s[11..13]) && AllDigits(s[14..16]) && AllDigits(s[17..19])
  }

  /** No field opens with a sign. */
  predicate Unsigned(s: string)
    requires |s| >= 19
  {
    forall i | i in {0, 5, 8, 11, 14, 17} :: s[i] != '+' && s[i] != '-'
  }

  function FieldDate(s: string): Date
    requires DigitFields(s)
  {
    Date(Value(s[0..4]), Value(s[5..7]), Value(s[8..10]))
  }

  /** A numeric offset designator for `sign` (`oh` hours, `om` minutes). */
  predicate DenotesOffset(tz: string, sign: int, oh: nat, om: nat) {
    && |tz| >= 3 && (sign == 1 || sign == -1) && tz[0] == (if sign == 1 then '+' else '-')
    && oh <= 23 && om <= 59
    && AllDigits(tz[1..3]) && Value(tz[1..3]) == oh
    && if |tz| == 3 then om == 0
       else if |tz| == 5 then AllDigits(tz[3..]) && Value(tz[3..]) == om
       else |tz| == 6 && tz[3] == ':' && AllDigits(tz[4..]) && Value(tz[4..]) == om
  }

  predicate IsUtc(tz: string) {
    tz == "" || tz == "Z" || tz == "z"
  }

  /** Digit fields that name a day of the calendar and a time of day (leap second allowed), and a designator. */
  ghost predicate RealInstant(s: string) {
    && DigitFields(s) && ValidDate(FieldDate(s))
    && Value(s[11..13]) <= 23 && Value(s[14..16]) <= 59 && Value(s[17..19]) <= 60
    && (IsUtc(s[19..]) || exists sign, oh, om :: DenotesOffset(s[19..], sign, oh, om))
  }

  /** A `T`, or a space, between the date and the time. */
  predicate Separated(s: string)
    requires |s| >= 19
  {
    s[10] == 'T' || s[10] == ' '
  }

  /** A real instant in the documented layout, separator and all. */
  ghost predicate Conforms(s: string) {
    RealInstant(s) && Separated(s)
  }

  lemma OffsetOf(tz: string)
    ensures IsUtc(tz) ==> ParseTzOffset(tz) == Some(0)
    ensures forall sign, oh, om :: DenotesOffset(tz, sign, oh, om) ==>
      ParseTzOffset(tz) == Some(sign * (oh * 3600 + om * 60))
    ensures ParseTzOffset(tz).Some? ==> IsUtc(tz) || exists sign, oh, om :: DenotesOffset(tz, sign, oh, om)
  {
    hide Value;
    SmallNumerals();
    if |tz| > 1 {
      var rest := tz[1..];
      if |rest| == 2 {
        assert rest == tz[1..3];
      } else if |rest| == 4 {
        assert rest[..2] == tz[1..3] && rest[2..] == tz[3..];
      } else if |rest| == 5 {
        assert rest[..2] == tz[1..3] && rest[3..] == tz[4..] && rest[2] == tz[3];
      }
    }
    forall sign, oh, om | DenotesOffset(tz, sign, oh, om)
      ensures ParseTzOffset(tz) == Some(sign * (oh * 3600 + om * 60))
    {
    }
    if ParseTzOffset(tz).Some? && !IsUtc(tz) {
      var sign := if tz[0] == '+' then 1 else -1;
      var om := if |tz| == 3 then 0 else if |tz| == 5 then Value(tz[3..]) else Value(tz[4..]);
      assert DenotesOffset(tz, sign, Value(tz[1..3]), om);
    }
  }

  lemma DigitFieldParses(s: string)
    requires s != ""
    ensures AllDigits(s) ==> ParseInt(s) == Some(Value(s)) && s[0] != '+' && s[0] != '-'
    ensures ParseInt(s).Some? && s[0] != '+' && s[0] != '-' ==> AllDigits(s)
  {
  }

  lemma FieldsParse(s: string)
    requires Punctuated(s)
    ensures DigitFields(s) ==>
      && ParseInt(s[0..4]) == Some(Value(s[0..4])) && ParseInt(s[5..7]) == Some(Value(s[5..7]))
      && ParseInt(s[8..10]) == Some(Value(s[8..10])) && ParseInt(s[11..13]) == Some(Value(s[11..13]))
      && ParseInt(s[14..16]) == Some(Value(s[14..16])) && ParseInt(s[17..19]) == Some(Value(s[17..19]))
    ensures DigitFields(s) ==> Unsigned(s)
    ensures ParseLocal(s[..19]).Some? && Unsigned(s) ==> DigitFields(s)
  {
    hide ParseInt, Value, DaysFromCivil, CivilFromDays;
    SameFields(s, s[..19]);
    DigitFieldParses(s[0..4]);
    DigitFieldParses(s[5..7]);
    DigitFieldParses(s[8..10]);
    DigitFieldParses(s[11..13]);
    DigitFieldParses(s[14..16]);
    DigitFieldParses(s[17..19]);
    assert s[0] == s[0..4][0] && s[5] == s[5..7][0] && s[8] == s[8..10][0];
    assert s[11] == s[11..13][0] && s[14] == s[14..16][0] && s[17] == s[17..19][0];
  }

  lemma SameFields(a: string, b: string)
    requires |a| >= 19 && |b| == 19 && a[..19] == b
    ensures a[0..4] == b[0..4] && a[5..7] == b[5..7] && a[8..10] == b[8..10]
    ensures a[11..13] == b[11..13] && a[14..16] == b[14..16] && a[17..19] == b[17..19]
    ensures Punctuated(a) == Punctuated(b)
  {
    assert forall i | 0 <= i < 19 :: a[i] == b[i];
  }

  /**
   On digit fields the parser accepts exactly the real instants, whatever separates date and
   time, and reads them off the calendar: as many days as pages are turned from the epoch to
   the date, and the time of day.
   */
  lemma AcceptsRealInstants(s: string)
    requires DigitFields(s)
    ensures ParseIso(s).Some? <==> RealInstant(s)
    ensures ParseIso(s).Some? && Separated(s) <==> Conforms(s)
    ensures forall days, offset {:trigger TurnPages(days), Some(offset)} ::
      RealInstant(s) && TurnPages(days) == FieldDate(s) && ParseTzOffset(s[19..]) == Some(offset) ==>
        ParseIso(s) ==
          Some(days * DAY + Value(s[11..13]) * 3600 + Value(s[14..16]) * 60 + Value(s[17..19]) - offset)
  {
    hide ParseInt, Value, ParseTzOffset, DaysFromCivil, CivilFromDays, TurnPages;
    forall days | TurnPages(days) == FieldDate(s)
      ensures DaysFromCivil(FieldDate(s)) == days
    {
      ClosedFormTurnsPages(days);
      DaysOfCivil(days);
    }
    FieldsParse(s);
    SameFields(s, s[..19]);
    SurvivesIffValid(FieldDate(s));
    OffsetOf(s[19..]);
  }

  /** The parser never looks at the column between the date and the time. */
  lemma SeparatorIsIgnored(s: string, c: char)
    requires |s| >= 19
    ensures ParseIso(s[10 := c]) == ParseIso(s)
  {
    hide ParseInt, DaysFromCivil, CivilFromDays, ParseTzOffset;
    var t := s[10 := c];
    assert t[19..] == s[19..];
    var a, b := s[..19], t[..19];
    assert a[0..4] == b[0..4] && a[5..7] == b[5..7] && a[8..10] == b[8..10];
    assert a[11..13] == b[11..13] && a[14..16] == b[14..16] && a[17..19] == b[17..19];
  }

  /**
   The documentation promises `None` on any malformation. An accepted text is well formed
   exactly when no field opens with a sign and a `T` or a space separates date and time.
   */
  lemma AcceptedConformsIff(s: string)
    requires ParseIso(s).Some?
    ensures Conforms(s) <==> Unsigned(s) && (s[10] == 'T' || s[10] == ' ')
  {
    hide ParseInt, Value, ParseTzOffset, DaysFromCivil, CivilFromDays;
    SameFields(s, s[..19]);
    FieldsParse(s);
    if Unsigned(s) {
      AcceptsRealInstants(s);
    }
  }

  /** What the parser reads when the six fields have the given values. */
  lemma ReadsFields(y: string, m: string, d: string, h: string, mi: string, se: string, date: Date, hour: int,
      min: int, sec: int)
    requires |y| == 4 && |m| == |d| == |h| == |mi| == |se| == 2
    requires ParseInt(y) == Some(date.year) && ParseInt(m) == Some(date.month) && ParseInt(d) == Some(date.day)
    requires ParseInt(h) == Some(hour) && ParseInt(mi) == Some(min) && ParseInt(se) == Some(sec)
    requires ValidDate(date) && hour <= 23 && min <= 59 && sec <= 60
    ensures ParseIso(y + "-" + m + "-" + d + "T" + (h + ":" + mi + ":" + se) + "Z")
         == Some(DaysFromCivil(date) * DAY + hour * 3600 + min * 60 + sec)
  {
    hide ParseInt, DaysFromCivil, CivilFromDays;
    Layout(y, m, d, h, mi, se);
    CivilOfDays(date);
    var local := y + "-" + m + "-" + d + "T" + (h + ":" + mi + ":" + se);
    assert (local + "Z")[..19] == local && (local + "Z")[19..] == "Z";
  }

  /** A signed hour is not a time of day, yet it is read as one: 23:00 on the day before. */
  lemma SignedHourIsAccepted()
    ensures ParseIso("2026-07-01T-1:00:00Z") == ParseIso("2026-06-30T23:00:00Z") != None
    ensures !Conforms("2026-07-01T-1:00:00Z")
  {
    hide ParseInt, DaysFromCivil, ParseIso, Conforms;
    SmallNumerals();
    var june := Date(2026, 6, 30);
    NextDayIsPlusOne(june);
    assert NextDay(june) == Date(2026, 7, 1);
    ReadsFields("2026", "07", "01", "-1", "00", "00", Date(2026, 7, 1), -1, 0, 0);
    ReadsFields("2026", "06", "30", "23", "00", "00", june, 23, 0, 0);
    assert "2026-07-01T-1:00:00Z" == "2026" + "-" + "07" + "-" + "01" + "T" + ("-1" + ":" + "00" + ":" + "00") + "Z";
    assert "2026-06-30T23:00:00Z" == "2026" + "-" + "06" + "-" + "30" + "T" + ("23" + ":" + "00" + ":" + "00") + "Z";
    AcceptedConformsIff("2026-07-01T-1:00:00Z");
    assert "2026-07-01T-1:00:00Z"[11] == '-';
  }

  /** Any character in the separator's column is accepted, an `X` as well as a `T`. */
  lemma OtherSeparatorIsAccepted()
    ensures ParseIso("2026-07-01X00:00:00Z") == ParseIso("2026-07-01T00:00:00Z") != None
    ensures !Conforms("2026-07-01X00:00:00Z")
  {
    hide ParseInt, DaysFromCivil, ParseIso, RealInstant;
    SmallNumerals();
    ReadsFields("2026", "07", "01", "00", "00", "00", Date(2026, 7, 1), 0, 0, 0);
    assert "2026-07-01T00:00:00Z" ==
      "2026" + "-" + "07" + "-" + "01" + "T" + ("00" + ":" + "00" + ":" + "00") + "Z";
    SeparatorIsIgnored("2026-07-01T00:00:00Z", 'X');
    assert "2026-07-01T00:00:00Z"[10 := 'X'] == "2026-07-01X00:00:00Z";
  }

  lemma SmallNumerals()
    ensures ParseInt("2026") == Some(2026) && ParseInt("07") == Some(7) && ParseInt("06") == Some(6)
    ensures ParseInt("01") == Some(1) && ParseInt("30") == Some(30) && ParseInt("23") == Some(23)
    ensures ParseInt("00") == Some(0) && ParseInt("-1") == Some(-1)
    ensures AllDigits("00") && Value("00") == 0
  {
    assert "2026"[..3] == "202" && "202"[..2] == "20" && "20"[..1] == "2" && "2"[..0] == "";
    assert Value("2") == 2 && Value("20") == 20 && Value("202") == 202;
    assert "0"[..0] == "" && "07"[..1] == "06"[..1] == "01"[..1] == "00"[..1] == "0" && Value("0") == 0;
    assert "30"[..1] == "3" && "3"[..0] == "" && Value("3") == 3;
    assert "23"[..1] == "2" && "-1"[1..] == "1" && "1"[..0] == "" && Value("1") == 1;
  }

  // ----- Offsets -----

  /** The same local time under an explicit offset is the UTC reading less that offset. */
  lemma OffsetIsSubtracted(local: string, tz: string)
    requires |local| == 19
    ensures ParseIso(local + tz) ==
      (match (ParseIso(local + "Z"), ParseTzOffset(tz))
       case (Some(t), Some(offset)) => Some(t - offset)
       case _ => None)
  {
    hide ParseLocal;
    assert (local + tz)[19..] == tz && (local + "Z")[19..] == "Z" && ParseTzOffset("Z") == Some(0);
    assert (local + tz)[..19] == (local + "Z")[..19] == local;
  }
}
