/**
 The closed-form civil-date arithmetic of src/metrics.rs, and its agreement with a
 calendar that knows nothing but month lengths and the 4/100/400 leap rule.
 */
module Calendar {

  /** The source's integer division: truncates toward zero. */
  function TruncDiv(a: int, b: int): int
    requires b > 0
  {
    if a >= 0 then a / b else -((-a) / b)
  }

  datatype Date = Date(year: int, month: int, day: int)

  function DaysFromCivil(date: Date): int {
    var y := if date.month <= 2 then date.year - 1 else date.year;
    var era := TruncDiv(if y >= 0 then y else y - 399, 400);
    var yoe := y - era * 400;
    var doy := TruncDiv(153 * (if date.month > 2 then date.month - 3 else date.month + 9) + 2, 5) + date.day - 1;
    var doe := yoe * 365 + TruncDiv(yoe, 4) - TruncDiv(yoe, 100) + doy;
    era * 146097 + doe - 719468
  }

  function CivilFromDays(days: int): Date {
    var z := days + 719468;
    var era := TruncDiv(if z >= 0 then z else z - 146096, 146097);
    var doe := z - era * 146097;
    var yoe := TruncDiv(doe - TruncDiv(doe, 1460) + TruncDiv(doe, 36524) - TruncDiv(doe, 146096), 365);
    var y := yoe + era * 400;
    var doy := doe - (365 * yoe + TruncDiv(yoe, 4) - TruncDiv(yoe, 100));
    var mp := TruncDiv(5 * doy + 2, 153);
    var d := doy - TruncDiv(153 * mp + 2, 5) + 1;
    var m := if mp < 10 then mp + 3 else mp - 9;
    Date(if m <= 2 then y + 1 else y, m, d)
  }

  // ----- The reference calendar -----

  predicate IsLeap(y: int) {
    y % 4 == 0 && (y % 100 != 0 || y % 400 == 0)
  }

  function DaysInMonth(y: int, m: int): int {
    if m == 2 then (if IsLeap(y) then 29 else 28)
    else if m == 4 || m == 6 || m == 9 || m == 11 then 30
    else 31
  }

  predicate ValidDate(date: Date) {
    1 <= date.month <= 12 && 1 <= date.day <= DaysInMonth(date.year, date.month)
  }

  function NextDay(date: Date): Date {
    if date.day < DaysInMonth(date.year, date.month) then date.(day := date.day + 1)
    else if date.month < 12 then Date(date.year, date.month + 1, 1)
    else Date(date.year + 1, 1, 1)
  }

  function PreviousDay(date: Date): Date {
    if date.day > 1 then date.(day := date.day - 1)
    else if date.month > 1 then Date(date.year, date.month - 1, DaysInMonth(date.year, date.month - 1))
    else Date(date.year - 1, 12, 31)
  }

  const EPOCH := Date(1970, 1, 1)

  /** The date reached by turning `days` calendar pages from 1 January 1970, backwards when negative. */
  function TurnPages(days: int): Date
    decreases if days >= 0 then days else -days
  {
    if days == 0 then EPOCH
    else if days > 0 then NextDay(TurnPages(days - 1))
    else PreviousDay(TurnPages(days + 1))
  }

  // ----- The closed form, taken apart -----

  /** Days before 1 March of (March-based) year `y`, in floor arithmetic. */
  function DaysBeforeYear(y: int): int {
    365 * y + y / 4 - y / 100 + y / 400
  }

  /** Days from 1 March to the first of the month `mp` months later. */
  function DaysBeforeMonth(mp: int): int {
    (153 * mp + 2) / 5
  }

  function MarchYear(date: Date): int {
    if date.month <= 2 then date.year - 1 else date.year
  }

  function MarchMonth(date: Date): int {
    if date.month > 2 then date.month - 3 else date.month + 9
  }

  lemma EraSplit(era: int, yoe: int)
    requires 0 <= yoe < 400
    ensures DaysBeforeYear(400 * era + yoe) == era * 146097 + 365 * yoe + yoe / 4 - yoe / 100
  {
    var y := 400 * era + yoe;
    assert y / 4 == 100 * era + yoe / 4;
    assert y / 100 == 4 * era + yoe / 100;
    assert y / 400 == era;
  }

  lemma FloorDiv400(y: int)
    ensures TruncDiv(if y >= 0 then y else y - 399, 400) == y / 400
  {
  }

  lemma FloorDivEra(z: int)
    ensures TruncDiv(if z >= 0 then z else z - 146096, 146097) == z / 146097
  {
  }

  /** Inside an era every quotient is of a non-negative number, where truncation is flooring. */
  lemma NonNegativeDivisions(doe: int, yoe: int, doy: int)
    requires 0 <= doe < 146097 && 0 <= yoe && 0 <= doy
    ensures TruncDiv(doe, 1460) == doe / 1460 && TruncDiv(doe, 36524) == doe / 36524
    ensures TruncDiv(doe, 146096) == doe / 146096
    ensures var num := doe - doe / 1460 + doe / 36524 - doe / 146096; TruncDiv(num, 365) == num / 365
    ensures TruncDiv(yoe, 4) == yoe / 4 && TruncDiv(yoe, 100) == yoe / 100
    ensures var mp := (5 * doy + 2) / 153;
      TruncDiv(5 * doy + 2, 153) == mp && TruncDiv(153 * mp + 2, 5) == (153 * mp + 2) / 5
  {
  }

  lemma DaysFormula(date: Date)
    requires 1 <= date.month <= 12
    ensures DaysFromCivil(date)
         == DaysBeforeYear(MarchYear(date)) + DaysBeforeMonth(MarchMonth(date)) + date.day - 1 - 719468
  {
    var y := MarchYear(date);
    FloorDiv400(y);
    EraSplit(y / 400, y % 400);
  }

  lemma YearLength(y: int)
    ensures DaysBeforeYear(y + 1) == DaysBeforeYear(y) + (if IsLeap(y + 1) then 366 else 365)
  {
    var x := y + 1;
    assert x / 4 - y / 4 == if x % 4 == 0 then 1 else 0;
    assert x / 100 - y / 100 == if x % 100 == 0 then 1 else 0;
    assert x / 400 - y / 400 == if x % 400 == 0 then 1 else 0;
    assert x % 400 == 0 ==> x % 100 == 0;
    assert x % 100 == 0 ==> x % 4 == 0;
  }

  lemma NextDayIsPlusOne(date: Date)
    requires ValidDate(date)
    ensures ValidDate(NextDay(date))
    ensures DaysFromCivil(NextDay(date)) == DaysFromCivil(date) + 1
    ensures PreviousDay(NextDay(date)) == date
  {
    hide DaysFromCivil, DaysBeforeYear;
    DaysFormula(date);
    DaysFormula(NextDay(date));
    YearLength(MarchYear(date));
  }

  lemma PreviousDayIsMinusOne(date: Date)
    requires ValidDate(date)
    ensures ValidDate(PreviousDay(date))
    ensures DaysFromCivil(PreviousDay(date)) == DaysFromCivil(date) - 1
  {
    assert NextDay(PreviousDay(date)) == date;
    NextDayIsPlusOne(PreviousDay(date));
  }

  /** Splits a day of the era into century `a`, four-year cycle `b`, year `c` and day of year. */
  lemma SplitDayOfEra(doe: int) returns (a: int, b: int, c: int, doy: int)
    requires 0 <= doe < 146097
    ensures 0 <= a < 4 && 0 <= b < 25 && 0 <= c < 4 && 0 <= doy <= 365
    ensures doe == 36524 * a + 1461 * b + 365 * c + doy
    ensures doy == 365 ==> c == 3 && (b < 24 || a == 3)
  {
    if doe == 146096 {
      a, b, c, doy := 3, 24, 3, 365;
    } else {
      a := doe / 36524;
      var r := doe % 36524;
      b := r / 1461;
      var q := r % 1461;
      c := if q == 1460 then 3 else q / 365;
      doy := q - 365 * c;
    }
  }

  lemma YearOfEra(a: int, b: int, c: int, doy: int)
    requires 0 <= a < 4 && 0 <= b < 25 && 0 <= c < 4 && 0 <= doy <= 365
    requires doy == 365 ==> c == 3 && (b < 24 || a == 3)
    ensures var doe := 36524 * a + 1461 * b + 365 * c + doy;
      (doe - doe / 1460 + doe / 36524 - doe / 146096) / 365 == 100 * a + 4 * b + c
  {
    var doe := 36524 * a + 1461 * b + 365 * c + doy;
    var k := if 24 * a + b + 365 * c + doy >= 1460 then 1 else 0;
    assert doe / 1460 == 25 * a + b + k by {
      assert doe == 1460 * (25 * a + b + k) + (24 * a + b + 365 * c + doy - 1460 * k);
    }
    assert doe / 36524 - doe / 146096 == a by {
      if doe < 146096 {
        assert 1461 * b + 365 * c + doy < 36524;
        assert doe / 36524 == a;
      }
    }
    assert doe - (25 * a + b + k) + a == 365 * (100 * a + 4 * b + c) + (doy - k);
  }

  lemma MonthOfYear(doy: int)
    requires 0 <= doy <= 365
    ensures var mp := (5 * doy + 2) / 153;
      0 <= mp <= 11 && DaysBeforeMonth(mp) <= doy && (mp < 11 ==> doy < DaysBeforeMonth(mp + 1))
  {
  }

  lemma LeapYearOfEra(era: int, a: int, b: int)
    requires 0 <= a < 4 && 0 <= b < 25 && (b < 24 || a == 3)
    ensures IsLeap(400 * era + 100 * a + 4 * b + 4)
  {
    var y := 400 * era + 100 * a + 4 * b + 4;
    assert y == 4 * (100 * era + 25 * a + b + 1);
    if b < 24 {
      assert y == 100 * (4 * era + a) + (4 * b + 4);
      assert y % 100 == 4 * b + 4;
    } else {
      assert y == 400 * (era + 1);
    }
  }

  /** The date `doy` days after 1 March of year `y`. */
  function AfterMarch(y: int, doy: int): Date {
    var mp := (5 * doy + 2) / 153;
    var m := if mp < 10 then mp + 3 else mp - 9;
    Date(if m <= 2 then y + 1 else y, m, doy - DaysBeforeMonth(mp) + 1)
  }

  lemma CivilShape(days: int, era: int, doe: int, yoe: int, doy: int)
    requires era == (days + 719468) / 146097 && doe == days + 719468 - era * 146097
    requires 0 <= doe < 146097 && 0 <= yoe && 0 <= doy
    requires (doe - doe / 1460 + doe / 36524 - doe / 146096) / 365 == yoe
    requires doe == 365 * yoe + yoe / 4 - yoe / 100 + doy
    ensures CivilFromDays(days) == AfterMarch(400 * era + yoe, doy)
  {
    hide TruncDiv;
    FloorDivEra(days + 719468);
    NonNegativeDivisions(doe, yoe, doy);
  }

  lemma CenturyQuotients(a: int, b: int, c: int)
    requires 0 <= b < 25 && 0 <= c < 4
    ensures (100 * a + 4 * b + c) / 4 == 25 * a + b && (100 * a + 4 * b + c) / 100 == a
  {
  }

  /** `CivilFromDays` finds the March-based year whose days contain the given day. */
  lemma CivilYear(days: int) returns (y: int, doy: int)
    ensures CivilFromDays(days) == AfterMarch(y, doy)
    ensures 0 <= doy <= 365 && (doy == 365 ==> IsLeap(y + 1))
    ensures days + 719468 == DaysBeforeYear(y) + doy
  {
    hide DaysBeforeYear, IsLeap, CivilFromDays, AfterMarch;
    var era, doe := (days + 719468) / 146097, (days + 719468) % 146097;
    var a, b, c, d := SplitDayOfEra(doe);
    YearOfEra(a, b, c, d);
    var yoe := 100 * a + 4 * b + c;
    y, doy := 400 * era + yoe, d;
    CenturyQuotients(a, b, c);
    CivilShape(days, era, doe, yoe, doy);
    EraSplit(era, yoe);
    if doy == 365 {
      LeapYearOfEra(era, a, b);
    }
  }

  /** Every integer day number names a real calendar date, and that date counts back to it. */
  lemma DaysOfCivil(days: int)
    ensures ValidDate(CivilFromDays(days))
    ensures DaysFromCivil(CivilFromDays(days)) == days
  {
    hide DaysFromCivil, DaysBeforeYear, CivilFromDays;
    var y, doy := CivilYear(days);
    DaysFormula(CivilFromDays(days));
    MonthOfYear(doy);
  }

  /** A date after 1 March of year `y` lies before the next 1 March. */
  lemma DayOfYear(date: Date)
    requires ValidDate(date)
    ensures var doy := DaysBeforeMonth(MarchMonth(date)) + date.day - 1;
      0 <= doy <= 365 && (doy == 365 ==> IsLeap(MarchYear(date) + 1)) && (5 * doy + 2) / 153 == MarchMonth(date)
  {
  }

  lemma YearsAreDisjoint(y: int, y': int)
    requires y < y'
    ensures DaysBeforeYear(y + 1) <= DaysBeforeYear(y')
    decreases y' - y
  {
    if y + 1 < y' {
      YearsAreDisjoint(y, y' - 1);
      YearLength(y' - 1);
    }
  }

  /** Every valid date is the date its day number names. */
  lemma CivilOfDays(date: Date)
    requires ValidDate(date)
    ensures CivilFromDays(DaysFromCivil(date)) == date
  {
    hide DaysFromCivil, DaysBeforeYear, CivilFromDays;
    var days := DaysFromCivil(date);
    DaysFormula(date);
    DayOfYear(date);
    var y, doy := CivilYear(days);
    YearLength(y);
    YearLength(MarchYear(date));
    if y < MarchYear(date) {
      YearsAreDisjoint(y, MarchYear(date));
      assert false;
    } else if MarchYear(date) < y {
      YearsAreDisjoint(MarchYear(date), y);
      assert false;
    }
  }

  /** The closed form is the calendar itself: turning `n` pages from the epoch lands on `CivilFromDays(n)`. */
  lemma {:induction false} ClosedFormTurnsPages(days: int)
    ensures TurnPages(days) == CivilFromDays(days)
    decreases if days >= 0 then days else -days
  {
    hide DaysFromCivil, CivilFromDays;
    if days == 0 {
      assert DaysFromCivil(EPOCH) == 0 by { DaysFormula(EPOCH); }
      CivilOfDays(EPOCH);
    } else if days > 0 {
      var before := CivilFromDays(days - 1);
      ClosedFormTurnsPages(days - 1);
      DaysOfCivil(days - 1);
      NextDayIsPlusOne(before);
      CivilOfDays(NextDay(before));
    } else {
      var after := CivilFromDays(days + 1);
      ClosedFormTurnsPages(days + 1);
      DaysOfCivil(days + 1);
      PreviousDayIsMinusOne(after);
      CivilOfDays(PreviousDay(after));
    }
  }

  /** The day number survives the round trip exactly for the dates that exist. */
  lemma SurvivesIffValid(date: Date)
    ensures CivilFromDays(DaysFromCivil(date)) == date <==> ValidDate(date)
  {
    DaysOfCivil(DaysFromCivil(date));
    if ValidDate(date) {
      CivilOfDays(date);
    }
  }

  predicate Earlier(a: Date, b: Date) {
    a.year < b.year || (a.year == b.year && (a.month < b.month || (a.month == b.month && a.day < b.day)))
  }

  /** Day numbers order dates chronologically. */
  lemma DaysAreChronological(a: Date, b: Date)
    requires ValidDate(a) && ValidDate(b)
    ensures Earlier(a, b) <==> DaysFromCivil(a) < DaysFromCivil(b)
  {
    if Earlier(a, b) {
      EarlierHasSmallerDay(a, b);
    } else if Earlier(b, a) {
      EarlierHasSmallerDay(b, a);
    }
  }

  lemma EarlierHasSmallerDay(a: Date, b: Date)
    requires ValidDate(a) && ValidDate(b) && Earlier(a, b)
    ensures DaysFromCivil(a) < DaysFromCivil(b)
  {
    hide DaysFromCivil, DaysBeforeYear;
    DaysFormula(a);
    DaysFormula(b);
    DayOfYear(a);
    DayOfYear(b);
    YearLength(MarchYear(a));
    if MarchYear(a) < MarchYear(b) {
      YearsAreDisjoint(MarchYear(a), MarchYear(b));
    }
  }
}
