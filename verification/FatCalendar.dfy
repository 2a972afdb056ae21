/**
 The dates of FatUnixToDt (fs/fat/vnode.c) against the calendar: one day after the other from 1 January
 1980 on, by the lengths of the months.
 */
module FatCalendar {
  import opened FatDates

  /** A date with its year counted from 1980. */
  datatype Date = Date(year: nat, month: nat, day: nat)

  function MonthLength(month: nat, leap: bool): (n: nat) {
    if month == 2 then (if leap then 29 else 28)
    else if month == 4 || month == 6 || month == 9 || month == 11 then 30
    else 31
  }

  function NextDate(d: Date, leap: bool): (r: Date) {
    if d.day < MonthLength(d.month, leap) then Date(d.year, d.month, d.day + 1)
    else if d.month < 12 then Date(d.year, d.month + 1, 1)
    else Date(d.year + 1, 1, 1)
  }

  /** The leap years of the Gregorian calendar. */
  predicate IsLeap(year: nat) {
    var y := year + 1980;
    y % 4 == 0 && (y % 100 != 0 || y % 400 == 0)
  }

  /** The date `n` days after 1 January 1980, with every fourth year a leap year. */
  function FourYearly(n: nat): (d: Date) {
    if n == 0 then Date(0, 1, 1) else var d := FourYearly(n - 1); NextDate(d, d.year % 4 == 0)
  }

  /** The same in the Gregorian calendar. */
  function Gregorian(n: nat): (d: Date) {
    if n == 0 then Date(0, 1, 1) else var d := Gregorian(n - 1); NextDate(d, IsLeap(d.year))
  }

  /** The date whose fields FatUnixToDt stores. */
  function DateOf(day: nat): (d: Date)
    requires day < 46060
  {
    DateFields(day);
    YearFound(day);
    Date(YearOf(day), MonthOf(day), PlainDay(day) - DAY_TOTAL[MonthOf(day) - 1] + 1)
  }

  // ---- Inside a year ----

  /** Month and day of day `d` of a year. */
  function InYear(d: nat, leap: bool): (r: (nat, nat))
    requires d < if leap then 366 else 365
  {
    var feb := if leap then 29 else 28;
    if d < 31 then (1, d + 1)
    else if d < 31 + feb then (2, d - 30)
    else
      var x: nat := d - feb + 28;
      if x < 90 then (3, x - 58) else if x < 120 then (4, x - 89) else if x < 151 then (5, x - 119)
      else if x < 181 then (6, x - 150) else if x < 212 then (7, x - 180) else if x < 243 then (8, x - 211)
      else if x < 273 then (9, x - 242) else if x < 304 then (10, x - 272) else if x < 334 then (11, x - 303)
      else (12, x - 333)
  }

  /** Days of a year follow each other by the lengths of the months. */
  lemma InYearNext(d: nat, leap: bool, y: nat)
    requires d < if leap then 366 else 365
    ensures var (m, x) := InYear(d, leap);
      NextDate(Date(y, m, x), leap) ==
        if d + 1 < (if leap then 366 else 365) then Date(y, InYear(d + 1, leap).0, InYear(d + 1, leap).1)
        else Date(y + 1, 1, 1)
  {
  }

  lemma MonthTable(p: int)
    requires 0 <= p < 365
    ensures var m := MonthFrom(p, 0);
      && 1 <= m <= 12 && DAY_TOTAL[m - 1] <= p && (m < 12 ==> p < DAY_TOTAL[m])
      && InYear(p, false) == (m, p - DAY_TOTAL[m - 1] + 1)
  {
    MonthFound(p);
    MonthEnds(p, 0);
  }

  /** The month search stops before the first month that starts later. */
  lemma {:induction false} MonthEnds(p: int, m: nat)
    requires m <= 12
    ensures var r := MonthFrom(p, m); r < 12 ==> p < DAY_TOTAL[r]
    decreases 12 - m
  {
    if m < 12 && DAY_TOTAL[m] <= p {
      MonthEnds(p, m + 1);
    }
  }

  /** Month and day that the code works out are those of the day of the year. */
  lemma FieldsInYear(day: nat)
    requires day < 46060
    ensures var d, leap := DayOfYear(day), YearOf(day) % 4 == 0;
      && 0 <= d < (if leap then 366 else 365)
      && DateOf(day) == Date(YearOf(day), InYear(d, leap).0, InYear(d, leap).1)
  {
    hide YearOf, DayOfYear;
    YearFound(day);
    DateFields(day);
    var d, leap := DayOfYear(day), YearOf(day) % 4 == 0;
    if IsLeapDay(day) {
    } else {
      MonthTable(PlainDay(day));
      SkipsLeapDay(d, leap, PlainDay(day));
    }
  }

  lemma SkipsLeapDay(d: nat, leap: bool, p: nat)
    requires d < (if leap then 366 else 365) && !(leap && d == 59) && p == if leap && d > 59 then d - 1 else d
    ensures p < 365 && InYear(d, leap) == InYear(p, false)
  {
  }

  // ---- From year to year ----

  /** The day number of 1 January. */
  function YearStart(y: nat): (n: nat) { (y + 3) / 4 + 365 * y }

  lemma YearStartNext(y: nat)
    ensures YearStart(y + 1) == YearStart(y) + if y % 4 == 0 then 366 else 365
  {
  }

  lemma YearIs(day: nat, y: nat)
    requires day < 46060 && YearStart(y) <= day < YearStart(y + 1)
    ensures YearOf(day) == y
  {
    YearFound(day);
    YearStartNext(y);
    var z: nat := YearOf(day);
    YearStartNext(z);
    if z < y { YearStartMono(z + 1, y); }
  }

  lemma YearStartMono(y: nat, z: nat)
    requires y <= z
    ensures YearStart(y) <= YearStart(z)
  {
  }

  lemma DateOfNext(day: nat)
    requires day + 1 < 46060
    ensures DateOf(day + 1) == NextDate(DateOf(day), DateOf(day).year % 4 == 0)
  {
    hide YearOf, MonthOf, PlainDay, InYear, YearStart;
    YearFound(day);
    var y: nat, d: nat := YearOf(day), DayOfYear(day);
    var leap := y % 4 == 0;
    FieldsInYear(day);
    FieldsInYear(day + 1);
    InYearNext(d, leap, y);
    DayIs(day);
    YearStartNext(y);
    YearStartNext(y + 1);
    if d + 1 < (if leap then 366 else 365) {
      YearIs(day + 1, y);
      DayIs(day + 1);
    } else {
      YearIs(day + 1, y + 1);
      DayIs(day + 1);
      FirstDay(y + 1);
    }
  }

  lemma DayIs(day: nat)
    requires day < 46060
    ensures YearOf(day) >= 0 && day == YearStart(YearOf(day)) + DayOfYear(day)
  {
    YearFound(day);
  }

  lemma FirstDay(y: nat)
    ensures InYear(0, y % 4 == 0) == (1, 1)
  {
  }

  /** The dates that the code stores are the days of the calendar, one after the other, as long as every
      fourth year is a leap year: for every DWORD time from 1980 on. */
  lemma {:induction false} DatesFollow(day: nat)
    requires day < 46060
    ensures DateOf(day) == FourYearly(day)
  {
    hide DateOf;
    if day == 0 {
      FirstDate();
    } else {
      DatesFollow(day - 1);
      DateOfNext(day - 1);
    }
  }

  lemma FirstDate()
    ensures DateOf(0) == Date(0, 1, 1)
  {
    FieldsInYear(0);
  }

  /** The date word of a time holds day, month and year of that calendar. */
  lemma DateWord(t: nat)
    requires EPOCH <= t < 0x1_0000_0000
    ensures var w, d := PackDate(t), FourYearly(t / 86400 - 3652);
      w % 32 == d.day && w / 32 % 16 == d.month && w / 512 == d.year
  {
    hide YearOf, MonthOf, PlainDay, FourYearly;
    var day := t / 86400 - 3652;
    DatesFollow(day);
    DateFields(day);
    YearFound(day);
    var d := DateOf(day);
    Fields(d.day, d.month, d.year);
  }

  /** The first moment that a date can hold is midnight on 1 January 1980. */
  lemma EpochIsStart()
    ensures EPOCH == 3652 * 86400
    ensures PackDate(EPOCH) % 32 == 1 && PackDate(EPOCH) / 32 % 16 == 1 && PackDate(EPOCH) / 512 == 0
  {
    hide PackDate;
    DateWord(EPOCH);
    assert EPOCH / 86400 - 3652 == 0;
  }

  lemma Fields(x: nat, m: nat, y: nat)
    requires 1 <= x <= 31 && 1 <= m <= 12 && y < 127
    ensures var w := x + m * 32 + y * 512; w % 32 == x && w / 32 % 16 == m && w / 512 == y
  {
    Unpack(x, m, y);
    LowPart(32, x, m + y * 16);
    LowPart(16, m, y);
  }

  lemma LowPart(n: nat, x: nat, k: nat)
    requires x < n && (n == 16 || n == 32)
    ensures (x + n * k) / n == k && (x + n * k) % n == x
  {
  }

  // ---- The year 2100 ----

  lemma LeapAlike(year: nat)
    requires year < 127 && year != 120
    ensures IsLeap(year) <==> year % 4 == 0
  {
  }

  /** The day number of 29 February 2100, a day that the Gregorian calendar does not have. */
  const LEAP_DAY_2100 := 43889

  lemma {:induction false} AlikeBefore2100(n: nat)
    requires n < LEAP_DAY_2100
    ensures Gregorian(n) == FourYearly(n)
  {
    hide DateOf;
    if n == 0 {
    } else {
      AlikeBefore2100(n - 1);
      DatesFollow(n - 1);
      NextAlike(n - 1);
    }
  }

  /** Which day comes next depends on the rule for leap years only on 28 February 2100 and the day after. */
  lemma NextAlike(n: nat)
    requires n < 46060 && n != LEAP_DAY_2100 - 1 && n != LEAP_DAY_2100
    ensures var d := DateOf(n); NextDate(d, IsLeap(d.year)) == NextDate(d, d.year % 4 == 0)
  {
    hide YearOf, DayOfYear, MonthOf, PlainDay, IsLeap, YearStart;
    YearFound(n);
    FieldsInYear(n);
    DayIs(n);
    if YearOf(n) != 120 {
      LeapAlike(YearOf(n));
    } else {
      YearStart120();
    }
  }

  lemma YearStart120()
    ensures YearStart(120) == LEAP_DAY_2100 - 59 && YearStart(121) == LEAP_DAY_2100 + 307
  {
  }

  lemma EndOfFebruary2100()
    ensures DateOf(LEAP_DAY_2100 - 1) == Date(120, 2, 28) && DateOf(LEAP_DAY_2100) == Date(120, 2, 29)
    ensures DateOf(LEAP_DAY_2100 + 1) == Date(120, 3, 1) && !IsLeap(120)
  {
    hide YearOf, DayOfYear, MonthOf, PlainDay, YearStart;
    YearStart120();
    forall n | LEAP_DAY_2100 - 1 <= n <= LEAP_DAY_2100 + 1
      ensures YearOf(n) == 120 && DayOfYear(n) == n - LEAP_DAY_2100 + 59
    {
      YearIs(n, 120);
      DayIs(n);
    }
    FieldsInYear(LEAP_DAY_2100 - 1);
    FieldsInYear(LEAP_DAY_2100);
    FieldsInYear(LEAP_DAY_2100 + 1);
  }

  /** From that day on the code is one day behind. */
  lemma {:induction false} BehindAfter2100(n: nat)
    requires LEAP_DAY_2100 < n < 46060
    ensures Gregorian(n - 1) == FourYearly(n)
  {
    hide DateOf, IsLeap, FourYearly, Gregorian;
    DatesFollow(n);
    if n == LEAP_DAY_2100 + 1 {
      DatesFollow(LEAP_DAY_2100 - 1);
      AlikeBefore2100(LEAP_DAY_2100 - 1);
      EndOfFebruary2100();
      GregorianNext(LEAP_DAY_2100 - 1);
    } else {
      BehindAfter2100(n - 1);
      DatesFollow(n - 1);
      DateOfNext(n - 1);
      NextAlike(n - 1);
      GregorianNext(n - 2);
    }
  }

  lemma GregorianNext(n: nat)
    ensures Gregorian(n + 1) == NextDate(Gregorian(n), IsLeap(Gregorian(n).year))
  {
  }

  /** The stored date is the Gregorian date if and only if the time lies before 29 February 2100 of the
      code, which is 1 March. */
  lemma GregorianIff(t: nat)
    requires EPOCH <= t < 0x1_0000_0000
    ensures FourYearly(t / 86400 - 3652) == Gregorian(t / 86400 - 3652) <==> t < 4107542400
  {
    hide DateOf, FourYearly, Gregorian;
    var day := t / 86400 - 3652;
    assert day < LEAP_DAY_2100 <==> t < 4107542400;
    if day < LEAP_DAY_2100 {
      AlikeBefore2100(day);
    } else if day == LEAP_DAY_2100 {
      AlikeBefore2100(day - 1);
      DatesFollow(day - 1);
      DatesFollow(day);
      EndOfFebruary2100();
      GregorianNext(day - 1);
    } else {
      BehindAfter2100(day);
      GregorianNext(day - 1);
    }
  }
}
