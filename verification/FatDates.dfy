/**
 FAT dates (fs/fat/vnode.c): seconds since 1970 packed into a date word and a time word with a
 resolution of two seconds, and back.
 */
module FatDates {

  const DAY_TOTAL: seq<int> := [0, 31, 59, 90, 120, 151, 181, 212, 243, 273, 304, 334, 0, 0, 0, 0]

  /** 1 January 1980, the first moment that a FAT date can hold. */
  const EPOCH := 315532800

  /** The first month whose days start after `nlDay`, from month `m` on; 12 when there is none. */
  function MonthFrom(nlDay: int, m: nat): (r: nat)
    requires m <= 12
    ensures m <= r <= 12
    decreases 12 - m
  {
    if m == 12 || DAY_TOTAL[m] > nlDay then m else MonthFrom(nlDay, m + 1)
  }

  function YearOf(day: int): (y: int) {
    var y := day / 365;
    if (y + 3) / 4 + 365 * y > day then y - 1 else y
  }

  function DayOfYear(day: int): (d: int) {
    day - ((YearOf(day) + 3) / 4 + 365 * YearOf(day))
  }

  predicate IsLeapDay(day: int) {
    DayOfYear(day) == 59 && YearOf(day) % 4 == 0
  }

  /** The day of the year as if there were no 29 February. */
  function PlainDay(day: int): (d: int) {
    var d := DayOfYear(day);
    if IsLeapDay(day) || YearOf(day) % 4 != 0 || d <= 59 then d else d - 1
  }

  function MonthOf(day: int): (m: nat) {
    if IsLeapDay(day) then 2 else MonthFrom(PlainDay(day), 0)
  }

  function DaysSince1980(t: nat): (day: int) {
    t / 86400 - 3652
  }

  /** The two words that FatUnixToDt stores. */
  function PackTime(t: nat): (w: nat) {
    t % 60 / 2 + t / 60 % 60 * 32 + t / 3600 % 24 * 2048
  }

  function PackDate(t: nat): (w: int)
  {
    var day := DaysSince1980(t);
    var m := MonthOf(day);
    PlainDay(day) - (if 0 < m then DAY_TOTAL[m - 1] else 0) + 1 + m * 32 + YearOf(day) * 512
  }

  /** FatDtToUnix: one int expression, converted to a DWORD on return. */
  function DtToUnix(date: nat, time: nat): (t: nat) {
    var month := (date / 32 - 1) % 16;
    var year := date / 512;
    var secs := time % 32 * 2 + 60 * (time / 32 % 64) + time / 2048 * 3600
      + 86400 * (date % 32 - 1 + DAY_TOTAL[month] + year / 4 + year * 365
                 - (if year % 4 == 0 && month < 2 then 1 else 0) + 3653);
    secs % 0x1_0000_0000
  }

  /** The fields of the time word. */
  lemma TimeFields(t: nat)
    ensures PackTime(t) < 0x1_0000
    ensures PackTime(t) % 32 == t % 60 / 2 && PackTime(t) / 32 % 64 == t / 60 % 60
    ensures PackTime(t) / 2048 == t / 3600 % 24
    ensures t % 60 / 2 * 2 + 60 * (t / 60 % 60) + t / 3600 % 24 * 3600 == t % 86400 - t % 2
  {
    TimeWord(t % 60 / 2, t / 60 % 60, t / 3600 % 24);
    TimeParts(t);
    TimeOfDay(t, t % 60, t / 60 % 60, t / 3600 % 24, t / 86400);
  }

  /** A time by its seconds, minutes, hours and days. */
  lemma TimeParts(t: nat)
    ensures t == t % 60 + 60 * (t / 60 % 60) + 3600 * (t / 3600 % 24) + 86400 * (t / 86400)
  {
    DivDiv(t);
  }

  lemma TimeOfDay(t: nat, s: nat, m: nat, h: nat, d: nat)
    requires t == s + 60 * m + 3600 * h + 86400 * d && s < 60 && m < 60 && h < 24
    ensures s / 2 * 2 + 60 * m + 3600 * h == t % 86400 - t % 2
  {
    DayRest(s + 60 * m + 3600 * h, d);
    Parity(s, 30 * m + 1800 * h + 43200 * d);
  }

  lemma DayRest(r: nat, d: nat)
    requires r < 86400
    ensures (r + 86400 * d) % 86400 == r
  {
  }

  lemma Parity(s: nat, k: nat)
    ensures (s + 2 * k) % 2 == s % 2 && s / 2 * 2 == s - s % 2
  {
  }

  lemma DivDiv(t: nat)
    ensures t / 3600 == t / 60 / 60 && t / 86400 == t / 3600 / 24
  {
  }

  lemma TimeWord(s: nat, m: nat, h: nat)
    requires s < 32 && m < 64 && h < 32
    ensures var w := s + m * 32 + h * 2048; w < 0x1_0000 && w % 32 == s && w / 32 % 64 == m && w / 2048 == h
  {
  }

  /** The year search is right: `day` lies in that year. */
  lemma YearFound(day: nat)
    requires day < 46060
    ensures 0 <= YearOf(day) < 127
    ensures 0 <= DayOfYear(day) < 365 + if YearOf(day) % 4 == 0 then 1 else 0
  {
  }

  lemma MonthFound(d: int)
    requires 0 <= d < 365
    ensures var m := MonthFrom(d, 0); 1 <= m <= 12 && DAY_TOTAL[m - 1] <= d < DAY_TOTAL[m - 1] + 31
    ensures d < 59 <==> MonthFrom(d, 0) <= 2
  {
    assert MonthFrom(d, 0) == MonthFrom(d, 1);
    assert MonthFrom(d, 1) == if d < 31 then 1 else MonthFrom(d, 2);
    assert MonthFrom(d, 2) == if d < 59 then 2 else MonthFrom(d, 3);
    assert MonthFrom(d, 3) == if d < 90 then 3 else MonthFrom(d, 4);
    assert MonthFrom(d, 4) == if d < 120 then 4 else MonthFrom(d, 5);
    assert MonthFrom(d, 5) == if d < 151 then 5 else MonthFrom(d, 6);
    assert MonthFrom(d, 6) == if d < 181 then 6 else MonthFrom(d, 7);
    assert MonthFrom(d, 7) == if d < 212 then 7 else MonthFrom(d, 8);
    assert MonthFrom(d, 8) == if d < 243 then 8 else MonthFrom(d, 9);
    assert MonthFrom(d, 9) == if d < 273 then 9 else MonthFrom(d, 10);
    assert MonthFrom(d, 10) == if d < 304 then 10 else MonthFrom(d, 11);
    assert MonthFrom(d, 11) == if d < 334 then 11 else 12;
  }

  /** The fields of the date word, and what the reader makes of them. */
  lemma DateFields(day: nat)
    requires day < 46060
    ensures var m, x := MonthOf(day), PlainDay(day) - DAY_TOTAL[if 0 < MonthOf(day) then MonthOf(day) - 1 else 0] + 1;
      && 1 <= m <= 12 && 1 <= x <= 31
      && x - 1 + DAY_TOTAL[m - 1] + YearOf(day) / 4 + YearOf(day) * 365
         - (if YearOf(day) % 4 == 0 && m - 1 < 2 then 1 else 0) + 3653 == day + 3652
  {
    YearFound(day);
    if IsLeapDay(day) {
    } else {
      MonthFound(PlainDay(day));
    }
  }

  lemma Unpack(x: nat, m: nat, y: nat)
    requires 1 <= x <= 31 && 1 <= m <= 12 && y < 127
    ensures var w := x + m * 32 + y * 512;
      w < 0x1_0000 && w % 32 == x && w / 512 == y && (w / 32 - 1) % 16 == m - 1
  {
  }

  /** What FatDtToUnix computes, from the fields. */
  lemma Assemble(date: nat, time: nat, t: nat, x: nat, m: nat, y: nat)
    requires 1 <= m <= 12 && t < 0x1_0000_0000
    requires date % 32 == x && (date / 32 - 1) % 16 == m - 1 && date / 512 == y
    requires time % 32 * 2 + 60 * (time / 32 % 64) + time / 2048 * 3600 == t % 86400 - t % 2
    requires x - 1 + DAY_TOTAL[m - 1] + y / 4 + y * 365 - (if y % 4 == 0 && m - 1 < 2 then 1 else 0) + 3653 == t / 86400
    ensures DtToUnix(date, time) == t - t % 2
  {
    assert t == t / 86400 * 86400 + t % 86400;
  }

  /** The round trip, for every DWORD: dates from 1980 on come back rounded down to an even second,
      and every field fits its bits. */
  lemma RoundTrip(t: nat)
    requires EPOCH <= t < 0x1_0000_0000
    ensures 0 <= PackDate(t) < 0x1_0000 && PackTime(t) < 0x1_0000
    ensures DtToUnix(PackDate(t), PackTime(t)) == t - t % 2
  {
    hide YearOf, MonthOf, PlainDay, PackTime, DtToUnix;
    var day := DaysSince1980(t);
    DateFields(day);
    YearFound(day);
    TimeFields(t);
    var m, y := MonthOf(day), YearOf(day);
    var x := PlainDay(day) - DAY_TOTAL[m - 1] + 1;
    Unpack(x, m, y);
    Assemble(PackDate(t), PackTime(t), t, x, m, y);
  }

  /** The month loop of FatUnixToDt. */
  method SearchMonth(nlDay: int) returns (month: nat)
    ensures month == MonthFrom(nlDay, 0)
  {
    month := 0;
    while month < 12 && !(DAY_TOTAL[month] > nlDay)
      invariant 0 <= month <= 12 && MonthFrom(nlDay, month) == MonthFrom(nlDay, 0)
    {
      month := month + 1;
    }
  }

  method SearchYear(day: nat) returns (year: int)
    ensures year == YearOf(day)
  {
    year := day / 365;
    if (year + 3) / 4 + 365 * year > day {
      year := year - 1;
    }
  }

  /** The calendar part of FatUnixToDt, for a day counted from 1980. */
  method SplitDay(day: nat) returns (year: int, month: nat, nlDay: int)
    ensures year == YearOf(day) && month == MonthOf(day) && nlDay == PlainDay(day)
  {
    hide YearOf;
    year := SearchYear(day);
    var d := day - ((year + 3) / 4 + 365 * year);
    if d == 59 && year % 4 == 0 {
      nlDay, month := d, 2;
    } else {
      nlDay := if year % 4 != 0 || d <= 59 then d else d - 1;
      month := SearchMonth(nlDay);
    }
  }

  /** FatUnixToDt. The reader gets the time back, rounded down to an even second. */
  method UnixToDt(unixTime: nat) returns (date: nat, time: nat)
    requires unixTime < 0x1_0000_0000
    ensures date < 0x1_0000 && time < 0x1_0000
    ensures var t := if unixTime < EPOCH then EPOCH else unixTime; date == PackDate(t) && time == PackTime(t)
    ensures DtToUnix(date, time) == if unixTime < EPOCH then EPOCH else unixTime - unixTime % 2
  {
    hide DtToUnix, YearOf, MonthOf, PlainDay;
    var t := if unixTime < EPOCH then EPOCH else unixTime;
    RoundTrip(t);
    DateFields(t / 86400 - 3652);
    time := t % 60 / 2 + t / 60 % 60 * 32 + t / 3600 % 24 * 2048;
    var year, month, nlDay := SplitDay(t / 86400 - 3652);
    date := nlDay - DAY_TOTAL[month - 1] + 1 + month * 32 + year * 512;
  }
}
