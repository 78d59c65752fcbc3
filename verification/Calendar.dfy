/** Dates packed into an integer, and the weekday and day of the year computed
    when they are unpacked. Months are numbered from 0 here, as in struct tm. */
module Calendar {
  import opened Bits

  /** Weekday, 0 for Sunday, by a closed formula. */
  function GetWday(year: nat, month: nat, day: nat): (w: nat)
    requires year >= 1 && month < 12
    ensures w < 7
  {
    var m := if month + 1 <= 2 then month + 13 else month + 1;
    var y := if month + 1 <= 2 then year - 1 else year;
    (1 + day + 2 * m + 3 * (m + 1) / 5 + y + y / 4 - y / 100 + y / 400) % 7
  }

  predicate IsLeap(year: nat) {
    year % 4 == 0 && (year % 100 != 0 || year % 400 == 0)
  }

  const OFFSETS: seq<nat> := [0, 31, 59, 90, 120, 151, 181, 212, 243, 273, 304, 334]

  /** Day of the year, counted from 1. */
  function GetYday(year: nat, month: nat, day: nat): nat
    requires month < 12
  {
    OFFSETS[month] + day + if month >= 2 && IsLeap(year) then 1 else 0
  }

  /* ---- the calendar itself ---- */

  datatype Date = Date(year: nat, month: nat, day: nat)

  function DaysIn(year: nat, month: nat): nat
    requires month < 12
  {
    if month == 1 then (if IsLeap(year) then 29 else 28)
    else if month == 3 || month == 5 || month == 8 || month == 10 then 30
    else 31
  }

  predicate Valid(d: Date) {
    d.year >= 1 && d.month < 12 && 1 <= d.day <= DaysIn(d.year, d.month)
  }

  function NextDay(d: Date): (e: Date)
    requires Valid(d)
    ensures Valid(e)
  {
    if d.day < DaysIn(d.year, d.month) then d.(day := d.day + 1)
    else if d.month < 11 then Date(d.year, d.month + 1, 1)
    else Date(d.year + 1, 0, 1)
  }

  function DaysInYear(year: nat): nat {
    if IsLeap(year) then 366 else 365
  }

  /** Days in the months before `month`. */
  function DaysBeforeMonth(year: nat, month: nat): nat
    requires month <= 12
  {
    if month == 0 then 0 else DaysBeforeMonth(year, month - 1) + DaysIn(year, month - 1)
  }

  /** Days in the years from 1 to year - 1. */
  function DaysBeforeYear(year: nat): nat
    requires year >= 1
  {
    if year == 1 then 0 else DaysBeforeYear(year - 1) + DaysInYear(year - 1)
  }

  /** Number of days since the first of January of year 1. */
  function DayNumber(d: Date): nat
    requires Valid(d)
  {
    DaysBeforeYear(d.year) + DaysBeforeMonth(d.year, d.month) + d.day - 1
  }

  /** The table of month offsets is the running sum of the month lengths. */
  lemma YdayCounts(d: Date)
    requires Valid(d)
    ensures GetYday(d.year, d.month, d.day) == DaysBeforeMonth(d.year, d.month) + d.day
  {
    MonthTable(d.year);
  }

  lemma MonthTable(year: nat)
    ensures forall m :: 0 <= m < 12 ==> DaysBeforeMonth(year, m) == OFFSETS[m] + if m >= 2 && IsLeap(year) then 1 else 0
    ensures DaysBeforeMonth(year, 12) == DaysInYear(year)
  {
    assert DaysBeforeMonth(year, 1) == 31;
    assert DaysBeforeMonth(year, 3) == DaysBeforeMonth(year, 2) + 31;
    assert DaysBeforeMonth(year, 5) == DaysBeforeMonth(year, 4) + 31;
    assert DaysBeforeMonth(year, 7) == DaysBeforeMonth(year, 6) + 31;
    assert DaysBeforeMonth(year, 9) == DaysBeforeMonth(year, 8) + 30;
    assert DaysBeforeMonth(year, 11) == DaysBeforeMonth(year, 10) + 30;
  }

  /** The next day has the next number: the count misses no day and repeats none. */
  lemma NextDayCounts(d: Date)
    requires Valid(d)
    ensures DayNumber(NextDay(d)) == DayNumber(d) + 1
  {
    MonthTable(d.year);
  }

  /** Within a year the day of the year advances by one, and starts again at 1. */
  lemma YdayAdvances(d: Date)
    requires Valid(d)
    ensures var e := NextDay(d);
      GetYday(e.year, e.month, e.day) == if e.year == d.year then GetYday(d.year, d.month, d.day) + 1 else 1
  {
    YdayCounts(d);
    YdayCounts(NextDay(d));
  }

  /** Leap days up to a year, in closed form. */
  function LeapDays(year: nat): int {
    year / 4 - year / 100 + year / 400
  }

  lemma Next4(y: nat)
    ensures (y + 1) / 4 == y / 4 + if (y + 1) % 4 == 0 then 1 else 0
  {
  }

  lemma Next100(y: nat)
    ensures (y + 1) / 100 == y / 100 + if (y + 1) % 100 == 0 then 1 else 0
  {
  }

  lemma Next400(y: nat)
    ensures (y + 1) / 400 == y / 400 + if (y + 1) % 400 == 0 then 1 else 0
  {
  }

  lemma Centuries(y: nat)
    ensures y % 400 == 0 ==> y % 100 == 0
    ensures y % 100 == 0 ==> y % 4 == 0
  {
    if y % 400 == 0 { assert y == 100 * (4 * (y / 400)); }
    if y % 100 == 0 { assert y == 4 * (25 * (y / 100)); }
  }

  lemma LeapDay(y: nat)
    ensures LeapDays(y + 1) == LeapDays(y) + if IsLeap(y + 1) then 1 else 0
  {
    Next4(y);
    Next100(y);
    Next400(y);
    Centuries(y + 1);
  }

  /** Days of the years before a year. */
  lemma {:induction false} YearsCount(year: nat)
    requires year >= 1
    ensures DaysBeforeYear(year) == 365 * (year - 1) + LeapDays(year - 1)
  {
    if year > 1 {
      YearsCount(year - 1);
      LeapDay(year - 2);
    }
  }

  lemma SameMod7(a: int, b: int, k: int)
    requires a == b + 7 * k
    ensures a % 7 == b % 7
  {
  }

  /** The weekday formula is the day count modulo 7: the first day of year 1 was a Monday. */
  lemma WeekdayIsDayCount(d: Date)
    requires Valid(d)
    ensures GetWday(d.year, d.month, d.day) == (DayNumber(d) + 1) % 7
  {
    YearsCount(d.year);
    MonthTable(d.year);
    LeapDay(d.year - 1);
    var late := d.month >= 2;
    var m := if late then d.month + 1 else d.month + 13;
    var y := if late then d.year else d.year - 1;
    var total := 1 + d.day + 2 * m + 3 * (m + 1) / 5 + y + LeapDays(y);
    var k := MonthShift(d.month) - 52 * y;
    assert total == DayNumber(d) + 1 + 7 * k;
    SameMod7(total, DayNumber(d) + 1, k);
  }

  /** Weeks between the month term of the weekday formula and the offset table. */
  function MonthShift(month: nat): (k: nat)
    requires month < 12
    ensures var m := if month >= 2 then month + 1 else month + 13;
      1 + 2 * m + 3 * (m + 1) / 5 + (if month >= 2 then 365 else 0) == OFFSETS[month] + 7 * k
  {
    [5, 1, 45, 41, 37, 33, 29, 25, 21, 17, 13, 9][month]
  }

  /** So the weekday advances by one from each day to the next, across months,
      leap days and centuries. */
  lemma WeekdayAdvances(d: Date)
    requires Valid(d)
    ensures var e := NextDay(d); GetWday(e.year, e.month, e.day) == (GetWday(d.year, d.month, d.day) + 1) % 7
  {
    WeekdayIsDayCount(d);
    WeekdayIsDayCount(NextDay(d));
    NextDayCounts(d);
    NextMod7(DayNumber(d) + 1);
  }

  lemma NextMod7(n: nat)
    ensures (n + 1) % 7 == (n % 7 + 1) % 7
  {
  }

  /* ---- packed times ---- */

  /** What the clock reports; the month counts from 1. */
  datatype Rtc = Rtc(year: nat, month: nat, day: nat, hour: nat, minute: nat, second: nat)

  /** The fields fit their bit ranges, and the packed time a signed 64-bit integer. */
  predicate Fits(t: Rtc) {
    t.year < 0x8000_0000 && t.month < 16 && t.day < 32 && t.hour < 32 && t.minute < 64 && t.second < 64
  }

  /** The shift-and-or chain of time(). */
  function Pack(t: Rtc): nat {
    var v := BitOr(Shl(t.year, 4), t.month);
    var v := BitOr(Shl(v, 5), t.day);
    var v := BitOr(Shl(v, 5), t.hour);
    var v := BitOr(Shl(v, 6), t.minute);
    BitOr(Shl(v, 6), t.second)
  }

  function Field(v: nat, bits: nat): nat {
    BitAnd(v, Pow2(bits) - 1)
  }

  /** The fields as localtime shifts them out, the month still counting from 1. */
  function Unpack(v0: nat): Rtc {
    var v1 := Shr(v0, 6);
    var v2 := Shr(v1, 6);
    var v3 := Shr(v2, 5);
    var v4 := Shr(v3, 5);
    Rtc(Shr(v4, 4), Field(v4, 4), Field(v3, 5), Field(v2, 5), Field(v1, 6), Field(v0, 6))
  }

  /** One field appended and taken off again. */
  lemma FieldReadsBack(x: nat, k: nat, b: nat)
    requires b < Pow2(k)
    ensures var v := BitOr(Shl(x, k), b); Shr(v, k) == x && Field(v, k) == b
  {
    OrAppends(x, k, b);
    ShiftBack(x, k, b);
    MaskBack(x, k, b);
  }

  /** The packed time as a number: each field counts the units of the ones behind
      it, in 16 months, 32 days, 32 hours, 64 minutes and 64 seconds. It is a
      signed 64-bit integer. */
  lemma PackedValue(t: Rtc)
    requires Fits(t)
    ensures Pack(t) ==
      ((((t.year * 16 + t.month) * 32 + t.day) * 32 + t.hour) * 64 + t.minute) * 64 + t.second
    ensures Pack(t) < 0x8000_0000_0000_0000
  {
    var k4, k5, k6 := 4, 5, 6;
    assert Pow2(k4) == 16 && Pow2(k5) == 32 && Pow2(k6) == 64;
    var v4 := BitOr(Shl(t.year, k4), t.month);
    var v3 := BitOr(Shl(v4, k5), t.day);
    var v2 := BitOr(Shl(v3, k5), t.hour);
    var v1 := BitOr(Shl(v2, k6), t.minute);
    FieldAppended(t.year, k4, t.month);
    FieldAppended(v4, k5, t.day);
    FieldAppended(v3, k5, t.hour);
    FieldAppended(v2, k6, t.minute);
    FieldAppended(v1, k6, t.second);
  }

  lemma FieldAppended(x: nat, k: nat, b: nat)
    requires b < Pow2(k)
    ensures BitOr(Shl(x, k), b) == x * Pow2(k) + b
  {
    OrAppends(x, k, b);
    ShlTimes(x, k);
  }

  lemma {:induction false} ShlTimes(x: nat, k: nat)
    ensures Shl(x, k) == x * Pow2(k)
  {
    if k > 0 { ShlTimes(x, k - 1); }
  }

  /** Unpacking inverts packing. */
  lemma UnpackInvertsPack(t: Rtc)
    requires Fits(t)
    ensures Unpack(Pack(t)) == t
  {
    var k4, k5, k6 := 4, 5, 6;
    assert Pow2(k4) == 16 && Pow2(k5) == 32 && Pow2(k6) == 64;
    var v4 := BitOr(Shl(t.year, k4), t.month);
    var v3 := BitOr(Shl(v4, k5), t.day);
    var v2 := BitOr(Shl(v3, k5), t.hour);
    var v1 := BitOr(Shl(v2, k6), t.minute);
    FieldReadsBack(t.year, k4, t.month);
    FieldReadsBack(v4, k5, t.day);
    FieldReadsBack(v3, k5, t.hour);
    FieldReadsBack(v2, k6, t.minute);
    FieldReadsBack(v1, k6, t.second);
  }

  predicate Earlier(a: Rtc, b: Rtc) {
    a.year < b.year || (a.year == b.year && (
      a.month < b.month || (a.month == b.month && (
        a.day < b.day || (a.day == b.day && (
          a.hour < b.hour || (a.hour == b.hour && (
            a.minute < b.minute || (a.minute == b.minute && a.second < b.second)))))))))
  }

  /** Appending a bit field keeps the order: first by the upper part, then by the field. */
  lemma AppendCompares(x: nat, a: nat, y: nat, b: nat, k: nat)
    requires a < Pow2(k) && b < Pow2(k)
    ensures var v, w := BitOr(Shl(x, k), a), BitOr(Shl(y, k), b);
      (v < w <==> x < y || (x == y && a < b)) && (v == w <==> x == y && a == b)
  {
    OrAppends(x, k, a);
    OrAppends(y, k, b);
    if x < y { AppendOrder(x, y, k); }
    if y < x { AppendOrder(y, x, k); }
  }

  /** Packed times compare as integers exactly as the times do in time. */
  lemma PackKeepsOrder(a: Rtc, b: Rtc)
    requires Fits(a) && Fits(b)
    ensures Pack(a) < Pack(b) <==> Earlier(a, b)
  {
    var k4, k5, k6 := 4, 5, 6;
    assert Pow2(k4) == 16 && Pow2(k5) == 32 && Pow2(k6) == 64;
    var a1, b1 := BitOr(Shl(a.year, k4), a.month), BitOr(Shl(b.year, k4), b.month);
    var a2, b2 := BitOr(Shl(a1, k5), a.day), BitOr(Shl(b1, k5), b.day);
    var a3, b3 := BitOr(Shl(a2, k5), a.hour), BitOr(Shl(b2, k5), b.hour);
    var a4, b4 := BitOr(Shl(a3, k6), a.minute), BitOr(Shl(b3, k6), b.minute);
    AppendCompares(a.year, a.month, b.year, b.month, k4);
    AppendCompares(a1, a.day, b1, b.day, k5);
    AppendCompares(a2, a.hour, b2, b.hour, k5);
    AppendCompares(a3, a.minute, b3, b.minute, k6);
    AppendCompares(a4, a.second, b4, b.second, k6);
  }

  /* ---- localtime ---- */

  /** The fields of struct tm that localtime fills in. */
  datatype Tm = Tm(sec: nat, min: nat, hour: nat, mday: nat, mon: nat, year: int, wday: nat, yday: nat, isdst: int)

  /** What localtime makes of a packed time. */
  function BrokenDown(time: nat): Tm
    requires 1 <= Unpack(time).month <= 12 && 1 <= Unpack(time).year
  {
    var t := Unpack(time);
    Tm(t.second, t.minute, t.hour, t.day, t.month - 1, t.year - 1900,
       GetWday(t.year, t.month - 1, t.day), GetYday(t.year, t.month - 1, t.day), -1)
  }

  /** localtime of a packed valid date gives its fields back, with the weekday and
      the day of the year that the calendar counts. */
  lemma LocaltimeOfPacked(t: Rtc, d: Date)
    requires Fits(t) && Valid(d) && t.year == d.year && t.month == d.month + 1 && t.day == d.day
    ensures Unpack(Pack(t)) == t
    ensures BrokenDown(Pack(t)) ==
      Tm(t.second, t.minute, t.hour, d.day, d.month, d.year - 1900,
         (DayNumber(d) + 1) % 7, DaysBeforeMonth(d.year, d.month) + d.day, -1)
  {
    UnpackInvertsPack(t);
    WeekdayIsDayCount(d);
    YdayCounts(d);
  }

  /** localtime: shift the fields out of the packed time into the static buffer. */
  class Clock {
    var tmBuf: Tm

    constructor ()
    {
      tmBuf := Tm(0, 0, 0, 0, 0, 0, 0, 0, 0);
    }

    method Localtime(time: nat)
      requires 1 <= Unpack(time).month <= 12 && 1 <= Unpack(time).year < 0x4000_0000
      modifies this
      ensures tmBuf == BrokenDown(time)
    {
      var val := time;
      tmBuf := tmBuf.(sec := Field(val, 6));
      val := Shr(val, 6);
      tmBuf := tmBuf.(min := Field(val, 6));
      val := Shr(val, 6);
      tmBuf := tmBuf.(hour := Field(val, 5));
      val := Shr(val, 5);
      tmBuf := tmBuf.(mday := Field(val, 5));
      val := Shr(val, 5);
      tmBuf := tmBuf.(mon := Field(val, 4) - 1);
      val := Shr(val, 4);
      tmBuf := tmBuf.(year := (val as int) - 1900);
      tmBuf := tmBuf.(wday := GetWday(val, tmBuf.mon, tmBuf.mday));
      tmBuf := tmBuf.(yday := GetYday(val, tmBuf.mon, tmBuf.mday));
      tmBuf := tmBuf.(isdst := -1);
    }
  }
}
