/**
  OPENSSL_gmtime_adj and OPENSSL_gmtime_diff (3rdparty/boringssl/crypto/time_support.c): moving a
  broken-down time by days and seconds, and measuring the way from one to another.
 */
module CalendarTime {
  import opened CalendarDays

  const DAY: int := 86400  // SECS_PER_DAY

  /** The value of a struct tm: years from 1900, months from 0. */
  datatype Tm = Tm(year: int, mon: int, mday: int, hour: int, min: int, sec: int)

  function DateOf(t: Tm): Date { Date(t.year + 1900, t.mon + 1, t.mday) }

  function ClockOf(t: Tm): int { t.hour * 3600 + t.min * 60 + t.sec }

  /** A leap second is allowed, as struct tm allows it. */
  predicate ValidClock(t: Tm) { 0 <= t.hour < 24 && 0 <= t.min < 60 && 0 <= t.sec <= 60 }

  /** Seconds since the start of Julian day 0. */
  function Stamp(t: Tm): int { Julian(DateOf(t)) * DAY + ClockOf(t) }

  /** A proper date and a clock without leap second. */
  predicate Normal(t: Tm) { ValidDate(DateOf(t)) && MarchYear(DateOf(t)) >= 0 && ValidClock(t) && t.sec < 60 }

  const EARLIEST := Tm(0, 0, 1, 0, 0, 0)    // 1900-01-01 00:00:00
  const TOO_LATE := Tm(8100, 0, 1, 0, 0, 0) // 10000-01-01 00:00:00

  /** julian_adj */
  method JulianAdj(tm: Tm, offDay: int, offsetSec: int) returns (ok: bool, day: int, sec: int)
    requires ValidClock(tm)
    ensures ok <==> Stamp(tm) + offDay * DAY + offsetSec >= 0
    ensures ok ==> day * DAY + sec == Stamp(tm) + offDay * DAY + offsetSec && 0 <= sec < DAY && day >= 0
  {
    var offsetDay := CDiv(offsetSec, DAY);
    var offsetHms := offsetSec - offsetDay * DAY;
    offsetDay := offsetDay + offDay;
    offsetHms := offsetHms + tm.hour * 3600 + tm.min * 60 + tm.sec;
    if offsetHms >= DAY {
      offsetDay := offsetDay + 1;
      offsetHms := offsetHms - DAY;
    } else if offsetHms < 0 {
      offsetDay := offsetDay - 1;
      offsetHms := offsetHms + DAY;
    }
    hide Julian, DateToJulian;
    var timeYear, timeMonth, timeDay := tm.year + 1900, tm.mon + 1, tm.mday;
    var timeJd := DateToJulian(timeYear, timeMonth, timeDay);
    JulianOfParts(tm);
    timeJd := timeJd + offsetDay;
    ok, day, sec := true, timeJd, offsetHms;
    if timeJd < 0 {
      ok := false;
    }
  }

  lemma JulianOfParts(tm: Tm)
    ensures Julian(DateOf(tm)) == DateToJulian(tm.year + 1900, tm.mon + 1, tm.mday)
  {
  }

  /** Two normal times with the same stamp are the same. */
  lemma {:induction false} StampIsInjective(a: Tm, b: Tm)
    requires Normal(a) && Normal(b) && Stamp(a) == Stamp(b) >= 0
    ensures a == b
  {
    hide Julian, ValidDate, MarchYear, JulianToDate;
    assert Julian(DateOf(a)) == Julian(DateOf(b)) && ClockOf(a) == ClockOf(b);
    JulianToDateInverts(DateOf(a));
    JulianToDateInverts(DateOf(b));
  }

  lemma YearsAfterMarch(x: Date)
    requires ValidDate(x) && x.m >= 3 && MarchYear(x) >= 0
    ensures Julian(Date(x.y, 3, 1)) <= Julian(x) < Julian(Date(x.y + 1, 1, 1))
  {
    JulianInMarchTerms(x);
    JulianInMarchTerms(Date(x.y, 3, 1));
    JulianInMarchTerms(Date(x.y + 1, 1, 1));
    MonthsAfterMarch(x);
    hide Julian, MarchDays, ValidDate, IsLeap, MonthLength;
    assert MarchYear(Date(x.y, 3, 1)) == MarchYear(x) == MarchYear(Date(x.y + 1, 1, 1));
  }

  lemma MonthsAfterMarch(x: Date)
    requires ValidDate(x) && x.m >= 3
    ensures 31 <= 367 * MarchMonth(x) / 12 + x.d <= 336
  {
  }

  lemma DaysBeforeMarch(x: Date)
    requires ValidDate(x) && x.m <= 2 && x.y >= -4799
    ensures Julian(Date(x.y, 1, 1)) <= Julian(x) < Julian(Date(x.y, 3, 1))
  {
    var first, last := Date(x.y, 1, 1), Date(x.y, 2, MonthLength(x.y, 2));
    NextDayIsNextNumber(last);
    JulianInMarchTerms(first);
    JulianInMarchTerms(last);
    JulianInMarchTerms(x);
    hide Julian, MarchDays, NextDay, IsLeap;
    assert MarchYear(first) == MarchYear(last) == MarchYear(x);
  }

  /** A day of a year is numbered between the first days of that year and the next. */
  lemma {:induction false} DayInItsYear(x: Date)
    requires ValidDate(x) && x.y >= -4799
    ensures Julian(Date(x.y, 1, 1)) <= Julian(x) < Julian(Date(x.y + 1, 1, 1))
  {
    hide Julian;
    YearsAfterMarch(Date(x.y, 3, 1));
    DaysBeforeMarch(Date(x.y, 1, 1));
    if x.m >= 3 {
      YearsAfterMarch(x);
    } else {
      DaysBeforeMarch(x);
    }
  }

  lemma {:induction false} YearStartsRise(y: int, z: int)
    requires -4799 <= y <= z
    ensures Julian(Date(y, 1, 1)) <= Julian(Date(z, 1, 1))
    decreases z - y
  {
    hide Julian;
    if y < z {
      DayInItsYear(Date(y, 1, 1));
      YearStartsRise(y + 1, z);
    }
  }

  /** The year of a day can be read off its number. */
  lemma {:induction false} YearByNumber(x: Date, y: int)
    requires ValidDate(x) && x.y >= -4799 && y >= -4799
    ensures x.y >= y <==> Julian(x) >= Julian(Date(y, 1, 1))
  {
    hide Julian;
    DayInItsYear(x);
    if x.y >= y {
      YearStartsRise(y, x.y);
    } else {
      YearStartsRise(x.y + 1, y);
    }
  }

  class TimeStruct {
    var year: int
    var mon: int
    var mday: int
    var hour: int
    var min: int
    var sec: int

    constructor (t: Tm)
      ensures Value() == t
    {
      year, mon, mday, hour, min, sec := t.year, t.mon, t.mday, t.hour, t.min, t.sec;
    }

    ghost function Value(): Tm
      reads this
    {
      Tm(year, mon, mday, hour, min, sec)
    }

    function Copy(): (r: Tm)
      reads this
      ensures r == Value()
    {
      Tm(year, mon, mday, hour, min, sec)
    }

    /**
      OPENSSL_gmtime_adj succeeds exactly for targets from 1900 to 9999, and then the structure
      holds the one normal time that lies the given way from the old one.
     */
    method GmtimeAdj(offDay: int, offsetSec: int) returns (ok: bool)
      requires ValidClock(Value())
      modifies this
      ensures ok <==> Stamp(EARLIEST) <= Stamp(old(Value())) + offDay * DAY + offsetSec < Stamp(TOO_LATE)
      ensures ok ==> Normal(Value()) && Stamp(Value()) == Stamp(old(Value())) + offDay * DAY + offsetSec
      ensures !ok ==> Value() == old(Value())
    {
      hide Stamp, Normal, Julian, JulianToDate, ValidDate;
      BoundsAreDays();
      ghost var t := Stamp(Value()) + offDay * DAY + offsetSec;
      var found, timeJd, timeSec := JulianAdj(Copy(), offDay, offsetSec);
      if !found {
        return false;
      }
      var date := JulianToDate(timeJd);
      NumberedDayHasYear(timeJd);
      DayAndSecond(timeJd, timeSec, Julian(Date(1900, 1, 1)));
      DayAndSecond(timeJd, timeSec, Julian(Date(10000, 1, 1)));
      if date.y < 1900 || date.y > 9999 {
        return false;
      }
      year, mon, mday := date.y - 1900, date.m - 1, date.d;
      hour, min, sec := timeSec / 3600, timeSec / 60 % 60, timeSec % 60;
      SplitIsNormal(Value(), timeJd, timeSec);
      ok := true;
    }
  }

  lemma DayAndSecond(day: int, sec: int, bound: int)
    requires 0 <= sec < DAY
    ensures day * DAY + sec >= bound * DAY <==> day >= bound
  {
  }

  lemma NewYear(y: int)
    requires y >= -4799
    ensures var c, r := (y + 4799) / 100, (y + 4799) % 100;
            Julian(Date(y, 1, 1)) == 36525 * c + 1461 * r / 4 + 336 - 3 * (c + 1) / 4 - 32074
  {
    JulianInMarchTerms(Date(y, 1, 1));
    hide Julian;
  }

  lemma StampOfNewYear(t: Tm, y: int)
    requires y >= 0 && t == Tm(y - 1900, 0, 1, 0, 0, 0)
    ensures Stamp(t) == Julian(Date(y, 1, 1)) * DAY > 0
  {
    NewYear(y);
    hide Julian;
    assert DateOf(t) == Date(y, 1, 1);
  }

  lemma BoundsAreDays()
    ensures Stamp(EARLIEST) == Julian(Date(1900, 1, 1)) * DAY > 0
    ensures Stamp(TOO_LATE) == Julian(Date(10000, 1, 1)) * DAY
  {
    hide Julian, DateToJulian, Stamp, DateOf, ClockOf;
    StampOfNewYear(EARLIEST, 1900);
    StampOfNewYear(TOO_LATE, 10000);
  }

  lemma SplitIsNormal(t: Tm, jd: nat, s: nat)
    requires s < DAY && DateOf(t) == JulianToDate(jd)
    requires t.hour == s / 3600 && t.min == s / 60 % 60 && t.sec == s % 60
    ensures Normal(t) && Stamp(t) == jd * DAY + s
  {
    hide Julian, JulianToDate, ValidDate;
    NumberedDayHasYear(jd);
    ClockIsSplit(s);
  }

  lemma NumberedDayHasYear(jd: nat)
    ensures var x := JulianToDate(jd);
            && ValidDate(x) && MarchYear(x) >= 0 && Julian(x) == jd
            && (x.y >= 1900 <==> jd >= Julian(Date(1900, 1, 1)))
            && (x.y >= 10000 <==> jd >= Julian(Date(10000, 1, 1)))
  {
    hide Julian, JulianToDate;
    NumbersAreDays(jd);
    var x := JulianToDate(jd);
    YearByNumber(x, 1900);
    YearByNumber(x, 10000);
  }

  lemma ClockIsSplit(s: nat)
    requires s < DAY
    ensures s / 3600 * 3600 + s / 60 % 60 * 60 + s % 60 == s && s / 3600 < 24
  {
    assert s / 60 == 60 * (s / 3600) + s / 60 % 60;
  }

  /** d days and s seconds from one instant to another: less than a day of seconds, all one way. */
  predicate IsDifference(from: Tm, to: Tm, d: int, s: int) {
    && d * DAY + s == Stamp(to) - Stamp(from)
    && -DAY < s < DAY
    && !(d > 0 && s < 0) && !(d < 0 && s > 0)
  }

  lemma DifferenceIsUnique(from: Tm, to: Tm, d: int, s: int, e: int, t: int)
    requires IsDifference(from, to, d, s) && IsDifference(from, to, e, t)
    ensures d == e && s == t
  {
    hide Stamp;
  }

  /** OPENSSL_gmtime_diff */
  method GmtimeDiff(from: TimeStruct, to: TimeStruct) returns (ok: bool, day: int, sec: int)
    requires ValidClock(from.Value()) && ValidClock(to.Value())
    ensures ok <==> Stamp(from.Value()) >= 0 && Stamp(to.Value()) >= 0
    ensures ok ==> IsDifference(from.Value(), to.Value(), day, sec)
  {
    hide Stamp;
    ok, day, sec := false, 0, 0;
    var fromOk, fromJd, fromSec := JulianAdj(from.Copy(), 0, 0);
    if !fromOk {
      return;
    }
    var toOk, toJd, toSec := JulianAdj(to.Copy(), 0, 0);
    if !toOk {
      return;
    }
    day, sec := toJd - fromJd, toSec - fromSec;
    if day > 0 && sec < 0 {
      day := day - 1;
      sec := sec + DAY;
    }
    if day < 0 && sec > 0 {
      day := day + 1;
      sec := sec - DAY;
    }
    ok := true;
  }

  /** The way that gmtime_adj went is the way that gmtime_diff measures, carried to one sign. */
  method MeasureAdjusted(tm: TimeStruct, offDay: int, offsetSec: int) returns (ok: bool, day: int, sec: int)
    requires ValidClock(tm.Value())
    modifies tm
    ensures ok <==>
            && Stamp(old(tm.Value())) >= 0
            && Stamp(EARLIEST) <= Stamp(old(tm.Value())) + offDay * DAY + offsetSec < Stamp(TOO_LATE)
    ensures ok ==>
              && day * DAY + sec == offDay * DAY + offsetSec
              && -DAY < sec < DAY && !(day > 0 && sec < 0) && !(day < 0 && sec > 0)
  {
    hide Stamp, ValidDate, MarchYear;
    day, sec := 0, 0;
    var was := new TimeStruct(tm.Copy());
    ok := tm.GmtimeAdj(offDay, offsetSec);
    if ok {
      BoundsAreDays();
      ok, day, sec := GmtimeDiff(was, tm);
    }
  }

  /** gmtime_adj undoes itself on every normal time of its range. */
  method AdjustAndBack(tm: TimeStruct, offDay: int, offsetSec: int) returns (ok: bool)
    requires Normal(tm.Value()) && Stamp(EARLIEST) <= Stamp(tm.Value()) < Stamp(TOO_LATE)
    modifies tm
    ensures ok <==> Stamp(EARLIEST) <= Stamp(old(tm.Value())) + offDay * DAY + offsetSec < Stamp(TOO_LATE)
    ensures tm.Value() == old(tm.Value())
  {
    hide Stamp, ValidDate, MarchYear;
    BoundsAreDays();
    ok := tm.GmtimeAdj(offDay, offsetSec);
    if ok {
      ok := tm.GmtimeAdj(-offDay, -offsetSec);
      StampIsInjective(old(tm.Value()), tm.Value());
    }
  }
}
