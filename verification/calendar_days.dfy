/**
  The Julian day conversions of 3rdparty/boringssl/crypto/time_support.c (Fliegel and Van Flandern)
  against the Gregorian calendar itself: its leap years, its month lengths and its next day.
 */
module CalendarDays {

  /** C's division, which truncates toward zero. */
  function CDiv(a: int, b: int): int
    requires b > 0
  {
    if a >= 0 then a / b else -((-a) / b)
  }

  datatype Date = Date(y: int, m: int, d: int)

  predicate IsLeap(y: int) { y % 4 == 0 && (y % 100 != 0 || y % 400 == 0) }

  function MonthLength(y: int, m: int): int {
    if m == 2 then if IsLeap(y) then 29 else 28
    else if m == 4 || m == 6 || m == 9 || m == 11 then 30
    else 31
  }

  predicate ValidDate(x: Date) { 1 <= x.m <= 12 && 1 <= x.d <= MonthLength(x.y, x.m) }

  function NextDay(x: Date): (r: Date)
    requires ValidDate(x)
    ensures ValidDate(r)
  {
    if x.d < MonthLength(x.y, x.m) then Date(x.y, x.m, x.d + 1)
    else if x.m < 12 then Date(x.y, x.m + 1, 1)
    else Date(x.y + 1, 1, 1)
  }

  /** date_to_julian */
  function DateToJulian(y: int, m: int, d: int): int {
    CDiv(1461 * (y + 4800 + CDiv(m - 14, 12)), 4)
    + CDiv(367 * (m - 2 - 12 * CDiv(m - 14, 12)), 12)
    - CDiv(3 * CDiv(y + 4900 + CDiv(m - 14, 12), 100), 4) + d - 32075
  }

  function Julian(x: Date): int { DateToJulian(x.y, x.m, x.d) }

  /** The year that starts in March, and the month counted from it. */
  function MarchYear(x: Date): int { x.y + 4800 - if x.m <= 2 then 1 else 0 }

  function MarchMonth(x: Date): int { if x.m <= 2 then x.m + 10 else x.m - 2 }

  /** The days before year number `year` of those that start in March. */
  function MarchDays(year: int): int { CenturyAndYear(year / 100, year % 100) }

  function CenturyAndYear(c: int, r: int): int { 36525 * c + 1461 * r / 4 - 3 * (c + 1) / 4 }

  lemma JulianInMarchTerms(x: Date)
    requires 1 <= x.m <= 12 && MarchYear(x) >= 0
    ensures Julian(x) == MarchDays(MarchYear(x)) + 367 * MarchMonth(x) / 12 + x.d - 32075
  {
    var year := MarchYear(x);
    var c, r := year / 100, year % 100;
    assert CDiv(x.m - 14, 12) == if x.m <= 2 then -1 else 0;
    assert year == 100 * c + r;
    assert (year + 100) / 100 == c + 1;
    assert 1461 * year == 4 * (36525 * c) + 1461 * r;
  }

  /** 367 twelfths, rounded down, step by the lengths of the months from March to January. */
  lemma MonthSteps(y: int, m: int, mm: int)
    requires 1 <= m <= 12 && m != 2 && mm == if m <= 2 then m + 10 else m - 2
    ensures 367 * (mm + 1) / 12 == 367 * mm / 12 + MonthLength(y, m)
  {
  }

  /** Tomorrow's number is today's plus one, through every month, every leap year and every century. */
  lemma {:induction false} NextDayIsNextNumber(x: Date)
    requires ValidDate(x) && MarchYear(x) >= 0
    ensures Julian(NextDay(x)) == Julian(x) + 1
  {
    hide Julian, IsLeap;
    if x.d < MonthLength(x.y, x.m) {
      NextInMonth(x);
    } else if x.m == 2 {
      FirstOfMarch(x);
    } else {
      FirstOfMonth(x, NextDay(x));
    }
  }

  lemma NextInMonth(x: Date)
    requires 1 <= x.m <= 12 && MarchYear(x) >= 0
    ensures Julian(Date(x.y, x.m, x.d + 1)) == Julian(x) + 1
  {
    JulianInMarchTerms(x);
    JulianInMarchTerms(Date(x.y, x.m, x.d + 1));
    hide Julian, MarchDays;
  }

  lemma FirstOfMarch(x: Date)
    requires x.m == 2 && x.d == MonthLength(x.y, 2) && MarchYear(x) == x.y + 4799 >= 0
    ensures Julian(Date(x.y, 3, 1)) == Julian(x) + 1
  {
    var z := Date(x.y, 3, 1);
    assert MarchYear(z) == MarchYear(x) + 1 && MarchMonth(x) == 12 && MarchMonth(z) == 1;
    hide *;
    JulianInMarchTerms(x);
    JulianInMarchTerms(z);
    MarchBegins(MarchYear(x), x.y);
  }

  lemma FirstOfMonth(x: Date, z: Date)
    requires 1 <= x.m <= 12 && x.m != 2 && x.d == MonthLength(x.y, x.m) && MarchYear(x) >= 0
    requires z == if x.m < 12 then Date(x.y, x.m + 1, 1) else Date(x.y + 1, 1, 1)
    ensures Julian(z) == Julian(x) + 1
  {
    JulianInMarchTerms(x);
    JulianInMarchTerms(z);
    MonthSteps(x.y, x.m, MarchMonth(x));
    hide Julian, MarchDays, MonthLength;
    assert MarchYear(z) == MarchYear(x) && MarchMonth(z) == MarchMonth(x) + 1;
  }

  /** From the last of February to the first of March. */
  lemma MarchBegins(year: int, y: int)
    requires year >= 0 && year == y + 4799
    ensures MarchDays(year + 1) == MarchDays(year) + 337 + MonthLength(y, 2)
  {
    var c, r := year / 100, year % 100;
    assert year == 100 * c + r;
    if r < 99 {
      LeapInCentury(c, r, y);
      YearAdds(c, r);
      assert (year + 1) / 100 == c && (year + 1) % 100 == r + 1;
    } else {
      LeapAtCentury(c, y);
      CenturyAdds(c);
      assert (year + 1) / 100 == c + 1 && (year + 1) % 100 == 0;
    }
    hide IsLeap, CenturyAndYear;
  }

  lemma YearAdds(c: int, r: nat)
    ensures CenturyAndYear(c, r + 1) == CenturyAndYear(c, r) + if (r + 1) % 4 == 0 then 366 else 365
  {
    assert 1461 * (r + 1) / 4 == 1461 * r / 4 + if (r + 1) % 4 == 0 then 366 else 365;
  }

  lemma CenturyAdds(c: int)
    ensures CenturyAndYear(c + 1, 0) == CenturyAndYear(c, 99) + if (c + 1) % 4 == 0 then 366 else 365
  {
    assert 3 * (c + 2) / 4 == 3 * (c + 1) / 4 + if (c + 1) % 4 == 0 then 0 else 1;
  }

  lemma LeapInCentury(c: int, r: int, y: int)
    requires 0 <= r < 99 && y == 100 * (c - 48) + r + 1
    ensures IsLeap(y) <==> (r + 1) % 4 == 0
  {
    SplitHundreds(c - 48, r + 1);
  }

  lemma SplitHundreds(q: int, r: int)
    requires 0 <= r < 100
    ensures (100 * q + r) % 100 == r && (100 * q + r) % 4 == r % 4
  {
    assert 100 * q + r == 4 * (25 * q + r / 4) + r % 4;
  }

  lemma LeapAtCentury(c: int, y: int)
    requires y == 100 * (c - 47)
    ensures IsLeap(y) <==> (c + 1) % 4 == 0
  {
    var k, s := (c - 47) / 4, (c - 47) % 4;
    FourHundreds(k, s);
    assert y == 400 * k + 100 * s;
    assert (c + 1) % 4 == s by {
      assert c + 1 == 4 * (k + 12) + s;
    }
  }

  lemma FourHundreds(k: int, s: int)
    requires 0 <= s < 4
    ensures var y := 400 * k + 100 * s; y % 100 == 0 && y % 4 == 0 && y % 400 == 100 * s
  {
    assert 400 * k + 100 * s == 100 * (4 * k + s) == 4 * (100 * k + 25 * s);
  }

  /** julian_to_date, for the numbers gmtime_adj hands it */
  function JulianToDate(jd: nat): Date {
    var L := jd + 68569;
    var n := 4 * L / 146097;
    var L1 := L - (146097 * n + 3) / 4;
    var i := CDiv(4000 * (L1 + 1), 1461001);
    var L2 := L1 - CDiv(1461 * i, 4) + 31;
    var j := CDiv(80 * L2, 2447);
    var d := L2 - CDiv(2447 * j, 80);
    var L3 := CDiv(j, 11);
    Date(100 * (n - 49) + i + L3, j + 2 - 12 * L3, d)
  }

  lemma CenturyFound(c: nat, r: nat, x: Date)
    requires ValidDate(x) && MarchYear(x) == 100 * c + r && r < 100
    ensures var L1 := 1461 * r / 4 + 367 * MarchMonth(x) / 12 + x.d - 31;
            && 0 <= L1
            && Julian(x) + 68569 == L1 + (146097 * (c + 1) + 3) / 4
            && 4 * (Julian(x) + 68569) / 146097 == c + 1
  {
    JulianInMarchTerms(x);
    assert MarchYear(x) / 100 == c && MarchYear(x) % 100 == r;
    hide Julian, ValidDate, MarchMonth;
    var L1 := 1461 * r / 4 + 367 * MarchMonth(x) / 12 + x.d - 31;
    CenturyDays(c);
    L1Bounds(c, r, x);
    var L := Julian(x) + 68569;
    assert L == L1 + (146097 * (c + 1) + 3) / 4;
    assert 146097 * (c + 1) <= 4 * L < 146097 * (c + 2);
  }

  lemma CenturyDays(c: nat)
    ensures 36525 * c - 3 * (c + 1) / 4 + 36525 == (146097 * (c + 1) + 3) / 4
  {
    var k, s := c / 4, c % 4;
    assert c == 4 * k + s;
  }

  /** The last century year of a cycle of four is the one whose February has a 29th. */
  lemma L1Bounds(c: nat, r: nat, x: Date)
    requires ValidDate(x) && MarchYear(x) == 100 * c + r && r < 100
    ensures var L1 := 1461 * r / 4 + 367 * MarchMonth(x) / 12 + x.d - 31;
            && 0 <= L1
            && 4 * (L1 + (146097 * (c + 1) + 3) / 4) < 146097 * (c + 2)
            && 1461001 * r <= 4000 * (L1 + 1) < 1461001 * (r + 1)
  {
    DayInMarchYear(x);
    var e := 367 * MarchMonth(x) / 12 + x.d - 31;
    if e == 365 {
      LeapPosition(c, r, x.y);
    }
    hide ValidDate, MarchMonth;
    CenturyBound(c, r, e);
    YearBound(r, e);
  }

  lemma CenturyBound(c: nat, r: nat, e: nat)
    requires r < 100 && e <= 365 && (e == 365 ==> r % 4 == 3 && (r == 99 ==> c % 4 == 3))
    ensures 4 * (1461 * r / 4 + e + (146097 * (c + 1) + 3) / 4) < 146097 * (c + 2)
  {
  }

  lemma YearBound(r: nat, e: nat)
    requires r < 100 && e <= 365 && (e == 365 ==> r % 4 == 3)
    ensures 1461001 * r <= 4000 * (1461 * r / 4 + e + 1) < 1461001 * (r + 1)
  {
  }

  /** Days since the first of March, 0 to 365. */
  lemma DayInMarchYear(x: Date)
    requires ValidDate(x)
    ensures var e := 367 * MarchMonth(x) / 12 + x.d - 31;
            0 <= e <= 365 && (e == 365 ==> x.m == 2 && IsLeap(x.y))
  {
  }

  lemma LeapPosition(c: nat, r: nat, y: int)
    requires y == 100 * c + r - 4799 && r < 100 && IsLeap(y)
    ensures r % 4 == 3 && (r == 99 ==> c % 4 == 3)
  {
    if r < 99 {
      LeapInCentury(c, r, y);
    } else {
      LeapAtCentury(c, y);
    }
    hide IsLeap;
  }

  lemma YearFound(r: nat, L1: nat)
    requires 1461001 * r <= 4000 * (L1 + 1) < 1461001 * (r + 1)
    ensures CDiv(4000 * (L1 + 1), 1461001) == r
  {
  }

  lemma MonthFound(y: int, m: int, mm: nat, d: int)
    requires 1 <= m <= 12 && 1 <= d <= MonthLength(y, m) && mm == if m <= 2 then m + 10 else m - 2
    ensures var L2 := 367 * mm / 12 + d;
            && CDiv(80 * L2, 2447) == mm
            && L2 - CDiv(2447 * mm, 80) == d
            && mm + 2 - 12 * CDiv(mm, 11) == m
            && CDiv(mm, 11) == if m <= 2 then 1 else 0
  {
  }

  /** The computation of julian_to_date once century, year and month have been recognised. */
  lemma PartsAreFound(jd: nat, n: nat, L1: nat, i: nat, L2: int, j: nat, m: int, d: int)
    requires n == 4 * (jd + 68569) / 146097 && L1 == jd + 68569 - (146097 * n + 3) / 4
    requires i == CDiv(4000 * (L1 + 1), 1461001) && L2 == L1 - CDiv(1461 * i, 4) + 31
    requires j == CDiv(80 * L2, 2447) && d == L2 - CDiv(2447 * j, 80) && m == j + 2 - 12 * CDiv(j, 11)
    ensures JulianToDate(jd) == Date(100 * (n - 49) + i + CDiv(j, 11), m, d)
  {
    hide CDiv;
  }

  /** Every valid date whose number is in the range of julian_to_date comes back from it. */
  lemma {:induction false} JulianToDateInverts(x: Date)
    requires ValidDate(x) && MarchYear(x) >= 0 && Julian(x) >= 0
    ensures JulianToDate(Julian(x)) == x
  {
    var c, r := MarchYear(x) / 100, MarchYear(x) % 100;
    var mm := MarchMonth(x);
    assert MarchYear(x) == 100 * c + r;
    CenturyFound(c, r, x);
    L1Bounds(c, r, x);
    MonthFound(x.y, x.m, mm, x.d);
    hide Julian, MonthLength, ValidDate, JulianToDate, CDiv;
    var L1 := 1461 * r / 4 + 367 * mm / 12 + x.d - 31;
    YearFound(r, L1);
    CDivOfNat(1461 * r, 4);
    PartsAreFound(Julian(x), c + 1, L1, r, 367 * mm / 12 + x.d, mm, x.m, x.d);
  }

  lemma CDivOfNat(a: nat, b: nat)
    requires b > 0
    ensures CDiv(a, b) == a / b
  {
  }

  /** The day with number 0. */
  const FIRST := Date(-4713, 11, 24)

  lemma FirstIsZero()
    ensures ValidDate(FIRST) && Julian(FIRST) == 0 && MarchYear(FIRST) >= 0
  {
  }

  /** The n-th day after day 0, found on the calendar. */
  function DayAfter(n: nat): (r: Date)
    ensures ValidDate(r) && MarchYear(r) >= 0 && r.y >= -4713
  {
    if n == 0 then FIRST else NextDay(DayAfter(n - 1))
  }

  lemma {:induction false} DayAfterHasItsNumber(n: nat)
    ensures Julian(DayAfter(n)) == n
  {
    hide Julian;
    if n == 0 {
      FirstIsZero();
    } else {
      DayAfterHasItsNumber(n - 1);
      NextDayIsNextNumber(DayAfter(n - 1));
    }
  }

  /** julian_to_date gives the n-th day of the calendar, and date_to_julian numbers it n again. */
  lemma {:induction false} NumbersAreDays(n: nat)
    ensures JulianToDate(n) == DayAfter(n) && ValidDate(JulianToDate(n)) && Julian(JulianToDate(n)) == n
  {
    hide Julian, JulianToDate;
    DayAfterHasItsNumber(n);
    JulianToDateInverts(DayAfter(n));
  }
}
