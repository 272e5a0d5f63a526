/**
 * Gregorian calendar arithmetic of the LibreSSL fallback in src/md_crypt.c:
 * leap_year, the month-length table of asn1_time_to_tm, and the
 * Fliegel & Van Flandern conversion between dates and Julian day numbers.
 *
 * Years are calendar years (tm_year + 1900), months run 1..12.
 */
module Calendar {
  import opened Base

  /** leap_year: 1 for a Gregorian leap year, 0 otherwise. C's `%` and
      Dafny's `%` agree on whether a remainder is zero. */
  function LeapYear(year: int): (r: int)
    ensures r == 0 || r == 1
    ensures r == 1 ==> year % 4 == 0
  {
    if year % 400 == 0 || (year % 100 != 0 && year % 4 == 0) then 1 else 0
  }

  /** The mdays table of asn1_time_to_tm. */
  const MonthDays: seq<int> := [31, 28, 31, 30, 31, 30, 31, 31, 30, 31, 30, 31]

  /** The ydays table of determine_days: days before the first of each month
      in a common year. */
  const YearDays: seq<int> := [0, 31, 59, 90, 120, 151, 181, 212, 243, 273, 304, 334]

  /** Length of `month` (1..12) in `year`, February getting the leap day. */
  function DaysInMonth(year: int, month: int): (n: int)
    requires 1 <= month <= 12
    ensures 28 <= n <= 31
    ensures month == 2 ==> n == 28 + LeapYear(year)
  {
    if month == 2 then MonthDays[1] + LeapYear(year) else MonthDays[month - 1]
  }

  ghost predicate ValidDate(y: int, m: int, d: int) {
    1 <= m <= 12 && 1 <= d <= DaysInMonth(y, m)
  }

  /** date_to_julian, with C's truncating division written out. */
  function DateToJulian(y: int, m: int, d: int): int {
    var a := CDiv(m - 14, 12);
    CDiv(1461 * (y + 4800 + a), 4)
      + CDiv(367 * (m - 2 - 12 * a), 12)
      - CDiv(3 * CDiv(y + 4900 + a, 100), 4)
      + d - 32075
  }

  // ---------------------------------------------------------------------
  // The algorithm counts years from March ("March years"), starting 4800
  // years before year 0, so January and February belong to the previous
  // March year and are months 11 and 12 of it.

  function MarchYear(y: int, m: int): int {
    if m <= 2 then y + 4799 else y + 4800
  }

  function MarchMonth(m: int): int {
    if m <= 2 then m + 10 else m - 2
  }

  /** Days from the start of a century of March years to the start of its
      year r (0..100). */
  function YearStart(r: int): int {
    365 * r + r / 4
  }

  /** Days from March 1 to the first day of March month k (1..13). */
  function MonthStart(k: int): int {
    (367 * k) / 12 - 30
  }

  /** Days from the start of March year 0 to the start of March year Y. */
  function DaysBefore(Y: int): int
    requires Y >= 0
  {
    146097 * (Y / 400) + 36524 * ((Y % 400) / 100) + YearStart(Y % 100)
  }

  lemma MonthStartTable(k: int)
    requires 1 <= k <= 13
    ensures MonthStart(k) == [0, 31, 61, 92, 122, 153, 184, 214, 245, 275, 306, 337, 367][k - 1]
    ensures k <= 12 ==> (2447 * k) / 80 == MonthStart(k) + 30
  {
    if k == 1 {} else if k == 2 {} else if k == 3 {} else if k == 4 {}
    else if k == 5 {} else if k == 6 {} else if k == 7 {} else if k == 8 {}
    else if k == 9 {} else if k == 10 {} else if k == 11 {} else if k == 12 {}
  }

  lemma DivBy4(x: int, k: int)
    ensures (4 * k + x) / 4 == k + x / 4 && (4 * k + x) % 4 == x % 4
  {
  }

  lemma DivBy100(x: int, k: int)
    ensures (100 * k + x) / 100 == k + x / 100 && (100 * k + x) % 100 == x % 100
  {
  }

  lemma DivBy400(x: int, k: int)
    ensures (400 * k + x) / 400 == k + x / 400 && (400 * k + x) % 400 == x % 400
  {
  }

  lemma DivBy146097(x: int, k: int)
    ensures (146097 * k + x) / 146097 == k + x / 146097
  {
  }

  lemma SplitCenturies(Y: int, q: int, c: int, r: int)
    requires Y == 400 * q + 100 * c + r && 0 <= c <= 3 && 0 <= r <= 99
    ensures Y / 400 == q && (Y % 400) / 100 == c && Y % 100 == r
  {
    DivBy400(100 * c + r, q);
    assert Y % 400 == 100 * c + r;
    DivBy100(r, c);
    DivBy100(r, 4 * q + c);
    assert Y == 100 * (4 * q + c) + r;
  }

  /** (m - 14) / 12 in C picks out January and February. */
  lemma MonthShift(m: int)
    requires 1 <= m <= 12
    ensures CDiv(m - 14, 12) == if m <= 2 then -1 else 0
  {
  }

  lemma YearTerm(Y: int, q: int, c: int, r: int)
    requires Y == 400 * q + 100 * c + r && 0 <= c <= 3 && 0 <= r <= 99 && q >= 0
    ensures CDiv(1461 * Y, 4) == 146100 * q + 36525 * c + 365 * r + r / 4
  {
    assert 1461 * Y == 4 * (146100 * q + 36525 * c + 365 * r) + r;
    DivBy4(r, 146100 * q + 36525 * c + 365 * r);
  }

  lemma CenturyTerm(Y: int, q: int, c: int, r: int)
    requires Y == 400 * q + 100 * c + r && 0 <= c <= 3 && 0 <= r <= 99 && q >= 0
    ensures CDiv(3 * CDiv(Y + 100, 100), 4) == 3 * q + c
  {
    DivBy100(r, 4 * q + c + 1);
    assert CDiv(Y + 100, 100) == 4 * q + c + 1;
    DivBy4(3 * (c + 1), 3 * q);
    assert (3 * (c + 1)) / 4 == c by {
      if c == 0 {} else if c == 1 {} else if c == 2 {} else {}
    }
  }

  /** date_to_julian is "days before the March year, plus days into it". */
  lemma Decompose(y: int, m: int, d: int)
    requires 1 <= m <= 12 && MarchYear(y, m) >= 0
    ensures DateToJulian(y, m, d)
         == DaysBefore(MarchYear(y, m)) + MonthStart(MarchMonth(m)) + d - 32045
  {
    MonthShift(m);
    var Y := MarchYear(y, m);
    var q, c, r := Y / 400, (Y % 400) / 100, (Y % 400) % 100;
    assert Y == 400 * q + 100 * c + r;
    SplitCenturies(Y, q, c, r);
    YearTerm(Y, q, c, r);
    CenturyTerm(Y, q, c, r);
  }

  /** The length of the March year that ends with February of calendar
      year yc is 365 plus yc's leap day. */
  lemma MarchYearLength(yc: int)
    requires yc >= -4799
    ensures DaysBefore(yc + 4800) == DaysBefore(yc + 4799) + 365 + LeapYear(yc)
  {
    var Y := yc + 4799;
    var q, c, r := Y / 400, (Y % 400) / 100, (Y % 400) % 100;
    assert Y == 400 * q + 100 * c + r;
    SplitCenturies(Y, q, c, r);
    if r < 99 {
      SplitCenturies(Y + 1, q, c, r + 1);
      WithinCentury(yc, q, c, r);
    } else if c < 3 {
      SplitCenturies(Y + 1, q, c + 1, 0);
      CenturyEnd(yc, q, c);
    } else {
      SplitCenturies(Y + 1, q + 1, 0, 0);
      assert yc == 400 * (q - 11);
    }
  }

  lemma WithinCentury(yc: int, q: int, c: int, r: int)
    requires yc + 4799 == 400 * q + 100 * c + r && 0 <= c <= 3 && 0 <= r < 99
    ensures YearStart(r + 1) - YearStart(r) == 365 + LeapYear(yc)
  {
    assert yc == 4 * (100 * q + 25 * c - 1200) + (r + 1);
    assert yc == 100 * (4 * q + c - 48) + (r + 1);
    assert (r + 1) / 4 == r / 4 + (if (r + 1) % 4 == 0 then 1 else 0);
    assert yc % 100 != 0 by { DivBy100(r + 1, 4 * q + c - 48); }
    assert yc % 4 == (r + 1) % 4 by { DivBy4(r + 1, 100 * q + 25 * c - 1200); }
  }

  lemma CenturyEnd(yc: int, q: int, c: int)
    requires yc + 4799 == 400 * q + 100 * c + 99 && 0 <= c < 3
    ensures LeapYear(yc) == 0
  {
    assert yc == 400 * (q - 12) + 100 * (c + 1);
    assert yc % 400 != 0 by { DivBy400(100 * (c + 1), q - 12); }
    assert yc % 100 == 0 by { DivBy100(0, 4 * (q - 12) + c + 1); }
  }

  // ---------------------------------------------------------------------
  // Day of the year, year length, order

  /** The ydays/leap_year computation of determine_days gives the distance
      from January 1 to the date. */
  lemma JulianDayOfYear(y: int, m: int, d: int)
    requires y >= -4799 && 1 <= m <= 12
    ensures DateToJulian(y, m, d) - DateToJulian(y, 1, 1)
         == YearDays[m - 1] + d - 1 + (if m >= 3 then LeapYear(y) else 0)
  {
    Decompose(y, 1, 1);
    Decompose(y, m, d);
    MonthStartTable(11);
    MonthStartTable(MarchMonth(m));
    if m >= 3 {
      MarchYearLength(y);
    }
  }

  /** Consecutive New Year's days are 365 or 366 days apart, as leap_year says. */
  lemma {:induction false} JulianYearLength(y: int)
    requires y >= -4799
    ensures DateToJulian(y + 1, 1, 1) == DateToJulian(y, 1, 1) + 365 + LeapYear(y)
  {
    Decompose(y, 1, 1);
    Decompose(y + 1, 1, 1);
    MarchYearLength(y);
  }

  lemma DayOfYearBounds(y: int, m: int, d: int)
    requires ValidDate(y, m, d)
    ensures 0 <= YearDays[m - 1] + d - 1 + (if m >= 3 then LeapYear(y) else 0) <= 364 + LeapYear(y)
  {
  }

  /** Within one year, a later month starts after every day of an earlier one. */
  lemma DayOfYearOrder(y: int, m1: int, d1: int, m2: int, d2: int)
    requires ValidDate(y, m1, d1) && ValidDate(y, m2, d2) && m1 < m2
    ensures YearDays[m1 - 1] + d1 + (if m1 >= 3 then LeapYear(y) else 0)
          < YearDays[m2 - 1] + d2 + (if m2 >= 3 then LeapYear(y) else 0)
  {
    assert YearDays[m1 - 1] + DaysInMonth(y, m1) + (if m1 >= 3 then LeapYear(y) else 0)
        <= YearDays[m2 - 1] + (if m2 >= 3 then LeapYear(y) else 0);
  }

  /** New Year's day moves forward strictly with the year. */
  lemma {:induction false} NewYearIncreasing(y1: int, y2: int)
    requires -4799 <= y1 < y2
    ensures DateToJulian(y1, 1, 1) + 365 <= DateToJulian(y2, 1, 1)
    decreases y2 - y1
  {
    JulianYearLength(y2 - 1);
    if y1 < y2 - 1 {
      NewYearIncreasing(y1, y2 - 1);
    }
  }

  /** Every date of year y lies between its January 1 and December 31. */
  lemma WithinYear(y: int, m: int, d: int)
    requires ValidDate(y, m, d) && y >= -4799
    ensures DateToJulian(y, 1, 1) <= DateToJulian(y, m, d) <= DateToJulian(y, 12, 31)
    ensures DateToJulian(y, 12, 31) + 1 == DateToJulian(y + 1, 1, 1)
  {
    JulianDayOfYear(y, m, d);
    JulianDayOfYear(y, 12, 31);
    DayOfYearBounds(y, m, d);
    JulianYearLength(y);
  }

  /** date_to_julian is strictly increasing along the calendar: a date in
      an earlier year has a smaller Julian day. */
  lemma JulianYearOrder(y1: int, m1: int, d1: int, y2: int, m2: int, d2: int)
    requires ValidDate(y1, m1, d1) && ValidDate(y2, m2, d2)
    requires -4799 <= y1 < y2
    ensures DateToJulian(y1, m1, d1) < DateToJulian(y2, m2, d2)
  {
    WithinYear(y1, m1, d1);
    WithinYear(y2, m2, d2);
    if y1 + 1 < y2 {
      NewYearIncreasing(y1 + 1, y2);
    }
  }

  /** Distinct valid dates have distinct Julian days. */
  lemma DateToJulianInjective(y1: int, m1: int, d1: int, y2: int, m2: int, d2: int)
    requires ValidDate(y1, m1, d1) && ValidDate(y2, m2, d2)
    requires y1 >= -4799 && y2 >= -4799
    requires DateToJulian(y1, m1, d1) == DateToJulian(y2, m2, d2)
    ensures y1 == y2 && m1 == m2 && d1 == d2
  {
    if y1 < y2 {
      JulianYearOrder(y1, m1, d1, y2, m2, d2);
    } else if y2 < y1 {
      JulianYearOrder(y2, m2, d2, y1, m1, d1);
    } else {
      JulianDayOfYear(y1, m1, d1);
      JulianDayOfYear(y1, m2, d2);
      if m1 < m2 {
        DayOfYearOrder(y1, m1, d1, m2, d2);
        assert false;
      } else if m2 < m1 {
        DayOfYearOrder(y1, m2, d2, m1, d1);
        assert false;
      }
    }
  }

  /** A date lies in year lo or later exactly when its Julian day is not
      before January 1 of lo. */
  lemma FromYear(y: int, m: int, d: int, lo: int)
    requires ValidDate(y, m, d) && y >= -4799 && lo >= -4799
    ensures lo <= y <==> DateToJulian(lo, 1, 1) <= DateToJulian(y, m, d)
  {
    if y < lo {
      JulianYearOrder(y, m, d, lo, 1, 1);
    } else if lo < y {
      JulianYearOrder(lo, 1, 1, y, m, d);
    } else {
      WithinYear(y, m, d);
    }
  }

  /** A date lies in year hi or earlier exactly when its Julian day is not
      after December 31 of hi. */
  lemma UntilYear(y: int, m: int, d: int, hi: int)
    requires ValidDate(y, m, d) && y >= -4799 && hi >= -4799
    ensures y <= hi <==> DateToJulian(y, m, d) <= DateToJulian(hi, 12, 31)
  {
    if y < hi {
      JulianYearOrder(y, m, d, hi, 12, 31);
    } else if hi < y {
      JulianYearOrder(hi, 12, 31, y, m, d);
    } else {
      WithinYear(y, m, d);
    }
  }

  // ---------------------------------------------------------------------
  // julian_to_date

  /** The year-of-century step of julian_to_date: (4000 * (E + 1)) / 1461001
      is the March year r in which day E of a century falls. */
  lemma YearOfDay(E: int, r: int)
    requires 0 <= E && 0 <= r <= 99
    ensures (YearStart(r) <= E < YearStart(r + 1)) <==> (4000 * (E + 1)) / 1461001 == r
  {
    var s, t := r / 4, r % 4;
    assert r == 4 * s + t;
    var s', t' := (r + 1) / 4, (r + 1) % 4;
    assert r + 1 == 4 * s' + t';
    assert YearStart(r) == 1461 * s + 365 * t;
    assert YearStart(r + 1) == 1461 * s' + 365 * t';
    assert 4000 * YearStart(r) + 4000 >= 1461001 * r;
    assert 4000 * YearStart(r + 1) + 4000 >= 1461001 * (r + 1);
    assert 4000 * YearStart(r + 1) < 1461001 * (r + 1);
    assert r > 0 ==> 4000 * YearStart(r) < 1461001 * r;
  }

  /** The month step of julian_to_date: (80 * (D + 31)) / 2447 is the March
      month k in which day D of a March year falls. */
  lemma MonthOfDay(D: int, k: int)
    requires 0 <= D <= 365 && 1 <= k <= 12
    ensures (MonthStart(k) <= D < MonthStart(k + 1)) <==> (80 * (D + 31)) / 2447 == k
  {
    MonthStartTable(k);
    MonthStartTable(k + 1);
  }

  lemma MarchMonthLength(k: int, y: int)
    requires 1 <= k <= 11
    ensures MonthStart(k + 1) - MonthStart(k)
         == DaysInMonth(y, if k <= 10 then k + 2 else k - 10)
  {
    MonthStartTable(k);
    MonthStartTable(k + 1);
  }

  /** First step of julian_to_date: the 400-year cycle and the century of
      the shifted day L0, and the day L1 within that century of March years. */
  lemma CenturyOfDay(L0: int) returns (q: int, c: int, L1: int)
    requires L0 >= 68569
    ensures CDiv(4 * L0, 146097) == 4 * q + c && 0 <= c <= 3 && q >= 0
    ensures L1 == L0 - CDiv(146097 * CDiv(4 * L0, 146097) + 3, 4)
    ensures 0 <= L1 <= 36524 && (c != 0 ==> L1 <= 36523)
    ensures L0 == 146097 * q + 36524 * c + L1 + (if c >= 1 then 1 else 0)
  {
    q := L0 / 146097;
    var R := L0 % 146097;
    c := (4 * R) / 146097;
    assert 4 * L0 == 146097 * (4 * q) + 4 * R;
    DivBy146097(4 * R, 4 * q);
    var n := 4 * q + c;
    assert CDiv(146097 * n + 3, 4) == 146097 * q + 36524 * c + (if c >= 1 then 1 else 0) by {
      DivBy4(146097 * c + 3, 146097 * q);
      if c == 0 {} else if c == 1 {} else if c == 2 {} else {}
    }
    L1 := R - 36524 * c - (if c >= 1 then 1 else 0);
  }

  /** Second step: the March year i of the century in which day L1 falls,
      and the day D within that year. */
  lemma YearOfCentury(L1: int, c: int) returns (i: int, D: int)
    requires 0 <= L1 <= 36524 && (c != 0 ==> L1 <= 36523)
    ensures i == CDiv(4000 * (L1 + 1), 1461001) && 0 <= i <= 99
    ensures D == L1 - CDiv(1461 * i, 4) && D == L1 - YearStart(i)
    ensures 0 <= D <= 365 && D < YearStart(i + 1) - YearStart(i)
    ensures D == 365 ==> (i + 1) % 4 == 0 && (i == 99 ==> c == 0)
  {
    i := (4000 * (L1 + 1)) / 1461001;
    YearOfDay(L1, i);
    DivBy4(i, 365 * i);
    D := L1 - YearStart(i);
    assert YearStart(i + 1) - YearStart(i) == 365 + (if (i + 1) % 4 == 0 then 1 else 0);
  }

  /** Third step: the March month j in which day D of a March year falls,
      and the day of the month. */
  lemma MonthOfYear(D: int) returns (j: int, d: int)
    requires 0 <= D <= 365
    ensures j == CDiv(80 * (D + 31), 2447) && 1 <= j <= 12
    ensures d == D + 31 - CDiv(2447 * j, 80) && d == D - MonthStart(j) + 1
    ensures MonthStart(j) <= D < MonthStart(j + 1)
  {
    j := (80 * (D + 31)) / 2447;
    MonthOfDay(D, j);
    MonthStartTable(j);
    d := D - MonthStart(j) + 1;
  }

  /**
   * julian_to_date: for every Julian day from 0 on, the date it computes is
   * a valid Gregorian date that date_to_julian maps back to the same day.
   * Together with DateToJulianInjective this is the round trip
   * julian_to_date(date_to_julian(y, m, d)) == (y, m, d).
   */
  method JulianToDate(jd: int) returns (y: int, m: int, d: int)
    ensures jd >= 0 ==> ValidDate(y, m, d) && y >= -4799 && DateToJulian(y, m, d) == jd
  {
    var L := jd + 68569;
    var n := CDiv(4 * L, 146097);
    L := L - CDiv(146097 * n + 3, 4);
    ghost var dayOfCentury := L;
    var i := CDiv(4000 * (L + 1), 1461001);
    L := L - CDiv(1461 * i, 4) + 31;
    ghost var dayOfYear := L - 31;
    var j := CDiv(80 * L, 2447);
    d := L - CDiv(2447 * j, 80);
    L := CDiv(j, 11);
    m := j + 2 - 12 * L;
    y := 100 * (n - 49) + i + L;
    if jd >= 0 {
      var q, c, L1 := CenturyOfDay(jd + 68569);
      assert L1 == dayOfCentury;
      var i', D := YearOfCentury(L1, c);
      assert i' == i;
      assert D == dayOfYear;
      var j', d' := MonthOfYear(D);
      assert j' == j;
      assert d' == d;
      JulianToDateCorrect(q, c, i, D, j, d, L, y, m);
    }
  }

  lemma JulianToDateValid(q: int, c: int, i: int, D: int, j: int, d: int, l3: int, y: int, m: int)
    requires q >= 0 && 0 <= c <= 3 && (c == 0 ==> q >= 1) && 0 <= i <= 99
    requires 0 <= D <= 365 && 146097 * q + 36524 * c + YearStart(i) + D >= 68568
    requires D == 365 ==> (i + 1) % 4 == 0 && (i == 99 ==> c == 0)
    requires 1 <= j <= 12 && d == D - MonthStart(j) + 1
    requires MonthStart(j) <= D < MonthStart(j + 1)
    requires l3 == CDiv(j, 11) && m == j + 2 - 12 * l3 && y == 100 * (4 * q + c - 49) + i + l3
    ensures ValidDate(y, m, d) && y >= -4799 && MarchMonth(m) == j
  {
    MonthStartTable(j);
    assert l3 == (if j >= 11 then 1 else 0);
    if j <= 11 {
      MarchMonthLength(j, y);
    } else {
      MonthStartTable(13);
      if d == 29 {
        assert y % 4 == 0 by {
          assert y == 4 * (100 * q + 25 * c - 1225) + (i + 1);
          DivBy4(i + 1, 100 * q + 25 * c - 1225);
        }
        if i == 99 {
          assert y == 400 * (q - 12);
          DivBy400(0, q - 12);
        } else {
          assert y == 100 * (4 * q + c - 49) + (i + 1);
          DivBy100(i + 1, 4 * q + c - 49);
        }
      }
    }
  }

  lemma JulianToDateCorrect(q: int, c: int, i: int, D: int, j: int, d: int, l3: int, y: int, m: int)
    requires q >= 0 && 0 <= c <= 3 && (c == 0 ==> q >= 1) && 0 <= i <= 99
    requires 0 <= D <= 365 && 146097 * q + 36524 * c + YearStart(i) + D >= 68568
    requires D == 365 ==> (i + 1) % 4 == 0 && (i == 99 ==> c == 0)
    requires 1 <= j <= 12 && d == D - MonthStart(j) + 1
    requires MonthStart(j) <= D < MonthStart(j + 1)
    requires l3 == CDiv(j, 11) && m == j + 2 - 12 * l3 && y == 100 * (4 * q + c - 49) + i + l3
    ensures ValidDate(y, m, d) && y >= -4799
    ensures DateToJulian(y, m, d)
         == 146097 * q + 36524 * c + YearStart(i) + D + (if c >= 1 then 1 else 0) - 68569
  {
    JulianToDateValid(q, c, i, D, j, d, l3, y, m);
    var Y := MarchYear(y, m);
    assert Y == 100 * (4 * q + c - 1) + i;
    if c >= 1 {
      SplitCenturies(Y, q, c - 1, i);
    } else {
      SplitCenturies(Y, q - 1, 3, i);
    }
    Decompose(y, m, d);
  }

  /** Julian days of January 1, 1900 and December 31, 9999. */
  lemma JulianDayLimits()
    ensures DateToJulian(1900, 1, 1) == 2415021
    ensures DateToJulian(9999, 12, 31) == 5373484
  {
  }

  /** The years OPENSSL_gmtime_adj accepts, 1900..9999, are the Julian days
      2415021..5373484. */
  lemma GmtimeYearRange(y: int, m: int, d: int)
    requires ValidDate(y, m, d) && y >= -4799
    ensures 1900 <= y <= 9999 <==> 2415021 <= DateToJulian(y, m, d) <= 5373484
  {
    FromYear(y, m, d, 1900);
    UntilYear(y, m, d, 9999);
    JulianDayLimits();
  }
}
