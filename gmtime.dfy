/**
 * The `struct tm` arithmetic of the LibreSSL fallback in src/md_crypt.c:
 * determine_days, julian_adj, OPENSSL_gmtime_adj and OPENSSL_gmtime_diff.
 */
module GmTime {
  import opened Base
  import opened Calendar

  /** A broken-down UTC time, as `struct tm`: `year` counts from 1900 and
      `mon` runs 0..11. */
  class Tm {
    var year: int
    var mon: int
    var mday: int
    var hour: int
    var min: int
    var sec: int
    var wday: int
    var yday: int

    /** A zero-filled struct tm. */
    constructor ()
      ensures year == 0 && mon == 0 && mday == 0 && hour == 0 && min == 0 && sec == 0
      ensures wday == 0 && yday == 0
    {
      year, mon, mday, hour, min, sec, wday, yday := 0, 0, 0, 0, 0, 0, 0, 0;
    }

    /** Stores a date and a time of day, leaving tm_wday and tm_yday as
        they were. */
    method SetDateTime(year': int, mon': int, mday': int, hour': int, min': int, sec': int)
      modifies this
      ensures year == year' && mon == mon' && mday == mday'
      ensures hour == hour' && min == min' && sec == sec'
      ensures wday == old(wday) && yday == old(yday)
    {
      year, mon, mday, hour, min, sec := year', mon', mday', hour', min', sec';
    }

    /** Stores the day of the year and the weekday, leaving the rest. */
    method SetDays(yday': int, wday': int)
      modifies this
      ensures yday == yday' && wday == wday'
      ensures year == old(year) && mon == old(mon) && mday == old(mday)
      ensures hour == old(hour) && min == old(min) && sec == old(sec)
    {
      yday, wday := yday', wday';
    }

    /** Structure assignment `*this = *src`. */
    method CopyFrom(src: Tm)
      modifies this
      ensures year == old(src.year) && mon == old(src.mon) && mday == old(src.mday)
      ensures hour == old(src.hour) && min == old(src.min) && sec == old(src.sec)
      ensures wday == old(src.wday) && yday == old(src.yday)
    {
      year, mon, mday, hour, min, sec, wday, yday :=
        src.year, src.mon, src.mday, src.hour, src.min, src.sec, src.wday, src.yday;
    }
  }

  ghost predicate TimeOfDayValid(tm: Tm)
    reads tm
  {
    0 <= tm.hour < 24 && 0 <= tm.min < 60 && 0 <= tm.sec < 60
  }

  ghost predicate DateValid(tm: Tm)
    reads tm
  {
    ValidDate(tm.year + 1900, tm.mon + 1, tm.mday) && tm.year + 1900 >= -4799
  }

  /** The instant tm denotes, in seconds since the start of Julian day 0. */
  ghost function Seconds(tm: Tm): int
    reads tm
  {
    DateToJulian(tm.year + 1900, tm.mon + 1, tm.mday) * 86400
      + tm.hour * 3600 + tm.min * 60 + tm.sec
  }

  /** The first second of 1900 and the first second after 9999, the range
      OPENSSL_gmtime_adj accepts (Julian days 2415021..5373484, see
      Calendar.GmtimeYearRange). */
  const FirstSecond: int := 2415021 * 86400
  const EndSecond: int := 5373485 * 86400

  /** The month term of Zeller's congruence is, modulo 7, the day of the
      March year on which March month k starts, minus 4. */
  lemma ZellerMonthTerm(k: int) returns (t: int)
    requires 1 <= k <= 12
    ensures (13 * (k + 3)) / 5 + 4 == MonthStart(k) + 7 * t
  {
    MonthStartTable(k);
    t := ((13 * (k + 3)) / 5 + 4 - MonthStart(k)) / 7;
    if k == 1 {} else if k == 2 {} else if k == 3 {} else if k == 4 {}
    else if k == 5 {} else if k == 6 {} else if k == 7 {} else if k == 8 {}
    else if k == 9 {} else if k == 10 {} else if k == 11 {} else {}
  }

  /** The year terms of Zeller's congruence, for a year zy >= 0 split into
      400-year cycles q, centuries c and years r of March years. */
  lemma ZellerYearTerms(zy: int, q: int, c: int, r: int)
    requires zy + 4800 == 400 * q + 100 * c + r && 0 <= c <= 3 && 0 <= r <= 99
    ensures zy / 100 == 4 * (q - 12) + c && zy % 100 == r && (zy / 100) / 4 == q - 12
  {
    assert zy == 100 * (4 * (q - 12) + c) + r;
    DivBy100(r, 4 * (q - 12) + c);
    DivBy4(c, q - 12);
  }

  lemma ModSeven(x: int, t: int)
    ensures (x + 7 * t) % 7 == x % 7
  {
  }

  /**
   * Zeller's congruence as determine_days evaluates it (months numbered from
   * March as 4..15, January and February in the previous year) agrees with
   * the Julian day: (jd + 1) % 7 is the weekday, Sunday being 0.
   */
  lemma ZellerCongruence(y: int, m: int, d: int, zm: int, zy: int)
    requires y >= 1 && 1 <= m <= 12
    requires zm == (if m >= 3 then m + 1 else m + 13)
    requires zy == (if m >= 3 then y else y - 1)
    ensures (d + (13 * zm) / 5 + zy % 100 + (zy % 100) / 4 + (zy / 100) / 4 + 5 * (zy / 100) + 6) % 7
         == (DateToJulian(y, m, d) + 1) % 7
  {
    var Y := MarchYear(y, m);
    var k := MarchMonth(m);
    var q, c, r := Y / 400, (Y % 400) / 100, (Y % 400) % 100;
    SplitCenturies(Y, q, c, r);
    ZellerYearTerms(zy, q, c, r);
    Decompose(y, m, d);
    var t := ZellerMonthTerm(k);
    var jd := DateToJulian(y, m, d);
    assert jd == 146097 * q + 36524 * c + 365 * r + r / 4 + MonthStart(k) + d - 32045;
    var sum := d + (13 * zm) / 5 + r + r / 4 + (q - 12) + 5 * (4 * (q - 12) + c) + 6;
    assert sum == jd + 1 + 7 * (t - 20868 * q - 5217 * c - 52 * r + 4542);
    ModSeven(jd + 1, t - 20868 * q - 5217 * c - 52 * r + 4542);
  }

  /**
   * determine_days: fills in tm_yday and tm_wday from the date. The day of
   * the year is the distance from January 1 in Julian days; the weekday
   * is (jd + 1) % 7, for dates from year 1 on.
   */
  method DetermineDays(tm: Tm)
    requires 0 <= tm.mon <= 11
    modifies tm
    ensures tm.year == old(tm.year) && tm.mon == old(tm.mon) && tm.mday == old(tm.mday)
    ensures tm.hour == old(tm.hour) && tm.min == old(tm.min) && tm.sec == old(tm.sec)
    ensures tm.year + 1900 >= -4799 ==>
      tm.yday == DateToJulian(tm.year + 1900, tm.mon + 1, tm.mday)
               - DateToJulian(tm.year + 1900, 1, 1)
    ensures tm.year + 1900 >= 1 && tm.mday >= 1 ==>
      0 <= tm.wday < 7 && tm.wday == (DateToJulian(tm.year + 1900, tm.mon + 1, tm.mday) + 1) % 7
  {
    var y := tm.year + 1900;
    var m := tm.mon;
    var d := tm.mday;
    var yday := YearDays[m] + d - 1;
    if m >= 2 {
      yday := yday + LeapYear(y);
      m := m + 2;
    } else {
      m := m + 14;
      y := y - 1;
    }
    ghost var zy := y;
    var c := CDiv(y, 100);
    y := CMod(y, 100);
    var wday := CMod(d + CDiv(13 * m, 5) + y + CDiv(y, 4) + CDiv(c, 4) + 5 * c + 6, 7);
    DeterminedDays(tm.year + 1900, tm.mon, d, m, zy, c, y, yday, wday);
    tm.SetDays(yday, wday);
  }

  /** The day of the year and the weekday determine_days computes, read
      as distances between Julian days. */
  lemma DeterminedDays(y: int, mon: int, d: int, zm: int, zy: int, c: int, yr: int, yday: int, wday: int)
    requires 0 <= mon <= 11
    requires yday == YearDays[mon] + d - 1 + (if mon >= 2 then LeapYear(y) else 0)
    requires zm == (if mon >= 2 then mon + 2 else mon + 14)
    requires zy == (if mon >= 2 then y else y - 1)
    requires c == CDiv(zy, 100) && yr == CMod(zy, 100)
    requires wday == CMod(d + CDiv(13 * zm, 5) + yr + CDiv(yr, 4) + CDiv(c, 4) + 5 * c + 6, 7)
    ensures y >= -4799 ==> yday == DateToJulian(y, mon + 1, d) - DateToJulian(y, 1, 1)
    ensures y >= 1 && d >= 1 ==> 0 <= wday < 7 && wday == (DateToJulian(y, mon + 1, d) + 1) % 7
  {
    if y >= -4799 {
      JulianDayOfYear(y, mon + 1, d);
    }
    if y >= 1 && d >= 1 {
      ZellerWeekday(y, mon + 1, d, zm, c, yr, wday);
    }
  }

  /** The C evaluation of Zeller's congruence in determine_days, from year 1
      on, is the weekday of the Julian day. */
  lemma ZellerWeekday(y: int, m: int, d: int, zm: int, c: int, yr: int, w: int)
    requires y >= 1 && 1 <= m <= 12 && d >= 1
    requires zm == (if m >= 3 then m + 1 else m + 13)
    requires c == CDiv(if m >= 3 then y else y - 1, 100)
    requires yr == CMod(if m >= 3 then y else y - 1, 100)
    requires w == CMod(d + CDiv(13 * zm, 5) + yr + CDiv(yr, 4) + CDiv(c, 4) + 5 * c + 6, 7)
    ensures 0 <= w < 7 && w == (DateToJulian(y, m, d) + 1) % 7
  {
    var zy := if m >= 3 then y else y - 1;
    CDivNonNegative(zy, 100);
    CDivNonNegative(zy % 100, 4);
    CDivNonNegative(zy / 100, 4);
    ZellerCongruence(y, m, d, zm, zy);
  }

  /**
   * julian_adj: the instant of tm shifted by off_day days and offset_sec
   * seconds, as a Julian day and the seconds into it. It fails exactly when
   * the shifted instant falls before Julian day 0.
   */
  method JulianAdj(tm: Tm, offDay: int, offsetSec: int) returns (ok: bool, pday: int, psec: int)
    ensures ok ==> pday >= 0
    ensures ok ==> pday * 86400 + psec == Seconds(tm) + offDay * 86400 + offsetSec
    ensures TimeOfDayValid(tm) ==>
      (ok <==> Seconds(tm) + offDay * 86400 + offsetSec >= 0)
      && (ok ==> 0 <= psec < 86400)
  {
    var offsetDay := CDiv(offsetSec, 86400);
    var offsetHms := offsetSec - offsetDay * 86400;
    offsetDay := offsetDay + offDay;
    offsetHms := offsetHms + tm.hour * 3600 + tm.min * 60 + tm.sec;
    if offsetHms >= 86400 {
      offsetDay := offsetDay + 1;
      offsetHms := offsetHms - 86400;
    } else if offsetHms < 0 {
      offsetDay := offsetDay - 1;
      offsetHms := offsetHms + 86400;
    }
    var timeJd := DateToJulian(tm.year + 1900, tm.mon + 1, tm.mday);
    timeJd := timeJd + offsetDay;
    if timeJd < 0 {
      return false, 0, 0;
    }
    return true, timeJd, offsetHms;
  }

  /** Splitting seconds into hours, minutes and seconds with C's division
      loses nothing, whatever the sign. */
  lemma ClockSplit(s: int)
    ensures CDiv(s, 3600) * 3600 + CMod(CDiv(s, 60), 60) * 60 + CMod(s, 60) == s
    ensures 0 <= s < 86400 ==>
      0 <= CDiv(s, 3600) < 24 && 0 <= CMod(CDiv(s, 60), 60) < 60 && 0 <= CMod(s, 60) < 60
  {
    if s >= 0 {
      assert CDiv(CDiv(s, 60), 60) == CDiv(s, 3600);
    } else {
      assert CDiv(CDiv(s, 60), 60) == CDiv(s, 3600);
    }
  }

  lemma AcceptedSeconds(jd: int, s: int)
    requires 0 <= s < 86400
    ensures 2415021 <= jd <= 5373484 <==> FirstSecond <= jd * 86400 + s < EndSecond
  {
  }

  /**
   * OPENSSL_gmtime_adj: moves tm by off_day days and offset_sec seconds.
   * On success the new date is valid, lies in years 1900..9999 and denotes
   * the shifted instant; tm_wday and tm_yday are left as they were. On
   * failure tm is untouched. With a valid time of day, it succeeds exactly
   * when the shifted instant lies in years 1900..9999.
   */
  method GmtimeAdj(tm: Tm, offDay: int, offsetSec: int) returns (ok: bool)
    modifies tm
    ensures !ok ==> unchanged(tm)
    ensures ok ==> DateValid(tm) && 1900 <= tm.year + 1900 <= 9999
    ensures ok ==> Seconds(tm) == old(Seconds(tm)) + offDay * 86400 + offsetSec
    ensures ok ==> tm.wday == old(tm.wday) && tm.yday == old(tm.yday)
    ensures ok && old(TimeOfDayValid(tm)) ==> TimeOfDayValid(tm)
    ensures old(TimeOfDayValid(tm)) ==>
      (ok <==> FirstSecond <= old(Seconds(tm)) + offDay * 86400 + offsetSec < EndSecond)
  {
    ghost var target := Seconds(tm) + offDay * 86400 + offsetSec;
    ghost var todValid := TimeOfDayValid(tm);
    var adjusted, timeJd, timeSec := JulianAdj(tm, offDay, offsetSec);
    if !adjusted {
      return false;
    }
    var timeYear, timeMonth, timeDay := JulianToDate(timeJd);
    GmtimeYearRange(timeYear, timeMonth, timeDay);
    if todValid {
      AcceptedSeconds(timeJd, timeSec);
    }
    if timeYear < 1900 || timeYear > 9999 {
      return false;
    }
    var hour, min, sec := CDiv(timeSec, 3600), CMod(CDiv(timeSec, 60), 60), CMod(timeSec, 60);
    ClockSplit(timeSec);
    tm.SetDateTime(timeYear - 1900, timeMonth - 1, timeDay, hour, min, sec);
    SecondsOfFields(tm, timeYear, timeMonth, timeDay, timeSec);
    return true;
  }

  /** The instant of a tm whose date and clock fields are given. */
  lemma SecondsOfFields(tm: Tm, y: int, m: int, d: int, s: int)
    requires tm.year == y - 1900 && tm.mon == m - 1 && tm.mday == d
    requires tm.hour * 3600 + tm.min * 60 + tm.sec == s
    ensures tm.year + 1900 == y && tm.mon + 1 == m
    ensures Seconds(tm) == DateToJulian(y, m, d) * 86400 + s
  {
    assert tm.year + 1900 == y && tm.mon + 1 == m;
  }

  /**
   * OPENSSL_gmtime_diff: the distance from `from` to `to` as days and
   * seconds. With valid times of day it fails exactly when one of the two
   * lies before Julian day 0, and the two parts never have opposite signs
   * and the seconds stay within a day, so that they are the distance
   * divided by a day with C's truncating division (TruncatedSplit).
   */
  method GmtimeDiff(from: Tm, to: Tm) returns (ok: bool, pday: int, psec: int)
    ensures ok ==> pday * 86400 + psec == Seconds(to) - Seconds(from)
    ensures TimeOfDayValid(from) && TimeOfDayValid(to) ==>
      (ok <==> Seconds(from) >= 0 && Seconds(to) >= 0)
      && (ok ==> -86400 < psec < 86400 && !(pday > 0 && psec < 0) && !(pday < 0 && psec > 0))
  {
    var fromOk, fromJd, fromSec := JulianAdj(from, 0, 0);
    if !fromOk {
      return false, 0, 0;
    }
    var toOk, toJd, toSec := JulianAdj(to, 0, 0);
    if !toOk {
      return false, 0, 0;
    }
    var diffDay := toJd - fromJd;
    var diffSec := toSec - fromSec;
    if diffDay > 0 && diffSec < 0 {
      diffDay := diffDay - 1;
      diffSec := diffSec + 86400;
    }
    if diffDay < 0 && diffSec > 0 {
      diffDay := diffDay + 1;
      diffSec := diffSec - 86400;
    }
    return true, diffDay, diffSec;
  }

  /** A day count and a remainder of the same sign, smaller than a day, are
      C's quotient and remainder of the distance by a day. */
  lemma TruncatedSplit(t: int, day: int, sec: int)
    requires t == day * 86400 + sec && -86400 < sec < 86400
    requires !(day > 0 && sec < 0) && !(day < 0 && sec > 0)
    ensures CDiv(t, 86400) == day && CMod(t, 86400) == sec
  {
    if t >= 0 {
      assert day >= 0 && sec >= 0;
      DivBy86400(sec, day);
    } else {
      assert day <= 0 && sec <= 0;
      DivBy86400(-sec, -day);
    }
  }

  lemma DivBy86400(x: int, k: int)
    requires 0 <= x < 86400
    ensures (86400 * k + x) / 86400 == k
  {
  }
}
