/**
 * asn1_time_to_tm and ASN1_TIME_diff of the LibreSSL fallback in
 * src/md_crypt.c: reading an ASN.1 UTCTime or GeneralizedTime string into a
 * struct tm.
 *
 * The accepted strings are first described declaratively by Parse, a
 * reading of the string at fixed positions, and Encode, which writes a
 * broken-down time back out; ParseEncode and EncodeParse show that the two
 * are inverse on exactly the valid stamps. The cursor-driven parser of the
 * source, Asn1TimeToTm, is then proved to accept exactly what Parse accepts
 * and to produce the time Parse reads.
 */
module Asn1Time {
  import opened Base
  import opened Calendar
  import opened GmTime

  /** d->type of an ASN1_TIME. */
  datatype TimeType = UtcTime | GeneralizedTime | OtherType

  /** An ASN1_TIME: its type, whether ASN1_STRING_FLAG_X509_TIME is set
      (the strict reading of section 4.1.2.5 of RFC 5280), and its bytes. */
  datatype Asn1String = Asn1String(kind: TimeType, x509Time: bool, data: seq<char>)

  /** The time zone designator: "Z", or a local offset "+HHMM" / "-HHMM". */
  datatype Zone = Zulu | Offset(sign: char, hours: int, minutes: int)

  /** A time as written in the string: full year, month 1..12, day, hour,
      minute, the seconds if present, the digits of a fractional second and
      the zone. */
  datatype Stamp = Stamp(year: int, month: int, day: int, hour: int, minute: int,
                         second: Option<int>, fraction: seq<char>, zone: Zone)

  /** The min and max tables of asn1_time_to_tm, indexed by field: century,
      year, month, day, hour, minute, second, offset hours, offset minutes. */
  const FieldMin: seq<int> := [0, 0, 1, 1, 0, 0, 0, 0, 0]
  const FieldMax: seq<int> := [99, 99, 12, 31, 23, 59, 59, 12, 59]

  predicate IsDigit(c: char) {
    '0' <= c <= '9'
  }

  function DigitValue(c: char): int {
    c as int - '0' as int
  }

  predicate AllDigits(s: seq<char>) {
    forall p :: 0 <= p < |s| ==> IsDigit(s[p])
  }

  predicate IsZoneStart(c: char) {
    c == 'Z' || c == '+' || c == '-'
  }

  /** The two-digit number at position p. */
  function Pair(a: seq<char>, p: int): int
    requires 0 <= p && p + 1 < |a|
  {
    10 * DigitValue(a[p]) + DigitValue(a[p + 1])
  }

  /** Number of leading digits of s. */
  function DigitRun(s: seq<char>): (n: nat)
    ensures n <= |s| && AllDigits(s[..n])
    ensures n < |s| ==> !IsDigit(s[n])
  {
    if s == [] || !IsDigit(s[0]) then 0
    else
      var n := 1 + DigitRun(s[1..]);
      assert s[..n] == [s[0]] + s[1..][..n - 1];
      n
  }

  /** Where the seconds field starts: the fields before it are YYMMDDHHMM
      for UTCTime and YYYYMMDDHHMM for GeneralizedTime. */
  function SecondsPos(kind: TimeType): int {
    if kind == UtcTime then 10 else 12
  }

  /** The shortest string each mode accepts: the `min_l` of the source. */
  function MinLength(kind: TimeType, strict: bool): int {
    if kind == UtcTime then (if strict then 13 else 11)
    else (if strict then 15 else 13)
  }

  /** The full year the year digits stand for: UTCTime years 50..99 are
      19xx and 00..49 are 20xx. */
  function YearField(kind: TimeType, a: seq<char>): int
    requires |a| > 4
  {
    if kind == UtcTime then
      var n := Pair(a, 0);
      if n < 50 then 2000 + n else 1900 + n
    else 100 * Pair(a, 0) + Pair(a, 2)
  }

  /** The optional seconds at position h, and where the string goes on. */
  function SecondsField(strict: bool, a: seq<char>, h: int): Option<(Option<int>, int)>
    requires 0 <= h < |a|
  {
    if !strict && IsZoneStart(a[h]) then Some((None, h))
    else if h + 2 < |a| && IsDigit(a[h]) && IsDigit(a[h + 1]) && Pair(a, h) <= 59 then
      Some((Some(Pair(a, h)), h + 2))
    else None
  }

  /** The optional fractional second of a GeneralizedTime at position e:
      a point and at least one digit, with the zone still to follow. */
  function FractionField(kind: TimeType, strict: bool, a: seq<char>, e: int): Option<(seq<char>, int)>
    requires 0 <= e < |a|
  {
    if kind != GeneralizedTime || a[e] != '.' then Some(([], e))
    else if strict then None
    else
      var n := DigitRun(a[e + 1..]);
      if n == 0 || e + 1 + n == |a| then None
      else Some((a[e + 1..e + 1 + n], e + 1 + n))
  }

  /** The zone at position z, which must end the string. */
  function ZoneField(strict: bool, a: seq<char>, z: int): Option<Zone>
    requires 0 <= z < |a|
  {
    if a[z] == 'Z' then (if z + 1 == |a| then Some(Zulu) else None)
    else if !strict && (a[z] == '+' || a[z] == '-') && z + 5 == |a|
      && AllDigits(a[z + 1..]) && Pair(a, z + 1) <= 12 && Pair(a, z + 3) <= 59
    then Some(Offset(a[z], Pair(a, z + 1), Pair(a, z + 3)))
    else None
  }

  /** The date and time digits before the seconds: all digits, each field
      in its range and the day within its month. */
  predicate HeaderValid(kind: TimeType, a: seq<char>)
    requires kind != OtherType
  {
    var h := SecondsPos(kind);
    && |a| > h && AllDigits(a[..h])
    && 1 <= Pair(a, h - 8) <= 12 && 1 <= Pair(a, h - 6) <= DaysInMonth(YearField(kind, a), Pair(a, h - 8))
    && Pair(a, h - 4) <= 23 && Pair(a, h - 2) <= 59
  }

  /**
   * The reading of an ASN1_TIME the parser implements: the date and time
   * digits at fixed positions, each in its range and the day within the
   * month; then the seconds (which only the lenient mode may leave out),
   * a fractional second (GeneralizedTime, lenient mode only), and "Z" or,
   * in lenient mode, a four-digit offset, ending the string.
   */
  function Parse(d: Asn1String): Option<Stamp> {
    var a := d.data;
    var h := SecondsPos(d.kind);
    if d.kind == OtherType || !HeaderValid(d.kind, a) then None
    else
      var year := YearField(d.kind, a);
      var month := Pair(a, h - 8);
      var day := Pair(a, h - 6);
      var hour := Pair(a, h - 4);
      var minute := Pair(a, h - 2);
      match SecondsField(d.x509Time, a, h)
      case None => None
      case Some((second, e)) =>
        match FractionField(d.kind, d.x509Time, a, e)
        case None => None
        case Some((fraction, z)) =>
          match ZoneField(d.x509Time, a, z)
          case None => None
          case Some(zone) => Some(Stamp(year, month, day, hour, minute, second, fraction, zone))
  }

  /** The stamps a string of the given type and mode can spell. */
  predicate ValidStamp(kind: TimeType, strict: bool, s: Stamp) {
    && kind != OtherType
    && (if kind == UtcTime then 1950 <= s.year <= 2049 else 0 <= s.year <= 9999)
    && 1 <= s.month <= 12 && 1 <= s.day <= DaysInMonth(s.year, s.month)
    && 0 <= s.hour <= 23 && 0 <= s.minute <= 59
    && ValidTail(kind, strict, s)
  }

  /** The seconds, fraction and zone of a valid stamp. */
  predicate ValidTail(kind: TimeType, strict: bool, s: Stamp) {
    && (if s.second.Some? then 0 <= s.second.value <= 59 else !strict)
    && (s.fraction != [] ==>
          kind == GeneralizedTime && !strict && s.second.Some? && AllDigits(s.fraction))
    && (s.zone.Offset? ==>
          !strict && (s.zone.sign == '+' || s.zone.sign == '-')
          && 0 <= s.zone.hours <= 12 && 0 <= s.zone.minutes <= 59)
  }

  function Digits2(n: int): seq<char>
    requires 0 <= n <= 99
  {
    [(48 + n / 10) as char, (48 + n % 10) as char]
  }

  function EncodeZone(z: Zone): seq<char>
    requires z.Offset? ==> 0 <= z.hours <= 99 && 0 <= z.minutes <= 99
  {
    match z
    case Zulu => "Z"
    case Offset(sign, hh, mm) => [sign] + Digits2(hh) + Digits2(mm)
  }

  /** The date and time digits up to the minutes. */
  function EncodeHeader(kind: TimeType, year: int, month: int, day: int, hour: int, minute: int): seq<char>
    requires 0 <= year <= 9999 && 0 <= month <= 99 && 0 <= day <= 99 && 0 <= hour <= 99 && 0 <= minute <= 99
  {
    (if kind == UtcTime then Digits2(year % 100) else Digits2(year / 100) + Digits2(year % 100))
    + Digits2(month) + Digits2(day) + Digits2(hour) + Digits2(minute)
  }

  function EncodeSeconds(second: Option<int>): seq<char>
    requires second.Some? ==> 0 <= second.value <= 99
  {
    if second.Some? then Digits2(second.value) else []
  }

  function EncodeFraction(fraction: seq<char>): seq<char> {
    if fraction == [] then [] else ['.'] + fraction
  }

  /** Writes a stamp out as a string of the given type. */
  function Encode(kind: TimeType, s: Stamp): seq<char>
    requires ValidStamp(kind, false, s)
  {
    EncodeHeader(kind, s.year, s.month, s.day, s.hour, s.minute)
    + (EncodeSeconds(s.second) + (EncodeFraction(s.fraction) + EncodeZone(s.zone)))
  }

  /** The shift OPENSSL_gmtime_adj applies for the zone: "+HHMM" is ahead
      of UTC and is taken back, "-HHMM" is put forward. */
  function ZoneShift(z: Zone): int {
    match z
    case Zulu => 0
    case Offset(sign, hh, mm) => if sign == '-' then hh * 3600 + mm * 60 else -(hh * 3600 + mm * 60)
  }

  /** The instant a stamp denotes in UTC, in seconds since Julian day 0. */
  ghost function Instant(s: Stamp): int {
    DateToJulian(s.year, s.month, s.day) * 86400 + s.hour * 3600 + s.minute * 60
      + (if s.second.Some? then s.second.value else 0) + ZoneShift(s.zone)
  }

  /** Two characters spelling n read back as n. */
  lemma ReadDigits2(a: seq<char>, p: int, n: int)
    requires 0 <= n <= 99 && 0 <= p && p + 2 <= |a| && a[p..p + 2] == Digits2(n)
    ensures IsDigit(a[p]) && IsDigit(a[p + 1]) && Pair(a, p) == n
  {
    assert a[p] == a[p..p + 2][0] && a[p + 1] == a[p..p + 2][1];
  }

  /** Two digits are the spelling of the number they read as. */
  lemma WriteDigits2(a: seq<char>, p: int)
    requires 0 <= p && p + 2 <= |a| && IsDigit(a[p]) && IsDigit(a[p + 1])
    ensures 0 <= Pair(a, p) <= 99 && Digits2(Pair(a, p)) == a[p..p + 2]
  {
    var x, y := DigitValue(a[p]), DigitValue(a[p + 1]);
    assert (10 * x + y) / 10 == x && (10 * x + y) % 10 == y;
    assert (48 + x) as char == a[p] && (48 + y) as char == a[p + 1];
  }

  /** A run of digits followed by something else is exactly one digit run. */
  lemma {:induction false} DigitRunOf(f: seq<char>, rest: seq<char>)
    requires AllDigits(f) && rest != [] && !IsDigit(rest[0])
    ensures DigitRun(f + rest) == |f|
  {
    if f != [] {
      assert (f + rest)[1..] == f[1..] + rest;
      DigitRunOf(f[1..], rest);
    }
  }

  /** Reading the header of a string that starts with an encoded header. */
  lemma ReadHeader(kind: TimeType, a: seq<char>, year: int, month: int, day: int, hour: int, minute: int)
    requires kind != OtherType
    requires (if kind == UtcTime then 1950 <= year <= 2049 else 0 <= year <= 9999)
    requires 0 <= month <= 99 && 0 <= day <= 99 && 0 <= hour <= 99 && 0 <= minute <= 99
    requires |a| > SecondsPos(kind)
    requires a[..SecondsPos(kind)] == EncodeHeader(kind, year, month, day, hour, minute)
    ensures AllDigits(a[..SecondsPos(kind)]) && YearField(kind, a) == year
    ensures Pair(a, SecondsPos(kind) - 8) == month && Pair(a, SecondsPos(kind) - 6) == day
    ensures Pair(a, SecondsPos(kind) - 4) == hour && Pair(a, SecondsPos(kind) - 2) == minute
    ensures 1 <= month <= 12 && 1 <= day <= DaysInMonth(year, month) && hour <= 23 && minute <= 59 ==>
      HeaderValid(kind, a)
  {
    var h := SecondsPos(kind);
    var y := if kind == UtcTime then Digits2(year % 100) else Digits2(year / 100) + Digits2(year % 100);
    var rest := Digits2(month) + Digits2(day) + Digits2(hour) + Digits2(minute);
    assert a[..h] == y + rest;
    assert a[..h - 8] == y && a[h - 8..h] == rest by {
      assert a[..h - 8] == a[..h][..h - 8];
      assert a[h - 8..h] == a[..h][h - 8..];
    }
    ReadTime(a, h - 8, month, day, hour, minute);
    HeaderDigits(kind, year, month, day, hour, minute);
    if kind == UtcTime {
      ReadDigits2(a, 0, year % 100);
    } else {
      ReadDigits2(a, 0, year / 100);
      ReadDigits2(a, 2, year % 100);
    }
  }

  /** Reading month, day, hour and minute from their encoding at p. */
  lemma ReadTime(a: seq<char>, p: int, month: int, day: int, hour: int, minute: int)
    requires 0 <= month <= 99 && 0 <= day <= 99 && 0 <= hour <= 99 && 0 <= minute <= 99
    requires 0 <= p && p + 8 <= |a|
    requires a[p..p + 8] == Digits2(month) + Digits2(day) + Digits2(hour) + Digits2(minute)
    ensures Pair(a, p) == month && Pair(a, p + 2) == day && Pair(a, p + 4) == hour && Pair(a, p + 6) == minute
  {
    var b := a[p..p + 8];
    ReadDigits2(b, 0, month);
    ReadDigits2(b, 2, day);
    ReadDigits2(b, 4, hour);
    ReadDigits2(b, 6, minute);
  }

  lemma DigitsConcat(x: seq<char>, y: seq<char>)
    requires AllDigits(x) && AllDigits(y)
    ensures AllDigits(x + y)
  {
    forall p | 0 <= p < |x + y|
      ensures IsDigit((x + y)[p])
    {
      if p >= |x| {
        assert (x + y)[p] == y[p - |x|];
      }
    }
  }

  lemma HeaderDigits(kind: TimeType, year: int, month: int, day: int, hour: int, minute: int)
    requires 0 <= year <= 9999 && 0 <= month <= 99 && 0 <= day <= 99 && 0 <= hour <= 99 && 0 <= minute <= 99
    ensures AllDigits(EncodeHeader(kind, year, month, day, hour, minute))
  {
    var y := if kind == UtcTime then Digits2(year % 100) else Digits2(year / 100) + Digits2(year % 100);
    if kind != UtcTime {
      DigitsConcat(Digits2(year / 100), Digits2(year % 100));
    }
    DigitsConcat(y, Digits2(month));
    DigitsConcat(y + Digits2(month), Digits2(day));
    DigitsConcat(y + Digits2(month) + Digits2(day), Digits2(hour));
    DigitsConcat(y + Digits2(month) + Digits2(day) + Digits2(hour), Digits2(minute));
  }

  /** Four digit pairs at p are the encoding of the numbers they read as. */
  lemma WriteTime(a: seq<char>, p: int)
    requires 0 <= p && p + 8 <= |a| && forall q :: p <= q < p + 8 ==> IsDigit(a[q])
    ensures 0 <= Pair(a, p) <= 99 && 0 <= Pair(a, p + 2) <= 99
    ensures 0 <= Pair(a, p + 4) <= 99 && 0 <= Pair(a, p + 6) <= 99
    ensures Digits2(Pair(a, p)) + Digits2(Pair(a, p + 2)) + Digits2(Pair(a, p + 4)) + Digits2(Pair(a, p + 6))
            == a[p..p + 8]
  {
    WriteDigits2(a, p);
    WriteDigits2(a, p + 2);
    WriteDigits2(a, p + 4);
    WriteDigits2(a, p + 6);
    assert a[p..p + 8] == a[p..p + 2] + a[p + 2..p + 4] + a[p + 4..p + 6] + a[p + 6..p + 8];
  }

  /** The two year digits of a UTCTime are the encoding of its year. */
  lemma WriteUtcYear(a: seq<char>)
    requires |a| > 4 && IsDigit(a[0]) && IsDigit(a[1])
    ensures 1950 <= YearField(UtcTime, a) <= 2049
    ensures Digits2(YearField(UtcTime, a) % 100) == a[..2]
  {
    WriteDigits2(a, 0);
    var n := Pair(a, 0);
    DivBy100(n, if n < 50 then 20 else 19);
  }

  /** The four year digits of a GeneralizedTime are the encoding of its year. */
  lemma WriteFullYear(a: seq<char>)
    requires |a| > 4 && IsDigit(a[0]) && IsDigit(a[1]) && IsDigit(a[2]) && IsDigit(a[3])
    ensures 0 <= YearField(GeneralizedTime, a) <= 9999
    ensures Digits2(YearField(GeneralizedTime, a) / 100) + Digits2(YearField(GeneralizedTime, a) % 100) == a[..4]
  {
    WriteDigits2(a, 0);
    WriteDigits2(a, 2);
    DivBy100(Pair(a, 2), Pair(a, 0));
    assert a[..4] == a[0..2] + a[2..4];
  }

  /** Reading the header back from an encoded header. */
  lemma WriteHeader(kind: TimeType, a: seq<char>)
    requires kind != OtherType && |a| > SecondsPos(kind) && AllDigits(a[..SecondsPos(kind)])
    ensures if kind == UtcTime then 1950 <= YearField(kind, a) <= 2049 else 0 <= YearField(kind, a) <= 9999
    ensures 0 <= Pair(a, SecondsPos(kind) - 8) <= 99 && 0 <= Pair(a, SecondsPos(kind) - 6) <= 99
    ensures 0 <= Pair(a, SecondsPos(kind) - 4) <= 99 && 0 <= Pair(a, SecondsPos(kind) - 2) <= 99
    ensures EncodeHeader(kind, YearField(kind, a), Pair(a, SecondsPos(kind) - 8), Pair(a, SecondsPos(kind) - 6),
                         Pair(a, SecondsPos(kind) - 4), Pair(a, SecondsPos(kind) - 2))
            == a[..SecondsPos(kind)]
  {
    var h := SecondsPos(kind);
    assert forall q :: 0 <= q < h ==> IsDigit(a[q]) by {
      forall q | 0 <= q < h ensures IsDigit(a[q]) {
        assert a[q] == a[..h][q];
      }
    }
    var year := YearField(kind, a);
    if kind == UtcTime {
      WriteUtcYear(a);
    } else {
      WriteFullYear(a);
    }
    var y := if kind == UtcTime then Digits2(year % 100) else Digits2(year / 100) + Digits2(year % 100);
    assert y == a[..h - 8];
    WriteTime(a, h - 8);
    var m, d, hh, mm := Digits2(Pair(a, h - 8)), Digits2(Pair(a, h - 6)), Digits2(Pair(a, h - 4)), Digits2(Pair(a, h - 2));
    assert y + m + d + hh + mm == y + (m + d + hh + mm);
    assert a[..h] == a[..h - 8] + a[h - 8..h];
  }

  /** The zone written out reads back as the same zone. */
  lemma ReadZone(strict: bool, a: seq<char>, z: int, zone: Zone)
    requires zone.Offset? ==>
      !strict && (zone.sign == '+' || zone.sign == '-') && 0 <= zone.hours <= 12 && 0 <= zone.minutes <= 59
    requires 0 <= z <= |a| && a[z..] == EncodeZone(zone)
    ensures z < |a| && ZoneField(strict, a, z) == Some(zone)
  {
    if zone.Offset? {
      var b := a[z..];
      assert b == [zone.sign] + Digits2(zone.hours) + Digits2(zone.minutes);
      ReadDigits2(b, 1, zone.hours);
      ReadDigits2(b, 3, zone.minutes);
      assert a[z + 1..] == b[1..];
    }
  }

  /** A zone read from the string is the encoding of what was there. */
  lemma WriteZone(strict: bool, a: seq<char>, z: int)
    requires 0 <= z < |a| && ZoneField(strict, a, z).Some?
    ensures var zone := ZoneField(strict, a, z).value;
      && (zone.Offset? ==>
            !strict && (zone.sign == '+' || zone.sign == '-') && 0 <= zone.hours <= 12 && 0 <= zone.minutes <= 59)
      && EncodeZone(zone) == a[z..]
  {
    if a[z] != 'Z' {
      var b := a[z + 1..];
      assert IsDigit(b[0]) && IsDigit(b[1]) && IsDigit(b[2]) && IsDigit(b[3]);
      WriteDigits2(b, 0);
      WriteDigits2(b, 2);
      assert a[z..] == [a[z]] + b[0..2] + b[2..4];
    }
  }

  /** The seconds written out read back as the same seconds, whatever
      follows them that is not a digit. */
  lemma ReadSeconds(strict: bool, a: seq<char>, h: int, second: Option<int>, rest: seq<char>)
    requires second.Some? ==> 0 <= second.value <= 59
    requires rest != [] && !IsDigit(rest[0]) && (second.None? ==> !strict && IsZoneStart(rest[0]))
    requires 0 <= h <= |a| && a[h..] == EncodeSeconds(second) + rest
    ensures h < |a| && SecondsField(strict, a, h) == Some((second, h + |EncodeSeconds(second)|))
    ensures a[h + |EncodeSeconds(second)|..] == rest
  {
    var e := h + |EncodeSeconds(second)|;
    assert a[e..] == a[h..][e - h..];
    if second.Some? {
      assert a[h..h + 2] == a[h..][..2];
      ReadDigits2(a, h, second.value);
    } else {
      assert a[h] == rest[0];
    }
  }

  /** Seconds read from the string are the encoding of what was there. */
  lemma WriteSeconds(strict: bool, a: seq<char>, h: int)
    requires 0 <= h < |a| && SecondsField(strict, a, h).Some?
    ensures var (second, e) := SecondsField(strict, a, h).value;
      && h <= e < |a|
      && (if second.Some? then 0 <= second.value <= 59 else !strict && IsZoneStart(a[h]))
      && EncodeSeconds(second) == a[h..e]
  {
    if strict || !IsZoneStart(a[h]) {
      WriteDigits2(a, h);
    }
  }

  /** The fractional second written out reads back as the same digits,
      whatever follows it that is neither a digit nor a point. */
  lemma ReadFraction(kind: TimeType, strict: bool, a: seq<char>, e: int, fraction: seq<char>, rest: seq<char>)
    requires fraction != [] ==> kind == GeneralizedTime && !strict && AllDigits(fraction)
    requires rest != [] && !IsDigit(rest[0]) && rest[0] != '.'
    requires 0 <= e <= |a| && a[e..] == EncodeFraction(fraction) + rest
    ensures e < |a| && FractionField(kind, strict, a, e) == Some((fraction, e + |EncodeFraction(fraction)|))
    ensures a[e + |EncodeFraction(fraction)|..] == rest
  {
    if fraction == [] {
      assert a[e] == a[e..][0] == rest[0];
      assert a[e..] == rest;
    } else {
      ReadDigitsAfterPoint(a, e, fraction, rest);
    }
  }

  /** A point and a run of digits are read back as that run. */
  lemma ReadDigitsAfterPoint(a: seq<char>, e: int, fraction: seq<char>, rest: seq<char>)
    requires fraction != [] && AllDigits(fraction)
    requires rest != [] && !IsDigit(rest[0])
    requires 0 <= e <= |a| && a[e..] == ['.'] + fraction + rest
    ensures e + 1 + |fraction| < |a| && a[e] == '.'
    ensures DigitRun(a[e + 1..]) == |fraction| && a[e + 1..e + 1 + |fraction|] == fraction
    ensures a[e + 1 + |fraction|..] == rest
  {
    var n := |fraction|;
    var b := a[e..];
    assert b == ['.'] + (fraction + rest);
    SplitAt(b, ['.'], fraction + rest);
    assert a[e] == b[0] == '.';
    assert a[e + 1..] == b[1..];
    DigitRunOf(fraction, rest);
    SplitAt(a[e + 1..], fraction, rest);
    assert a[e + 1..e + 1 + n] == a[e + 1..][..n];
    assert a[e + 1 + n..] == a[e + 1..][n..];
  }

  /** A fractional second read from the string is the encoding of what was
      there. */
  lemma WriteFraction(kind: TimeType, strict: bool, a: seq<char>, e: int)
    requires 0 <= e < |a| && FractionField(kind, strict, a, e).Some?
    ensures var (fraction, z) := FractionField(kind, strict, a, e).value;
      && e <= z < |a|
      && (fraction != [] ==> kind == GeneralizedTime && !strict && AllDigits(fraction) && a[e] == '.')
      && EncodeFraction(fraction) == a[e..z]
  {
    if kind == GeneralizedTime && a[e] == '.' {
      var n := DigitRun(a[e + 1..]);
      assert a[e + 1..][..n] == a[e + 1..e + 1 + n];
      assert a[e..e + 1 + n] == [a[e]] + a[e + 1..e + 1 + n];
    }
  }

  /** Every valid stamp, written out, reads back as itself. */
  lemma ParseEncode(kind: TimeType, strict: bool, s: Stamp)
    requires ValidStamp(kind, strict, s)
    ensures Parse(Asn1String(kind, strict, Encode(kind, s))) == Some(s)
  {
    var e, z := EncodedParts(kind, strict, s);
    ParseIs(Asn1String(kind, strict, Encode(kind, s)), s, e, z);
  }

  /** Each part of an encoded stamp reads back as the part it encodes. */
  lemma EncodedParts(kind: TimeType, strict: bool, s: Stamp) returns (e: int, z: int)
    requires ValidStamp(kind, strict, s)
    ensures var a, h := Encode(kind, s), SecondsPos(kind);
      && HeaderValid(kind, a) && YearField(kind, a) == s.year
      && Pair(a, h - 8) == s.month && Pair(a, h - 6) == s.day
      && Pair(a, h - 4) == s.hour && Pair(a, h - 2) == s.minute
      && SecondsField(strict, a, h) == Some((s.second, e))
      && 0 <= e < |a| && FractionField(kind, strict, a, e) == Some((s.fraction, z))
      && 0 <= z < |a| && ZoneField(strict, a, z) == Some(s.zone)
  {
    var a := Encode(kind, s);
    var h := SecondsPos(kind);
    var header := EncodeHeader(kind, s.year, s.month, s.day, s.hour, s.minute);
    var tail := EncodeSeconds(s.second) + (EncodeFraction(s.fraction) + EncodeZone(s.zone));
    SplitAt(a, header, tail);
    ReadHeader(kind, a, s.year, s.month, s.day, s.hour, s.minute);
    e, z := ReadTail(kind, strict, s, a, h);
  }

  /** The seconds, fraction and zone written from h on read back. */
  lemma ReadTail(kind: TimeType, strict: bool, s: Stamp, a: seq<char>, h: int) returns (e: int, z: int)
    requires ValidTail(kind, strict, s)
    requires 0 <= h <= |a| && a[h..] == EncodeSeconds(s.second) + (EncodeFraction(s.fraction) + EncodeZone(s.zone))
    ensures SecondsField(strict, a, h) == Some((s.second, e))
      && 0 <= e < |a| && FractionField(kind, strict, a, e) == Some((s.fraction, z))
      && 0 <= z < |a| && ZoneField(strict, a, z) == Some(s.zone)
  {
    ZoneStart(s.zone);
    e := h + |EncodeSeconds(s.second)|;
    ReadSeconds(strict, a, h, s.second, EncodeFraction(s.fraction) + EncodeZone(s.zone));
    z := ReadFractionZone(kind, strict, s, a, e);
  }

  /** The fraction and zone written from e on read back. */
  lemma ReadFractionZone(kind: TimeType, strict: bool, s: Stamp, a: seq<char>, e: int) returns (z: int)
    requires ValidTail(kind, strict, s)
    requires 0 <= e <= |a| && a[e..] == EncodeFraction(s.fraction) + EncodeZone(s.zone)
    ensures 0 <= e < |a| && FractionField(kind, strict, a, e) == Some((s.fraction, z))
      && 0 <= z < |a| && ZoneField(strict, a, z) == Some(s.zone)
  {
    ZoneStart(s.zone);
    z := e + |EncodeFraction(s.fraction)|;
    ReadFraction(kind, strict, a, e, s.fraction, EncodeZone(s.zone));
    ReadZone(strict, a, z, s.zone);
  }

  /** Every string Parse accepts is the encoding of the valid stamp it
      reads: Parse accepts nothing but encodings. */
  lemma EncodeParse(d: Asn1String)
    requires Parse(d).Some?
    ensures ValidStamp(d.kind, d.x509Time, Parse(d).value)
    ensures Encode(d.kind, Parse(d).value) == d.data
  {
    var a := d.data;
    var h := SecondsPos(d.kind);
    var s := Parse(d).value;
    var e, z := ParsedParts(d);
    WriteHeader(d.kind, a);
    WriteSeconds(d.x509Time, a, h);
    WriteFraction(d.kind, d.x509Time, a, e);
    WriteZone(d.x509Time, a, z);
    assert ValidStamp(d.kind, d.x509Time, s);
    var header := EncodeHeader(d.kind, s.year, s.month, s.day, s.hour, s.minute);
    assert header == a[..h];
    assert EncodeSeconds(s.second) == a[h..e] && EncodeFraction(s.fraction) == a[e..z];
    assert EncodeZone(s.zone) == a[z..];
    Rejoin(a, h, e, z);
    assert Encode(d.kind, s) == a[..h] + (a[h..e] + (a[e..z] + a[z..]));
  }

  /** The positions at which Parse found the seconds, the fraction and the
      zone of an accepted string. */
  lemma ParsedParts(d: Asn1String) returns (e: int, z: int)
    requires Parse(d).Some?
    ensures d.kind != OtherType && |d.data| > SecondsPos(d.kind) && AllDigits(d.data[..SecondsPos(d.kind)])
    ensures var a, h := d.data, SecondsPos(d.kind);
      var s := Parse(d).value;
      && s.year == YearField(d.kind, a)
      && s.month == Pair(a, h - 8) && s.day == Pair(a, h - 6)
      && s.hour == Pair(a, h - 4) && s.minute == Pair(a, h - 2)
      && 1 <= s.month <= 12 && 1 <= s.day <= DaysInMonth(s.year, s.month) && s.hour <= 23 && s.minute <= 59
      && SecondsField(d.x509Time, a, h) == Some((s.second, e))
      && 0 <= e < |a| && FractionField(d.kind, d.x509Time, a, e) == Some((s.fraction, z))
      && 0 <= z < |a| && ZoneField(d.x509Time, a, z) == Some(s.zone)
  {
    var a, h := d.data, SecondsPos(d.kind);
    e := SecondsField(d.x509Time, a, h).value.1;
    z := FractionField(d.kind, d.x509Time, a, e).value.1;
  }


  /** The first character of a zone designator. */
  lemma ZoneStart(z: Zone)
    requires z.Offset? ==> (z.sign == '+' || z.sign == '-') && 0 <= z.hours <= 99 && 0 <= z.minutes <= 99
    ensures EncodeZone(z) != [] && IsZoneStart(EncodeZone(z)[0]) && !IsDigit(EncodeZone(z)[0])
  {
  }

  lemma Rejoin(a: seq<char>, h: int, e: int, z: int)
    requires 0 <= h <= e <= z <= |a|
    ensures a == a[..h] + (a[h..e] + (a[e..z] + a[z..]))
  {
  }

  lemma SplitAt(a: seq<char>, x: seq<char>, y: seq<char>)
    requires a == x + y
    ensures a[..|x|] == x && a[|x|..] == y
  {
  }

  /** Parse accepts a string whose parts read as the parts of s. */
  lemma ParseIs(d: Asn1String, s: Stamp, e: int, z: int)
    requires d.kind != OtherType
    requires HeaderValid(d.kind, d.data) && YearField(d.kind, d.data) == s.year
    requires Pair(d.data, SecondsPos(d.kind) - 8) == s.month && Pair(d.data, SecondsPos(d.kind) - 6) == s.day
    requires Pair(d.data, SecondsPos(d.kind) - 4) == s.hour && Pair(d.data, SecondsPos(d.kind) - 2) == s.minute
    requires SecondsField(d.x509Time, d.data, SecondsPos(d.kind)) == Some((s.second, e))
    requires 0 <= e < |d.data| && FractionField(d.kind, d.x509Time, d.data, e) == Some((s.fraction, z))
    requires 0 <= z < |d.data| && ZoneField(d.x509Time, d.data, z) == Some(s.zone)
    ensures Parse(d) == Some(s)
  {
  }

  /** No string shorter than the `min_l` of its type and mode is accepted,
      so the length check of the parser rejects nothing Parse accepts. */
  lemma AcceptedLength(d: Asn1String)
    requires Parse(d).Some?
    ensures |d.data| >= MinLength(d.kind, d.x509Time)
  {
    var e, z := ParsedParts(d);
  }

  /** A digit run that stops at a non-digit or at the end is the digit run. */
  lemma {:induction false} DigitRunIs(s: seq<char>, n: int)
    requires 0 <= n <= |s| && (forall p :: 0 <= p < n ==> IsDigit(s[p]))
    requires n < |s| ==> !IsDigit(s[n])
    ensures DigitRun(s) == n
  {
    if n > 0 {
      DigitRunIs(s[1..], n - 1);
    }
  }

  /** The day of the year and the weekday determine_days stores for the
      date y-m-d. */
  ghost predicate DaysOf(yday: int, wday: int, y: int, m: int, d: int) {
    && yday == DateToJulian(y, m, d) - DateToJulian(y, 1, 1)
    && (y >= 1 ==> wday == (DateToJulian(y, m, d) + 1) % 7)
  }

  /**
   * DaysOf(yday, wday, y, m, d), stated for every date equal to y-m-d so
   * that the verifier unfolds the Julian day arithmetic only where a day of
   * the year or a weekday is asked for, not in every step of the parser.
   */
  ghost predicate DaysRecorded(yday: int, wday: int, y: int, m: int, d: int) {
    forall y', m', d' {:trigger DaysOf(yday, wday, y', m', d')} ::
      y' == y && m' == m && d' == d ==> DaysOf(yday, wday, y', m', d')
  }

  /**
   * What asn1_time_to_tm leaves in tm for the stamp s: a valid date and
   * time of day at the instant s denotes. Without an offset the fields are
   * those of the string; with one they come from OPENSSL_gmtime_adj and lie
   * in years 1900..9999. tm_yday and tm_wday are those of the date as
   * written, before any offset.
   */
  ghost predicate Holds(tm: Tm, s: Stamp)
    reads tm
  {
    HoldsFor(tm.year, tm.mon, tm.mday, tm.hour, tm.min, tm.sec, tm.wday, tm.yday, s)
  }

  /** Holds, on the values of the eight fields of a Tm. */
  ghost predicate HoldsFor(year: int, mon: int, mday: int, hour: int, min: int, sec: int,
                           wday: int, yday: int, s: Stamp)
  {
    && ValidDate(year + 1900, mon + 1, mday) && year + 1900 >= -4799
    && 0 <= hour < 24 && 0 <= min < 60 && 0 <= sec < 60
    && DateToJulian(year + 1900, mon + 1, mday) * 86400 + hour * 3600 + min * 60 + sec == Instant(s)
    && (ZoneShift(s.zone) == 0 ==>
          && year + 1900 == s.year && mon + 1 == s.month && mday == s.day
          && hour == s.hour && min == s.minute
          && sec == (if s.second.Some? then s.second.value else 0))
    && (ZoneShift(s.zone) != 0 ==> 1900 <= year + 1900 <= 9999)
    && DaysOf(yday, wday, s.year, s.month, s.day)
  }

  /** The index into the min and max tables of the first field: UTCTime
      has no century digits. */
  function FirstField(kind: TimeType): int {
    if kind == UtcTime then 1 else 0
  }

  /** Where the field with table index j starts. */
  function FieldPos(kind: TimeType, j: int): int {
    if kind == UtcTime then 2 * j - 2 else 2 * j
  }

  /** Field j before the seconds is two digits within the min and max
      tables, and a day lies within its month. */
  predicate FieldOk(kind: TimeType, a: seq<char>, j: int)
    requires kind != OtherType && FirstField(kind) <= j <= 5 && |a| > SecondsPos(kind)
  {
    var p := FieldPos(kind, j);
    && IsDigit(a[p]) && IsDigit(a[p + 1]) && FieldMin[j] <= Pair(a, p) <= FieldMax[j]
    && (j == 3 ==> 1 <= Pair(a, p - 2) <= 12 && Pair(a, p) <= DaysInMonth(YearField(kind, a), Pair(a, p - 2)))
  }

  /** The header is valid exactly when each of its fields is. */
  lemma HeaderFields(kind: TimeType, a: seq<char>)
    requires kind != OtherType && |a| > SecondsPos(kind)
    ensures HeaderValid(kind, a) <==> forall j :: FirstField(kind) <= j <= 5 ==> FieldOk(kind, a, j)
  {
    if forall j :: FirstField(kind) <= j <= 5 ==> FieldOk(kind, a, j) {
      HeaderOfFields(kind, a);
    }
    if HeaderValid(kind, a) {
      FieldsOfHeader(kind, a);
    }
  }

  lemma FieldsOfHeader(kind: TimeType, a: seq<char>)
    requires kind != OtherType && |a| > SecondsPos(kind) && HeaderValid(kind, a)
    ensures forall j :: FirstField(kind) <= j <= 5 ==> FieldOk(kind, a, j)
  {
    forall j | FirstField(kind) <= j <= 5
      ensures FieldOk(kind, a, j)
    {
      var h, p := SecondsPos(kind), FieldPos(kind, j);
      assert a[p] == a[..h][p] && a[p + 1] == a[..h][p + 1];
    }
  }

  lemma HeaderOfFields(kind: TimeType, a: seq<char>)
    requires kind != OtherType && |a| > SecondsPos(kind)
    requires forall j :: FirstField(kind) <= j <= 5 ==> FieldOk(kind, a, j)
    ensures HeaderValid(kind, a)
  {
    DigitsOfFields(kind, a);
    assert FieldOk(kind, a, 2) && FieldOk(kind, a, 3);
    assert FieldOk(kind, a, 4) && FieldOk(kind, a, 5);
  }

  lemma DigitsOfFields(kind: TimeType, a: seq<char>)
    requires kind != OtherType && |a| > SecondsPos(kind)
    requires forall j :: FirstField(kind) <= j <= 5 ==> FieldOk(kind, a, j)
    ensures AllDigits(a[..SecondsPos(kind)])
  {
    var h := SecondsPos(kind);
    forall p | 0 <= p < h
      ensures IsDigit(a[..h][p])
    {
      var j := p / 2 + FirstField(kind);
      assert p == FieldPos(kind, j) || p == FieldPos(kind, j) + 1;
      assert FieldOk(kind, a, j);
    }
  }

  /**
   * Case 3 of the field switch (src/md_crypt.c:407-419): a day beyond the
   * length of the month already in tmp is refused; otherwise it is stored
   * and determine_days fills in the day of the year and the weekday.
   */
  method SetDay(tmp: Tm, n: int) returns (ok: bool)
    requires 0 <= tmp.mon <= 11
    modifies tmp
    ensures ok <==> n <= DaysInMonth(old(tmp.year) + 1900, old(tmp.mon) + 1)
    ensures !ok ==> unchanged(tmp)
    ensures ok ==> tmp.year == old(tmp.year) && tmp.mon == old(tmp.mon) && tmp.mday == n
    ensures ok ==> tmp.hour == old(tmp.hour) && tmp.min == old(tmp.min) && tmp.sec == old(tmp.sec)
    ensures ok && 1 <= n && tmp.year + 1900 >= -4799 ==>
      DaysRecorded(tmp.yday, tmp.wday, tmp.year + 1900, tmp.mon + 1, n)
  {
    var md;
    if tmp.mon == 1 {
      md := MonthDays[1] + LeapYear(tmp.year + 1900);
    } else {
      md := MonthDays[tmp.mon];
    }
    if n > md {
      return false;
    }
    tmp.mday := n;
    DetermineDays(tmp);
    return true;
  }

  /**
   * Reading one two-digit field at o (src/md_crypt.c:375-387): both
   * characters must be digits and the string must go on after them.
   */
  method ScanPair(a: seq<char>, o0: int) returns (ok: bool, n: int, o: int)
    requires 0 <= o0 < |a|
    ensures ok <==> o0 + 2 < |a| && IsDigit(a[o0]) && IsDigit(a[o0 + 1])
    ensures ok ==> n == Pair(a, o0) && o == o0 + 2
  {
    o := o0;
    if !IsDigit(a[o]) {
      return false, 0, o;
    }
    n := DigitValue(a[o]);
    o := o + 1;
    if o == |a| {
      return false, n, o;
    }
    if !IsDigit(a[o]) {
      return false, n, o;
    }
    n := n * 10 + DigitValue(a[o]);
    o := o + 1;
    if o == |a| {
      return false, n, o;
    }
    return true, n, o;
  }

  /**
   * What the field loop has put into tmp once the header fields before
   * table index k are read: the fields read so far are valid and hold what
   * Parse reads there, and the day of the year and the weekday are those
   * of the date once the day is known.
   */
  ghost predicate Stored(tmp: Tm, kind: TimeType, a: seq<char>, k: int)
    requires kind != OtherType && |a| > SecondsPos(kind)
    reads tmp
  {
    var h := SecondsPos(kind);
    var year, month, day := YearField(kind, a), Pair(a, h - 8), Pair(a, h - 6);
    && (k >= 2 ==> tmp.year == year - 1900 && year >= 0)
    && (k == 1 && kind != UtcTime ==> tmp.year == 100 * Pair(a, 0) - 1900 && Pair(a, 0) >= 0)
    && (k > 2 ==> tmp.mon == month - 1 && 1 <= month <= 12)
    && (k > 3 ==> tmp.mday == day && DaysRecorded(tmp.yday, tmp.wday, year, month, day))
    && (k > 4 ==> tmp.hour == Pair(a, h - 4))
    && (k > 5 ==> tmp.min == Pair(a, h - 2))
  }

  /**
   * The range check and the switch of the field loop
   * (src/md_crypt.c:389-429): the two digits n read for table index k are
   * checked against the min and max tables, and against the month for a
   * day, and stored in the field of tmp they belong to.
   */
  method StoreField(tmp: Tm, kind: TimeType, a: seq<char>, k: int, n: int) returns (ok: bool)
    requires kind != OtherType && |a| > SecondsPos(kind) && FirstField(kind) <= k <= 6
    requires FieldPos(kind, k) + 2 < |a| && IsDigit(a[FieldPos(kind, k)]) && IsDigit(a[FieldPos(kind, k) + 1])
    requires n == Pair(a, FieldPos(kind, k)) && Stored(tmp, kind, a, k)
    modifies tmp
    ensures ok <==> if k <= 5 then FieldOk(kind, a, k) else n <= 59
    ensures ok ==> Stored(tmp, kind, a, k + 1) && tmp.sec == (if k == 6 then n else old(tmp.sec))
  {
    if n < FieldMin[k] || n > FieldMax[k] {
      return false;
    }
    if k == 0 {
      tmp.year := n * 100 - 1900;
    } else if k == 1 {
      if kind == UtcTime {
        tmp.year := if n < 50 then n + 100 else n;
      } else {
        tmp.year := tmp.year + n;
      }
    } else if k == 2 {
      tmp.mon := n - 1;
    } else if k == 3 {
      ok := SetDay(tmp, n);
      if !ok {
        return false;
      }
    } else if k == 4 {
      tmp.hour := n;
    } else if k == 5 {
      tmp.min := n;
    } else if k == 6 {
      tmp.sec := n;
    }
    return true;
  }

  /**
   * One pass of the field loop past the early exit
   * (src/md_crypt.c:375-429): reads the two digits at o and stores them
   * as the field with table index k. It succeeds exactly when that field
   * is valid, and for the seconds when they can be read.
   */
  method ScanField(tmp: Tm, kind: TimeType, strict: bool, a: seq<char>, k: int, o0: int) returns (ok: bool, o: int)
    requires kind != OtherType && |a| > SecondsPos(kind) && FirstField(kind) <= k <= 6
    requires o0 == FieldPos(kind, k) && Stored(tmp, kind, a, k)
    requires k == 6 ==> strict || !IsZoneStart(a[o0])
    modifies tmp
    ensures ok <==> if k <= 5 then FieldOk(kind, a, k) else SecondsField(strict, a, SecondsPos(kind)).Some?
    ensures ok ==> o == o0 + 2 && o < |a| && Stored(tmp, kind, a, k + 1)
    ensures ok ==> tmp.sec == (if k == 6 then Pair(a, o0) else old(tmp.sec))
  {
    var n;
    ok, n, o := ScanPair(a, o0);
    if !ok {
      return false, o;
    }
    ok := StoreField(tmp, kind, a, k, n);
  }

  /**
   * The field loop of asn1_time_to_tm (src/md_crypt.c:370-430): reads the
   * two-digit fields from the year to the seconds into tmp. In lenient
   * mode a zone designator where the seconds would be ends the loop early.
   * It succeeds exactly when the header is valid and the seconds can be
   * read, and o is then where the string goes on.
   */
  method ScanFields(tmp: Tm, d: Asn1String, strict: bool, end: int, btz: int) returns (ok: bool, o: int)
    requires d.kind != OtherType && strict == d.x509Time
    requires end == (if d.kind == UtcTime then 6 else 7) && btz == end - 1
    requires |d.data| >= MinLength(d.kind, strict) && tmp.sec == 0
    modifies tmp
    ensures ok <==>
      && (forall j :: FirstField(d.kind) <= j <= 5 ==> FieldOk(d.kind, d.data, j))
      && SecondsField(strict, d.data, SecondsPos(d.kind)).Some?
    ensures ok ==>
      var (second, e) := SecondsField(strict, d.data, SecondsPos(d.kind)).value;
      && o == e && Stored(tmp, d.kind, d.data, 6)
      && tmp.sec == (if second.Some? then second.value else 0)
  {
    var a, l := d.data, |d.data|;
    // The index into the min and max tables of the field read next.
    ghost var k := FirstField(d.kind);
    o := 0;
    var i := 0;
    while i < end
      invariant 0 <= i <= end && k == i + 7 - end && o == 2 * i && o == FieldPos(d.kind, k) && o < l
      invariant Stored(tmp, d.kind, a, k)
      invariant forall j :: FirstField(d.kind) <= j < k && j <= 5 ==> FieldOk(d.kind, a, j)
      invariant k > 6 ==> SecondsField(strict, a, SecondsPos(d.kind)) == Some((Some(tmp.sec), o))
      invariant k <= 6 ==> tmp.sec == 0
    {
      if !strict && i == btz && IsZoneStart(a[o]) {
        i := i + 1;
        break;
      }
      var i2 := if d.kind == UtcTime then i + 1 else i;
      ok, o := ScanField(tmp, d.kind, strict, a, i2, o);
      if !ok {
        return false, o;
      }
      i := i + 1;
      k := k + 1;
    }
    return true, o;
  }

  /**
   * The optional fractional second (src/md_crypt.c:436-452): in a
   * GeneralizedTime a point at o must be followed by at least one digit and
   * then by more of the string, and the strict mode of RFC 5280 refuses it.
   * It succeeds exactly when FractionField reads something at o, and
   * returns where the fraction ends.
   */
  method ScanFraction(d: Asn1String, strict: bool, o0: int) returns (ok: bool, o: int)
    requires strict == d.x509Time && 0 <= o0 < |d.data|
    ensures ok <==> FractionField(d.kind, strict, d.data, o0).Some?
    ensures ok ==> o == FractionField(d.kind, strict, d.data, o0).value.1
  {
    var a, l := d.data, |d.data|;
    o := o0;
    if d.kind == GeneralizedTime && a[o] == '.' {
      if strict {
        return false, o;
      }
      o := o + 1;
      if o == l {
        return false, o;
      }
      var i := o;
      while o < l && IsDigit(a[o])
        invariant i <= o <= l && forall p :: i <= p < o ==> IsDigit(a[p])
      {
        o := o + 1;
      }
      DigitRunIs(a[i..], o - i);
      if i == o {
        return false, o;
      }
      if o == l {
        return false, o;
      }
    }
    return true, o;
  }

  /** A stretch of digits is a slice of digits. */
  lemma SliceDigits(a: seq<char>, i: int, j: int)
    requires 0 <= i <= j <= |a| && forall p :: i <= p < j ==> IsDigit(a[p])
    ensures AllDigits(a[i..j])
  {
    assert forall p :: 0 <= p < j - i ==> a[i..j][p] == a[i + p];
  }

  /** The shift the zone at z asks for when tm is to be filled; with no tm
      the offset is not computed and nothing is shifted. */
  function ShiftFor(fill: bool, zone: Zone): int {
    if fill then ZoneShift(zone) else 0
  }

  /**
   * The zone designator (src/md_crypt.c:458-498): "Z", or in lenient mode
   * a sign and four digits within the offset ranges of the min and max
   * tables, which OPENSSL_gmtime_adj then applies to tmp when tm is given.
   * When ZoneField reads a zone at z, o reaches the end of the string and
   * the step fails only if the shifted time leaves years 1900..9999;
   * otherwise the step fails or stops short of the end.
   */
  method ScanZone(tm: Tm?, tmp: Tm, d: Asn1String, strict: bool, end: int, z: int) returns (ok: bool, o: int)
    requires strict == d.x509Time && end == (if d.kind == UtcTime then 6 else 7)
    requires 0 <= z < |d.data| && TimeOfDayValid(tmp)
    modifies tmp
    ensures ZoneField(strict, d.data, z).None? ==> !ok || o != |d.data|
    ensures ZoneField(strict, d.data, z).Some? ==>
      var shift := ShiftFor(tm != null, ZoneField(strict, d.data, z).value);
      && (ok <==> shift == 0 || FirstSecond <= old(Seconds(tmp)) + shift < EndSecond)
      && (ok ==> o == |d.data|)
      && (ok && shift == 0 ==> unchanged(tmp))
      && (ok && shift != 0 ==>
            && DateValid(tmp) && 1900 <= tmp.year + 1900 <= 9999 && TimeOfDayValid(tmp)
            && Seconds(tmp) == old(Seconds(tmp)) + shift
            && tmp.wday == old(tmp.wday) && tmp.yday == old(tmp.yday))
  {
    var a, l := d.data, |d.data|;
    o := z;
    if a[o] == 'Z' {
      o := o + 1;
    } else if !strict && (a[o] == '+' || a[o] == '-') {
      var offsign := if a[o] == '-' then 1 else -1;
      var offset := 0;
      o := o + 1;
      if o + 4 != l {
        return false, o;
      }
      ghost var hh, mm := Pair(a, z + 1), Pair(a, z + 3);
      var i := end;
      while i < end + 2
        invariant end <= i <= end + 2 && o == z + 1 + 2 * (i - end)
        invariant forall p :: z < p < o ==> IsDigit(a[p])
        invariant i > end ==> hh <= 12
        invariant i > end + 1 ==> mm <= 59
        invariant offset == (if tm == null || i == end then 0 else if i == end + 1 then hh * 3600 else hh * 3600 + mm * 60)
      {
        if !IsDigit(a[o]) {
          assert a[z + 1..][o - z - 1] == a[o];
          return false, o;
        }
        var n := DigitValue(a[o]);
        o := o + 1;
        if !IsDigit(a[o]) {
          assert a[z + 1..][o - z - 1] == a[o];
          return false, o;
        }
        n := n * 10 + DigitValue(a[o]);
        var i2 := if d.kind == UtcTime then i + 1 else i;
        if n < FieldMin[i2] || n > FieldMax[i2] {
          return false, o;
        }
        if tm != null {
          if i == end {
            offset := n * 3600;
          } else if i == end + 1 {
            offset := offset + n * 60;
          }
        }
        o := o + 1;
        i := i + 1;
      }
      SliceDigits(a, z + 1, l);
      assert ZoneField(strict, a, z) == Some(Offset(a[z], hh, mm));
      assert offset * offsign == ShiftFor(tm != null, ZoneField(strict, a, z).value);
      if offset != 0 {
        ok := GmtimeAdj(tmp, 0, offset * offsign);
        if !ok {
          return false, o;
        }
      }
    } else {
      return false, o;
    }
    return true, o;
  }

  /** Once the header, the seconds ending at e and the fraction ending at
      z are read, Parse accepts d exactly when the zone at z can be read,
      and reads those parts. */
  lemma ParseAt(d: Asn1String, e: int, z: int) returns (s: Stamp)
    requires d.kind != OtherType && HeaderValid(d.kind, d.data)
    requires SecondsField(d.x509Time, d.data, SecondsPos(d.kind)).Some?
    requires e == SecondsField(d.x509Time, d.data, SecondsPos(d.kind)).value.1 && 0 <= e < |d.data|
    requires FractionField(d.kind, d.x509Time, d.data, e).Some?
    requires z == FractionField(d.kind, d.x509Time, d.data, e).value.1 && 0 <= z < |d.data|
    ensures var a, h := d.data, SecondsPos(d.kind);
      && s.year == YearField(d.kind, a) && s.month == Pair(a, h - 8) && s.day == Pair(a, h - 6)
      && s.hour == Pair(a, h - 4) && s.minute == Pair(a, h - 2)
      && s.second == SecondsField(d.x509Time, a, h).value.0
      && (s.second.Some? ==> 0 <= s.second.value <= 59)
    ensures ZoneField(d.x509Time, d.data, z).Some? ==> s.zone == ZoneField(d.x509Time, d.data, z).value
    ensures Parse(d) == if ZoneField(d.x509Time, d.data, z).Some? then Some(s) else None
  {
    var a, h := d.data, SecondsPos(d.kind);
    var zone := if ZoneField(d.x509Time, a, z).Some? then ZoneField(d.x509Time, a, z).value else Zulu;
    s := Stamp(YearField(d.kind, a), Pair(a, h - 8), Pair(a, h - 6), Pair(a, h - 4), Pair(a, h - 2),
               SecondsField(d.x509Time, a, h).value.0, FractionField(d.kind, d.x509Time, a, e).value.0, zone);
  }

  /** The fields the field loop stored denote the instant of the stamp,
      less its zone shift. */
  lemma StoredTime(tmp: Tm, d: Asn1String, s: Stamp)
    requires d.kind != OtherType && HeaderValid(d.kind, d.data) && Stored(tmp, d.kind, d.data, 6)
    requires var a, h := d.data, SecondsPos(d.kind);
      && s.year == YearField(d.kind, a) && s.month == Pair(a, h - 8) && s.day == Pair(a, h - 6)
      && s.hour == Pair(a, h - 4) && s.minute == Pair(a, h - 2)
    requires s.second.Some? ==> 0 <= s.second.value <= 59
    requires tmp.sec == (if s.second.Some? then s.second.value else 0)
    ensures DateValid(tmp) && TimeOfDayValid(tmp)
    ensures Seconds(tmp) + ZoneShift(s.zone) == Instant(s)
    ensures DaysOf(tmp.yday, tmp.wday, s.year, s.month, s.day)
    ensures ZoneShift(s.zone) == 0 ==> Holds(tmp, s)
  {
  }

  /** A shifted time that stays in years 1900..9999 holds the stamp. */
  lemma HoldsShifted(tmp: Tm, s: Stamp)
    requires DateValid(tmp) && TimeOfDayValid(tmp) && 1900 <= tmp.year + 1900 <= 9999
    requires Seconds(tmp) == Instant(s) && ZoneShift(s.zone) != 0
    requires DaysOf(tmp.yday, tmp.wday, s.year, s.month, s.day)
    ensures Holds(tmp, s)
  {
  }

  /**
   * asn1_time_to_tm (src/md_crypt.c:322-507): reads d into tm, when tm is
   * not null. It succeeds exactly when Parse accepts d and, if tm is given
   * and the string carries a non-zero offset, OPENSSL_gmtime_adj can apply
   * it (the shifted instant lies in years 1900..9999). tm is written only
   * on success, and then holds the parsed time.
   */
  method Asn1TimeToTm(tm: Tm?, d: Asn1String) returns (ok: bool)
    modifies tm
    ensures Parse(d).None? ==> !ok
    ensures Parse(d).Some? ==>
      (ok <==> tm == null || ZoneShift(Parse(d).value.zone) == 0
               || FirstSecond <= Instant(Parse(d).value) < EndSecond)
    ensures tm != null && !ok ==> unchanged(tm)
    ensures tm != null && ok ==> Holds(tm, Parse(d).value)
  {
    var minLength := 11;
    var strict := false;
    var end := 6;
    var btz := 5;
    if d.kind == UtcTime {
      if d.x509Time {
        minLength := 13;
        strict := true;
      }
    } else if d.kind == GeneralizedTime {
      end := 7;
      btz := 6;
      if d.x509Time {
        minLength := 15;
        strict := true;
      } else {
        minLength := 13;
      }
    } else {
      return false;
    }
    var a, l := d.data, |d.data|;
    var tmp := new Tm();
    if l < minLength {
      if Parse(d).Some? {
        AcceptedLength(d);
      }
      return false;
    }
    var o;
    ok, o := ScanFields(tmp, d, strict, end, btz);
    HeaderFields(d.kind, a);
    if !ok {
      return false;
    }
    ghost var e := o;
    ok, o := ScanFraction(d, strict, o);
    if !ok {
      return false;
    }
    ghost var z := o;
    ghost var s := ParseAt(d, e, z);
    StoredTime(tmp, d, s);
    ok, o := ScanZone(tm, tmp, d, strict, end, o);
    if !ok {
      return false;
    }
    if o == l {
      if tm != null {
        if ZoneShift(s.zone) == 0 {
          StoredTime(tmp, d, s);
        } else {
          HoldsShifted(tmp, s);
        }
        tm.CopyFrom(tmp);
      }
      return true;
    }
    return false;
  }

  /** asn1_time_to_tm succeeds on d when tm is given: d parses and its
      offset, if any, can be applied. */
  ghost predicate Convertible(d: Asn1String) {
    && Parse(d).Some?
    && (ZoneShift(Parse(d).value.zone) == 0
        || FirstSecond <= Instant(Parse(d).value) < EndSecond)
  }

  /** A valid stamp without an offset lies after Julian day 0: its year is
      not negative. */
  lemma InstantNonNegative(kind: TimeType, strict: bool, s: Stamp)
    requires ValidStamp(kind, strict, s) && ZoneShift(s.zone) == 0
    ensures Instant(s) >= 0
  {
    FromYear(s.year, s.month, s.day, 0);
    assert DateToJulian(0, 1, 1) == 1721060;
  }

  /** The instant tm holds after a successful conversion of d. */
  lemma ConvertedInstant(tm: Tm, d: Asn1String)
    requires Convertible(d) && Holds(tm, Parse(d).value)
    ensures TimeOfDayValid(tm) && Seconds(tm) == Instant(Parse(d).value) >= 0
  {
    var s := Parse(d).value;
    assert TimeOfDayValid(tm) && Seconds(tm) == Instant(s);
    if ZoneShift(s.zone) == 0 {
      assert ValidStamp(d.kind, d.x509Time, s) by {
        EncodeParse(d);
      }
      InstantNonNegative(d.kind, d.x509Time, s);
    }
  }

  /**
   * ASN1_TIME_diff (src/md_crypt.c:524-534): converts both strings and
   * takes the distance between the two times with OPENSSL_gmtime_diff. It
   * succeeds exactly when both conversions do, and then the days and
   * seconds make up the distance between the two instants, with the
   * seconds inside a day and of the sign of the days.
   */
  method Asn1TimeDiff(from: Asn1String, to: Asn1String) returns (ok: bool, pday: int, psec: int)
    ensures ok <==> Convertible(from) && Convertible(to)
    ensures ok ==> pday * 86400 + psec == Instant(Parse(to).value) - Instant(Parse(from).value)
    ensures ok ==> -86400 < psec < 86400 && !(pday > 0 && psec < 0) && !(pday < 0 && psec > 0)
  {
    var tmFrom := new Tm();
    ok := Asn1TimeToTm(tmFrom, from);
    if !ok {
      return false, 0, 0;
    }
    var tmTo := new Tm();
    ok := Asn1TimeToTm(tmTo, to);
    if !ok {
      return false, 0, 0;
    }
    ConvertedInstant(tmFrom, from);
    ConvertedInstant(tmTo, to);
    ok, pday, psec := GmtimeDiff(tmFrom, tmTo);
  }
}
