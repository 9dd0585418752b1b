/**
 The instants that time stamps denote, by closed formulas of the numbers they spell: which texts
 are stamps, how many nanoseconds each counts from the epoch, and which one is canonical.
 */
module Instants {
  import opened Wrappers
  import opened Calendar
  import opened JsonText
  import JsonLiterals
  import opened Timestamps

  // ----- Dates -----

  const MONTHS := [31, 28, 31, 30, 31, 30, 31, 31, 30, 31, 30, 31]

  const BEFORE := [0, 31, 59, 90, 120, 151, 181, 212, 243, 273, 304, 334]

  /** Every fourth year, but of the centuries only every fourth. */
  predicate HasLeapDay(year: int) {
    (year % 4 == 0 && year % 100 != 0) || year % 400 == 0
  }

  /** Days of a month that is on the table, with the leap day. */
  function DaysIn(year: int, month: int): int
    requires 1 <= month <= 12
  {
    MONTHS[month - 1] + if month == 2 && HasLeapDay(year) then 1 else 0
  }

  /** Days from 1970-01-01, by the years, the leap years and the months before. */
  function DaysTo(year: int, month: int, day: int): int
    requires 1 <= month <= 12
  {
    365 * (year - 1970) + (year - 1) / 4 - (year - 1) / 100 + (year - 1) / 400 - 477
    + BEFORE[month - 1] + (if month > 2 && HasLeapDay(year) then 1 else 0) + day - 1
  }

  lemma Quotients(y: int)
    ensures y / 4 - (y - 1) / 4 == if y % 4 == 0 then 1 else 0
    ensures y / 100 - (y - 1) / 100 == if y % 100 == 0 then 1 else 0
    ensures y / 400 - (y - 1) / 400 == if y % 400 == 0 then 1 else 0
  {
  }

  lemma Multiples(q: int)
    ensures 400 * q % 100 == 0 && 100 * q % 4 == 0
  {
  }

  lemma Divisible(y: int)
    ensures y % 400 == 0 ==> y % 100 == 0
    ensures y % 100 == 0 ==> y % 4 == 0
  {
    var a, b := y / 400, y / 100;
    assert y % 400 == 0 ==> y == 400 * a;
    assert y % 100 == 0 ==> y == 100 * b;
    Multiples(a);
    Multiples(b);
  }

  lemma LeapYears(y: int)
    ensures var f := (z: int) => 365 * (z - 1970) + (z - 1) / 4 - (z - 1) / 100 + (z - 1) / 400 - 477;
            f(y + 1) - f(y) == YearDays(y)
  {
    Quotients(y);
    Divisible(y);
  }

  lemma {:induction false} YearsCounted(year: int)
    ensures YearStart(year) == 365 * (year - 1970) + (year - 1) / 4 - (year - 1) / 100 + (year - 1) / 400 - 477
    decreases if year < 1970 then 1970 - year else year - 1970
  {
    if year > 1970 {
      YearsCounted(year - 1);
      LeapYears(year - 1);
    } else if year < 1970 {
      YearsCounted(year + 1);
      LeapYears(year);
    }
    hide YearDays;
  }

  lemma MonthsCounted(year: int)
    ensures forall month :: 1 <= month <= 12 ==>
              MonthStart(year, month) == BEFORE[month - 1] + if month > 2 && HasLeapDay(year) then 1 else 0
    ensures forall month :: 1 <= month <= 12 ==> MonthLength(year, month) == DaysIn(year, month)
  {
    Divisible(year);
    assert Leap(year) <==> HasLeapDay(year);
    assert MonthStart(year, 1) == 0 && MonthStart(year, 2) == 31;
    assert MonthStart(year, 3) == MonthStart(year, 2) + MonthLength(year, 2);
    assert MonthStart(year, 4) == MonthStart(year, 3) + 31;
    assert MonthStart(year, 5) == MonthStart(year, 4) + 30;
    assert MonthStart(year, 6) == MonthStart(year, 5) + 31;
    assert MonthStart(year, 7) == MonthStart(year, 6) + 30;
    assert MonthStart(year, 8) == MonthStart(year, 7) + 31;
    assert MonthStart(year, 9) == MonthStart(year, 8) + 31;
    assert MonthStart(year, 10) == MonthStart(year, 9) + 30;
    assert MonthStart(year, 11) == MonthStart(year, 10) + 31;
    assert MonthStart(year, 12) == MonthStart(year, 11) + 30;
    hide MonthStart, Leap, HasLeapDay;
  }

  /** The day number is the closed formula. */
  lemma DaysCounted(d: Date)
    requires 1 <= d.month <= 12
    ensures DayNumber(d) == DaysTo(d.year, d.month, d.day)
    ensures ValidDate(d) <==> 1 <= d.day <= DaysIn(d.year, d.month)
  {
    YearsCounted(d.year);
    MonthsCounted(d.year);
    hide YearStart, MonthStart, MonthLength, HasLeapDay;
  }

  // ----- Texts -----

  const DIGITS := "0123456789"

  /** What a zone says: universal time, or local time ahead of it or behind it. */
  datatype Shift = Utc | Ahead(hours: int, minutes: int) | Behind(hours: int, minutes: int)

  /** The numbers of a time stamp, local date and time, with the digits of its fraction and its zone. */
  datatype Parts = Parts(
    year: int, month: int, day: int, hour: int, minute: int, second: int, fraction: string, zone: Shift)

  predicate IsZone(z: Shift) {
    z.Utc? || (0 <= z.hours <= 23 && 0 <= z.minutes <= 59)
  }

  /** Years 1 to 9999, days of the month, no leap second, at most nine digits of a fraction. */
  predicate IsParts(p: Parts) {
    && 1 <= p.year <= 9999 && 1 <= p.month <= 12 && 1 <= p.day <= DaysIn(p.year, p.month)
    && 0 <= p.hour <= 23 && 0 <= p.minute <= 59 && 0 <= p.second <= 59
    && |p.fraction| <= 9 && (forall c :: c in p.fraction ==> c in DIGITS) && IsZone(p.zone)
  }

  function D2(n: int): string
    requires 0 <= n <= 99
  {
    [DIGITS[n / 10], DIGITS[n % 10]]
  }

  function SpellZone(z: Shift): string
    requires IsZone(z)
  {
    match z
    case Utc => "Z"
    case Ahead(h, m) => "+" + D2(h) + ":" + D2(m)
    case Behind(h, m) => "-" + D2(h) + ":" + D2(m)
  }

  function SpellTail(fraction: string, z: Shift): string
    requires IsZone(z)
  {
    (if fraction == "" then "" else "." + fraction) + SpellZone(z)
  }

  function Spell(p: Parts): string
    requires IsParts(p)
  {
    D2(p.year / 100) + D2(p.year % 100) + "-" + D2(p.month) + "-" + D2(p.day) + "T"
    + D2(p.hour) + ":" + D2(p.minute) + ":" + D2(p.second) + SpellTail(p.fraction, p.zone)
  }

  /** Minutes to take from the local time. */
  function Offset(z: Shift): int {
    match z
    case Utc => 0
    case Ahead(h, m) => 60 * h + m
    case Behind(h, m) => -60 * h - m
  }

  /** Seconds from the epoch, in UTC. */
  function Seconds(p: Parts): int
    requires 1 <= p.month <= 12
  {
    ((DaysTo(p.year, p.month, p.day) * 24 + p.hour) * 60 + p.minute - Offset(p.zone)) * 60 + p.second
  }

  // ----- Every such text is read -----

  lemma Digit10(c: char)
    ensures c in DIGITS <==> IsDigit(c)
    ensures IsDigit(c) ==> c == DIGITS[Digit(c)]
  {
    assert DIGITS[0] == '0' && DIGITS[1] == '1' && DIGITS[2] == '2' && DIGITS[3] == '3' && DIGITS[4] == '4';
    assert DIGITS[5] == '5' && DIGITS[6] == '6' && DIGITS[7] == '7' && DIGITS[8] == '8' && DIGITS[9] == '9';
  }

  lemma DigitsOnly(s: string)
    ensures (forall c :: c in s ==> c in DIGITS) <==> AreDigits(s)
  {
    forall c
      ensures c in DIGITS <==> IsDigit(c)
    {
      Digit10(c);
    }
  }

  lemma TwoDigits(n: int)
    requires 0 <= n <= 99
    ensures D2(n) == Two(n) && IsDigit(D2(n)[0]) && IsDigit(D2(n)[1])
  {
    Digit10(DigitChar(n / 10));
    Digit10(DigitChar(n % 10));
  }

  lemma Pieces(
      a: string, b: string, c: string, d: string, e: string, f: string, g: string, rest: string)
    requires |a| == |b| == |c| == |d| == |e| == |f| == |g| == 2
    ensures a + b + "-" + c + "-" + d + "T" + e + ":" + f + ":" + g + rest == Join(a, b, c, d, e, f, g) + rest
  {
    assert a == [a[0], a[1]] && b == [b[0], b[1]] && c == [c[0], c[1]] && d == [d[0], d[1]];
    assert e == [e[0], e[1]] && f == [f[0], f[1]] && g == [g[0], g[1]];
  }

  lemma SpellJoins(p: Parts)
    requires IsParts(p)
    ensures Spell(p) ==
            Join(Two(p.year / 100), Two(p.year % 100), Two(p.month), Two(p.day),
                 Two(p.hour), Two(p.minute), Two(p.second)) + SpellTail(p.fraction, p.zone)
  {
    TwoDigits(p.year / 100);
    TwoDigits(p.year % 100);
    TwoDigits(p.month);
    TwoDigits(p.day);
    TwoDigits(p.hour);
    TwoDigits(p.minute);
    TwoDigits(p.second);
    hide D2, Two, Join, SpellTail;
    Pieces(Two(p.year / 100), Two(p.year % 100), Two(p.month), Two(p.day), Two(p.hour), Two(p.minute), Two(p.second),
           SpellTail(p.fraction, p.zone));
  }

  lemma ZoneReads(z: Shift)
    requires IsZone(z)
    ensures Timestamps.Zone(SpellZone(z)) == Some(Offset(z)) && !IsDigit(SpellZone(z)[0])
  {
    if !z.Utc? {
      TwoDigits(z.hours);
      TwoDigits(z.minutes);
      var s := SpellZone(z);
      PairReads(z.hours, s, 1);
      PairReads(z.minutes, s, 4);
      hide Two, Pair, D2;
    }
  }

  lemma TailReads(fraction: string, z: Shift)
    requires IsZone(z) && |fraction| <= 9 && AreDigits(fraction)
    ensures Fraction(SpellTail(fraction, z)) == Some((fraction, SpellZone(z)))
  {
    ZoneReads(z);
    if fraction == "" {
      assert SpellTail(fraction, z) == SpellZone(z);
      assert SpellZone(z)[0] != '.';
    } else {
      FractionReads(fraction, SpellZone(z));
      assert SpellTail(fraction, z) == ['.'] + (fraction + SpellZone(z));
    }
  }

  lemma HeadReads(p: Parts)
    requires IsParts(p)
    ensures var s := Spell(p);
            && |s| >= 19 && s[19..] == SpellTail(p.fraction, p.zone)
            && s[4] == '-' && s[7] == '-' && s[10] == 'T' && s[13] == ':' && s[16] == ':'
            && Pair(s, 0) == Some(p.year / 100) && Pair(s, 2) == Some(p.year % 100)
            && Pair(s, 5) == Some(p.month) && Pair(s, 8) == Some(p.day)
            && Pair(s, 11) == Some(p.hour) && Pair(s, 14) == Some(p.minute) && Pair(s, 17) == Some(p.second)
  {
    SpellJoins(p);
    hide Join, Two, Spell, SpellTail, DaysIn, Pair;
    var s := Spell(p);
    JoinReads(Two(p.year / 100), Two(p.year % 100), Two(p.month), Two(p.day), Two(p.hour), Two(p.minute),
              Two(p.second), SpellTail(p.fraction, p.zone));
    Timestamps.PairReads(p.year / 100, s, 0);
    Timestamps.PairReads(p.year % 100, s, 2);
    Timestamps.PairReads(p.month, s, 5);
    Timestamps.PairReads(p.day, s, 8);
    Timestamps.PairReads(p.hour, s, 11);
    Timestamps.PairReads(p.minute, s, 14);
    Timestamps.PairReads(p.second, s, 17);
  }

  /** A text that spells the parts of a stamp is read as these parts. */
  lemma SpelledReads(p: Parts)
    requires IsParts(p)
    ensures ReadStamp(Spell(p)) ==
            Some(Reading(Date(p.year, p.month, p.day), 3600 * p.hour + 60 * p.minute + p.second,
                         p.fraction, Offset(p.zone)))
  {
    hide Spell, SpellTail, Pair, DaysIn, Fraction, Timestamps.Zone, SpellZone, Offset, ValidDate, AreDigits;
    HeadReads(p);
    DigitsOnly(p.fraction);
    TailReads(p.fraction, p.zone);
    ZoneReads(p.zone);
    DaysCounted(Date(p.year, p.month, p.day));
  }

  // ----- Nothing else is read -----

  lemma PairSpelled(s: string, i: nat)
    requires Pair(s, i).Some?
    ensures i + 2 <= |s| && s[i] == Two(Pair(s, i).value)[0] && s[i + 1] == Two(Pair(s, i).value)[1]
  {
    Digit10(s[i]);
    Digit10(s[i + 1]);
  }

  lemma ZoneSpelled(z: string) returns (r: Shift)
    requires Timestamps.Zone(z).Some?
    ensures IsZone(r) && z == SpellZone(r)
  {
    if |z| == 1 {
      r := Utc;
    } else {
      PairSpelled(z, 1);
      PairSpelled(z, 4);
      var h, m := Pair(z, 1).value, Pair(z, 4).value;
      TwoDigits(h);
      TwoDigits(m);
      r := if z[0] == '+' then Ahead(h, m) else Behind(h, m);
      hide Pair, Two, D2;
    }
  }

  lemma Regroup(a: string, b: string, c: string)
    ensures (a + b) + c == a + (b + c)
  {
  }

  lemma TailSpelled(tail: string) returns (z: Shift)
    requires Fraction(tail).Some? && Timestamps.Zone(Fraction(tail).value.1).Some?
    ensures IsZone(z) && tail == SpellTail(Fraction(tail).value.0, z)
  {
    var f := Fraction(tail).value;
    z := ZoneSpelled(f.1);
    hide Timestamps.Zone, SpellZone;
    if StartsWith(tail, '.') {
      var n := CountDigits(tail[1..]);
      assert tail[1..1 + n] + tail[1 + n..] == tail[1..];
      assert tail == "." + tail[1..];
      Regroup(".", f.0, f.1);
    }
  }

  /** Whatever is read as a stamp spells its parts. */
  lemma ReadSpelled(s: string) returns (p: Parts)
    requires ReadStamp(s).Some?
    ensures IsParts(p) && s == Spell(p)
  {
    var r := ReadStamp(s).value;
    var z := TailSpelled(s[19..]);
    var hour, minute, second := Pair(s, 11).value, Pair(s, 14).value, Pair(s, 17).value;
    p := Parts(r.date.year, r.date.month, r.date.day, hour, minute, second, r.fraction, z);
    DaysCounted(r.date);
    DigitsOnly(r.fraction);
    assert IsParts(p);
    HeadSpelled(s, p);
  }

  lemma HeadSpelled(s: string, p: Parts)
    requires HasHead(s) && IsParts(p) && s[19..] == SpellTail(p.fraction, p.zone)
    requires HeadDate(s) == Date(p.year, p.month, p.day)
    requires Pair(s, 11).value == p.hour && Pair(s, 14).value == p.minute && Pair(s, 17).value == p.second
    ensures s == Spell(p)
  {
    hide Pair, Two, Spell, SpellTail, DaysIn;
    SpellJoins(p);
    PairSpelled(s, 0);
    PairSpelled(s, 2);
    PairSpelled(s, 5);
    PairSpelled(s, 8);
    PairSpelled(s, 11);
    PairSpelled(s, 14);
    PairSpelled(s, 17);
    assert s == s[..19] + s[19..];
    assert s[..19] ==
           Join(Two(p.year / 100), Two(p.year % 100), Two(p.month), Two(p.day),
                Two(p.hour), Two(p.minute), Two(p.second));
  }

  // ----- Instants -----

  /** Nanoseconds from the epoch. */
  function Nanos(p: Parts): int
    requires IsParts(p)
  {
    DigitsOnly(p.fraction);
    Seconds(p) * 1_000_000_000 + DigitsValue(p.fraction) * JsonLiterals.Pow10(9 - |p.fraction|)
  }

  lemma {:induction false} PadCounts(fraction: string)
    requires AreDigits(fraction) && |fraction| <= 9
    ensures DigitsValue(Pad(fraction)) == DigitsValue(fraction) * JsonLiterals.Pow10(9 - |fraction|)
    decreases 9 - |fraction|
  {
    if |fraction| < 9 {
      var longer := fraction + ['0'];
      PadCounts(longer);
      assert longer[..|longer| - 1] == fraction && DigitsValue(longer) == 10 * DigitsValue(fraction);
      var k := 8 - |fraction|;
      assert JsonLiterals.Pow10(k + 1) == 10 * JsonLiterals.Pow10(k);
      Factor(DigitsValue(fraction), JsonLiterals.Pow10(k));
    }
  }

  lemma Factor(a: int, b: int)
    ensures 10 * a * b == a * (10 * b)
  {
  }

  lemma FractionBelow(fraction: string)
    requires AreDigits(fraction) && |fraction| <= 9
    ensures 0 <= DigitsValue(Pad(fraction)) < 1_000_000_000
  {
    DigitsDiffer(Pad(fraction), Pad(fraction));
    Billion();
    hide Pad, DigitsValue, JsonLiterals.Pow10;
  }

  /** A stamp counts the nanoseconds of its parts: the zone is taken off, the fraction is filled up. */
  lemma StampCounts(p: Parts)
    requires IsParts(p)
    ensures ReadStamp(Spell(p)).Some? && Instant(ReadStamp(Spell(p)).value) == Seconds(p)
    ensures Nanoseconds(Spell(p)) == Some(Nanos(p))
  {
    hide Spell, ReadStamp, DaysTo, DigitsValue, Pad, JsonLiterals.Pow10, DaysIn, AreDigits, Offset;
    hide DayNumber, ValidDate;
    SpelledReads(p);
    DigitsOnly(p.fraction);
    PadCounts(p.fraction);
    var d := Date(p.year, p.month, p.day);
    DaysCounted(d);
    SecondsCounted(DayNumber(d), p.hour, p.minute, p.second, Offset(p.zone));
  }

  lemma SecondsCounted(days: int, hour: int, minute: int, second: int, offset: int)
    ensures days * DAY_SECONDS + (3600 * hour + 60 * minute + second) - 60 * offset ==
            ((days * 24 + hour) * 60 + minute - offset) * 60 + second
  {
  }

  predicate Trimmed(fraction: string) {
    fraction == "" || fraction[|fraction| - 1] != '0'
  }

  /** A canonical text: in universal time, without zeros at the end of the fraction. */
  predicate IsCanonical(q: Parts) {
    IsParts(q) && q.zone == Utc && Trimmed(q.fraction)
  }

  /** The second of the day, and the day, of a canonical text. */
  lemma DayOf(q: Parts)
    requires IsParts(q) && q.zone == Utc
    ensures var t, n := Seconds(q), 3600 * q.hour + 60 * q.minute + q.second;
            && t / DAY_SECONDS == DaysTo(q.year, q.month, q.day) && t % DAY_SECONDS == n
            && DateOf(t / DAY_SECONDS) == Date(q.year, q.month, q.day)
            && n / 3600 == q.hour && n / 60 % 60 == q.minute && n % 60 == q.second
  {
    var d := Date(q.year, q.month, q.day);
    DaysCounted(d);
    DateOfDay(d);
    hide DaysTo, DayNumber, DateOf, DaysIn, ValidDate;
    var days, n := DaysTo(q.year, q.month, q.day), 3600 * q.hour + 60 * q.minute + q.second;
    assert Seconds(q) == days * DAY_SECONDS + n;
    ClockSplits(q.hour, q.minute, q.second);
    WholeDay(days, n);
  }

  lemma WholeDay(days: int, n: int)
    requires 0 <= n < DAY_SECONDS
    ensures (days * DAY_SECONDS + n) / DAY_SECONDS == days && (days * DAY_SECONDS + n) % DAY_SECONDS == n
  {
  }

  lemma ClockSplits(hour: int, minute: int, second: int)
    requires 0 <= hour <= 23 && 0 <= minute <= 59 && 0 <= second <= 59
    ensures var n := 3600 * hour + 60 * minute + second;
            n / 3600 == hour && n / 60 % 60 == minute && n % 60 == second && 0 <= n < DAY_SECONDS
  {
    assert (3600 * hour + 60 * minute + second) / 60 == 60 * hour + minute;
  }

  /** Parts in universal time are written as the head and the tail of the second they name. */
  lemma SpellWritten(q: Parts, t: int)
    requires IsParts(q) && q.zone == Utc && DateOf(t / DAY_SECONDS) == Date(q.year, q.month, q.day)
    requires var n := t % DAY_SECONDS; n / 3600 == q.hour && n / 60 % 60 == q.minute && n % 60 == q.second
    ensures 1 <= YearAt(t) <= 9999 && Spell(q) == Head(t) + Tail(q.fraction)
  {
    hide DateOf, DaysIn, Join, Two, Spell;
    SpellJoins(q);
    assert Tail(q.fraction) == SpellTail(q.fraction, Utc);
    hide SpellTail, Tail;
  }

  /** A canonical text is what its instant is written as. */
  lemma CanonicalWritten(q: Parts)
    requires IsCanonical(q)
    ensures 1 <= YearAt(Seconds(q)) <= 9999 && Spell(q) == Head(Seconds(q)) + Tail(q.fraction)
  {
    hide DateOf, DaysTo, DaysIn, Seconds, Head, Tail, Spell, YearAt;
    DayOf(q);
    SpellWritten(q, Seconds(q));
  }

  lemma {:induction false} TrimmedKept(fraction: string)
    requires Trimmed(fraction)
    ensures Trim(fraction) == fraction
  {
  }

  lemma CanonicalKept(q: Parts)
    requires IsCanonical(q)
    ensures Stamp(Spell(q)) == Some(Spell(q))
  {
    StampCounts(q);
    CanonicalWritten(q);
    SpelledReads(q);
    TrimmedKept(q.fraction);
    hide Spell, ReadStamp, Instant, Seconds, Head, Tail, YearAt, Trim;
  }

  /** The parts of the canonical form. */
  lemma CanonicalParts(s: string) returns (q: Parts)
    requires Stamp(s).Some?
    ensures IsCanonical(q) && Stamp(s) == Some(Spell(q))
  {
    hide ReadStamp, Instant, DateOf, DaysIn, Head, Tail, Spell, Trim;
    var r := ReadStamp(s).value;
    var t := Instant(r);
    var d, n := DateOf(t / DAY_SECONDS), t % DAY_SECONDS;
    DaysCounted(d);
    SecondsSplit(n);
    TrimKeeps(r.fraction);
    DigitsOnly(Trim(r.fraction));
    q := Parts(d.year, d.month, d.day, n / 3600, n / 60 % 60, n % 60, Trim(r.fraction), Utc);
    assert IsCanonical(q);
    SpellWritten(q, t);
  }

  /**
   A text has a canonical form exactly when it spells the parts of a stamp whose instant, in universal time, falls
   into the years 1 to 9999; it is then the canonical text of that instant.
   */
  lemma StampExactly(s: string, c: string)
    ensures Stamp(s) == Some(c) <==>
            exists p, q :: IsParts(p) && s == Spell(p) && IsCanonical(q) && c == Spell(q) && Nanos(p) == Nanos(q)
  {
    if Stamp(s) == Some(c) {
      var p := ReadSpelled(s);
      var q := CanonicalParts(s);
      StampKeepsInstant(s);
      StampCounts(p);
      StampCounts(q);
    }
    if p, q :| IsParts(p) && s == Spell(p) && IsCanonical(q) && c == Spell(q) && Nanos(p) == Nanos(q) {
      SameCanonical(p, q);
    }
    hide Spell, Nanos, IsParts, Stamp;
  }

  lemma SameCanonical(p: Parts, q: Parts)
    requires IsParts(p) && IsCanonical(q) && Nanos(p) == Nanos(q)
    ensures Stamp(Spell(p)) == Some(Spell(q))
  {
    hide Spell, Seconds, Head, Tail, YearAt, Trim, Nanoseconds, IsParts, DigitsValue, Pad, JsonLiterals.Pow10;
    StampCounts(p);
    StampCounts(q);
    SameSeconds(p, q);
    CanonicalWritten(q);
    CanonicalKept(q);
    hide ReadStamp, Instant, Nanos;
    SameNanoseconds(Spell(p), Spell(q));
  }

  lemma SameSeconds(p: Parts, q: Parts)
    requires IsParts(p) && IsParts(q) && Nanos(p) == Nanos(q)
    ensures Seconds(p) == Seconds(q)
  {
    hide Seconds, DigitsValue, Pad, JsonLiterals.Pow10, DaysIn, AreDigits;
    DigitsOnly(p.fraction);
    DigitsOnly(q.fraction);
    PadCounts(p.fraction);
    PadCounts(q.fraction);
    FractionBelow(p.fraction);
    FractionBelow(q.fraction);
  }
}
