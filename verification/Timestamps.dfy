/**
 Time stamps of section 5.6 of RFC 3339 and their canonical form in UTC, as both
 implementations compute it: the calendar, the text, and what equal stamps mean.
 */
module Timestamps {
  import opened Wrappers
  import opened Calendar
  import opened JsonText
  import opened JsonLiterals

  const DAY_SECONDS: int := 86400

  // ----- The text -----

  /** A stamp as read: local date and second of the day, fraction digits, offset in minutes. */
  datatype Reading = Reading(date: Date, seconds: int, fraction: string, offset: int)

  predicate AreDigits(s: string) {
    forall i :: 0 <= i < |s| ==> IsDigit(s[i])
  }

  /** The two-digit number at position i. */
  function Pair(s: string, i: nat): (n: Option<int>)
    ensures n.Some? ==> 0 <= n.value <= 99
  {
    if i + 2 <= |s| && IsDigit(s[i]) && IsDigit(s[i + 1]) then Some(10 * Digit(s[i]) + Digit(s[i + 1])) else None
  }

  /** The pattern of the first nineteen characters. */
  predicate HasHead(s: string) {
    && |s| >= 19
    && Pair(s, 0).Some? && Pair(s, 2).Some? && s[4] == '-' && Pair(s, 5).Some? && s[7] == '-' && Pair(s, 8).Some?
    && s[10] == 'T' && Pair(s, 11).Some? && s[13] == ':' && Pair(s, 14).Some? && s[16] == ':' && Pair(s, 17).Some?
  }

  /** The fraction and what follows it; no fraction is the empty one. */
  function Fraction(tail: string): (r: Option<(string, string)>)
    ensures r.Some? ==> AreDigits(r.value.0) && |r.value.0| <= 9
  {
    if !StartsWith(tail, '.') then Some(("", tail))
    else
      var n := CountDigits(tail[1..]);
      if 1 <= n <= 9 then Some((tail[1..1 + n], tail[1 + n..])) else None
  }

  /** The offset in minutes that a zone stands for. */
  function Zone(z: string): (r: Option<int>)
    ensures r.Some? ==> -1440 < r.value < 1440
  {
    if |z| == 1 && z[0] == 'Z' then Some(0)
    else if |z| != 6 || (z[0] != '+' && z[0] != '-') || z[3] != ':' || Pair(z, 1).None? || Pair(z, 4).None? then None
    else if Pair(z, 1).value > 23 || Pair(z, 4).value > 59 then None
    else
      var minutes := 60 * Pair(z, 1).value + Pair(z, 4).value;
      Some(if z[0] == '+' then minutes else -minutes)
  }

  function HeadDate(s: string): Date
    requires HasHead(s)
  {
    Date(100 * Pair(s, 0).value + Pair(s, 2).value, Pair(s, 5).value, Pair(s, 8).value)
  }

  function HeadSeconds(s: string): int
    requires HasHead(s)
  {
    3600 * Pair(s, 11).value + 60 * Pair(s, 14).value + Pair(s, 17).value
  }

  predicate ClockOk(s: string)
    requires HasHead(s)
  {
    Pair(s, 11).value <= 23 && Pair(s, 14).value <= 59 && Pair(s, 17).value <= 59
  }

  function ReadStamp(s: string): (r: Option<Reading>)
    ensures r.Some? ==> ValidDate(r.value.date) && AreDigits(r.value.fraction) && |r.value.fraction| <= 9
  {
    if !HasHead(s) || !ClockOk(s) || !ValidDate(HeadDate(s)) || HeadDate(s).year < 1 then None
    else
      var f := Fraction(s[19..]);
      if f.None? || Zone(f.value.1).None? then None
      else Some(Reading(HeadDate(s), HeadSeconds(s), f.value.0, Zone(f.value.1).value))
  }

  /** Whole seconds since the epoch. */
  function Instant(r: Reading): int
    requires ValidDate(r.date)
  {
    DayNumber(r.date) * DAY_SECONDS + r.seconds - 60 * r.offset
  }

  function YearAt(t: int): int {
    DateOf(t / DAY_SECONDS).year
  }

  function Trim(fraction: string): (r: string)
    ensures r <= fraction
    ensures r != "" ==> r[|r| - 1] != '0'
  {
    if fraction != "" && fraction[|fraction| - 1] == '0' then Trim(fraction[..|fraction| - 1]) else fraction
  }

  function DigitChar(n: int): (c: char)
    requires 0 <= n <= 9
    ensures IsDigit(c) && Digit(c) == n
  {
    (n + '0' as int) as char
  }

  /** Two digits of a number below a hundred. */
  function Two(n: int): (s: string)
    requires 0 <= n <= 99
    ensures |s| == 2
  {
    [DigitChar(n / 10), DigitChar(n % 10)]
  }

  /** Date and time to the second, in UTC. */
  function Head(t: int): (s: string)
    requires 1 <= YearAt(t) <= 9999
  {
    var d, n := DateOf(t / DAY_SECONDS), t % DAY_SECONDS;
    Join(Two(d.year / 100), Two(d.year % 100), Two(d.month), Two(d.day), Two(n / 3600), Two(n / 60 % 60), Two(n % 60))
  }

  /** The pieces of a stamp's head between their separators. */
  function Join(a: string, b: string, c: string, d: string, e: string, f: string, g: string): (s: string)
    requires |a| == |b| == |c| == |d| == |e| == |f| == |g| == 2
    ensures |s| == 19
  {
    [a[0], a[1], b[0], b[1], '-', c[0], c[1], '-', d[0], d[1], 'T', e[0], e[1], ':', f[0], f[1], ':', g[0], g[1]]
  }

  function Tail(fraction: string): string {
    (if fraction == "" then "" else ['.'] + fraction) + ['Z']
  }

  /** The canonical form of a time stamp, None for text that is not an acceptable stamp. */
  function Stamp(s: string): Option<string> {
    var r := ReadStamp(s);
    if r.None? then None
    else
      var t := Instant(r.value);
      if 1 <= YearAt(t) <= 9999 then Some(Head(t) + Tail(Trim(r.value.fraction))) else None
  }

  // ----- Reading the canonical form back -----

  lemma PairReads(n: int, s: string, i: nat)
    requires 0 <= n <= 99 && i + 2 <= |s| && s[i] == Two(n)[0] && s[i + 1] == Two(n)[1]
    ensures Pair(s, i) == Some(n)
  {
  }

  /** Where the pieces of a head stand. */
  lemma JoinReads(
      a: string, b: string, c: string, d: string, e: string, f: string, g: string, rest: string)
    requires |a| == |b| == |c| == |d| == |e| == |f| == |g| == 2
    ensures var s := Join(a, b, c, d, e, f, g) + rest;
            && |s| >= 19 && s[19..] == rest
            && s[4] == '-' && s[7] == '-' && s[10] == 'T' && s[13] == ':' && s[16] == ':'
            && s[0] == a[0] && s[1] == a[1] && s[2] == b[0] && s[3] == b[1]
            && s[5] == c[0] && s[6] == c[1] && s[8] == d[0] && s[9] == d[1]
            && s[11] == e[0] && s[12] == e[1] && s[14] == f[0] && s[15] == f[1]
            && s[17] == g[0] && s[18] == g[1]
  {
  }

  /** A head is read back, whatever follows it. */
  lemma HeadReads(t: int, rest: string)
    requires 1 <= YearAt(t) <= 9999
    ensures var s := Head(t) + rest;
            && HasHead(s) && ClockOk(s) && s[19..] == rest
            && HeadDate(s) == DateOf(t / DAY_SECONDS) && HeadSeconds(s) == t % DAY_SECONDS
  {
    var s := Head(t) + rest;
    var d, n := DateOf(t / DAY_SECONDS), t % DAY_SECONDS;
    SecondsSplit(n);
    JoinReads(Two(d.year / 100), Two(d.year % 100), Two(d.month), Two(d.day),
              Two(n / 3600), Two(n / 60 % 60), Two(n % 60), rest);
    hide DateOf, Join, Two;
    PairReads(d.year / 100, s, 0);
    PairReads(d.year % 100, s, 2);
    PairReads(d.month, s, 5);
    PairReads(d.day, s, 8);
    PairReads(n / 3600, s, 11);
    PairReads(n / 60 % 60, s, 14);
    PairReads(n % 60, s, 17);
    hide Pair, DigitChar;
  }

  lemma SecondsSplit(n: int)
    requires 0 <= n < DAY_SECONDS
    ensures 0 <= n / 3600 <= 23 && n == 3600 * (n / 3600) + 60 * (n / 60 % 60) + n % 60
  {
    assert n / 60 == 60 * (n / 60 / 60) + n / 60 % 60;
    assert n / 60 / 60 == n / 3600;
  }

  lemma TailReads(fraction: string)
    requires AreDigits(fraction) && |fraction| <= 9
    ensures Fraction(Tail(fraction)) == Some((fraction, ['Z'])) && Zone(['Z']) == Some(0)
  {
    if fraction == "" {
      assert Tail(fraction) == ['Z'];
    } else {
      var tail := Tail(fraction);
      assert tail[1..] == fraction + ['Z'];
      CountDigitsAppend(fraction, ['Z']);
      assert tail[1..1 + |fraction|] == fraction && tail[1 + |fraction|..] == ['Z'];
    }
  }

  lemma CanonicalReads(t: int, fraction: string)
    requires 1 <= YearAt(t) <= 9999 && AreDigits(fraction) && |fraction| <= 9
    ensures ReadStamp(Head(t) + Tail(fraction)) == Some(Reading(DateOf(t / DAY_SECONDS), t % DAY_SECONDS, fraction, 0))
    ensures Instant(Reading(DateOf(t / DAY_SECONDS), t % DAY_SECONDS, fraction, 0)) == t
  {
    HeadReads(t, Tail(fraction));
    TailReads(fraction);
    DateOfCounts(t / DAY_SECONDS);
    hide Head, Tail, HasHead, ClockOk, HeadDate, HeadSeconds, Fraction, Zone, DateOf, DayNumber;
  }

  lemma {:induction false} TrimTwice(fraction: string)
    ensures Trim(Trim(fraction)) == Trim(fraction)
  {
    if fraction != "" && fraction[|fraction| - 1] == '0' {
      TrimTwice(fraction[..|fraction| - 1]);
    }
  }

  /** The canonical form of a stamp is its own canonical form. */
  lemma StampIdempotent(s: string)
    requires Stamp(s).Some?
    ensures Stamp(Stamp(s).value) == Stamp(s)
  {
    var r := ReadStamp(s).value;
    TrimTwice(r.fraction);
    CanonicalReads(Instant(r), Trim(r.fraction));
    hide ReadStamp, Instant, Head, Tail, Trim, YearAt;
  }

  // ----- Equal stamps are equal instants -----

  /** Nine fraction digits: nanoseconds. */
  function Pad(fraction: string): (r: string)
    requires |fraction| <= 9
    ensures |r| == 9 && (AreDigits(fraction) ==> AreDigits(r))
    decreases 9 - |fraction|
  {
    if |fraction| == 9 then fraction else Pad(fraction + ['0'])
  }

  lemma {:induction false} TrimPadded(fraction: string)
    requires |fraction| <= 9
    ensures Trim(Pad(fraction)) == Trim(fraction)
    decreases 9 - |fraction|
  {
    if |fraction| < 9 {
      TrimPadded(fraction + ['0']);
      assert (fraction + ['0'])[..|fraction|] == fraction;
    }
  }

  lemma {:induction false} PadTrimmed(fraction: string)
    requires |fraction| <= 9
    ensures Pad(Trim(fraction)) == Pad(fraction)
  {
    if fraction != "" && fraction[|fraction| - 1] == '0' {
      var shorter := fraction[..|fraction| - 1];
      PadTrimmed(shorter);
      assert shorter + ['0'] == fraction;
    }
  }

  /** Two stamps have one canonical form exactly when they denote the same instant, to the nanosecond. */
  lemma SameInstant(a: string, b: string)
    requires Stamp(a).Some? && Stamp(b).Some?
    ensures Stamp(a) == Stamp(b) <==>
            Instant(ReadStamp(a).value) == Instant(ReadStamp(b).value) &&
            Pad(ReadStamp(a).value.fraction) == Pad(ReadStamp(b).value.fraction)
  {
    var x, y := ReadStamp(a).value, ReadStamp(b).value;
    CanonicalReads(Instant(x), Trim(x.fraction));
    CanonicalReads(Instant(y), Trim(y.fraction));
    TrimPadded(x.fraction);
    TrimPadded(y.fraction);
    PadTrimmed(x.fraction);
    PadTrimmed(y.fraction);
    hide ReadStamp, Head, Tail, Trim, Pad, YearAt;
  }

  /** Nanoseconds since the epoch. */
  function Nanoseconds(s: string): Option<int> {
    var r := ReadStamp(s);
    if r.None? then None else Some(Instant(r.value) * 1_000_000_000 + DigitsValue(Pad(r.value.fraction)))
  }

  /** Texts of digits of one length differ in value. */
  lemma {:induction false} DigitsDiffer(a: string, b: string)
    requires AreDigits(a) && AreDigits(b) && |a| == |b|
    ensures DigitsValue(a) == DigitsValue(b) <==> a == b
    ensures DigitsValue(a) < Pow10(|a|)
  {
    if a != "" {
      var m, n := a[..|a| - 1], b[..|b| - 1];
      DigitsDiffer(m, n);
      assert a == m + [a[|a| - 1]] && b == n + [b[|b| - 1]];
    }
  }

  /** One canonical form, one count of nanoseconds. */
  lemma SameNanoseconds(a: string, b: string)
    requires Stamp(a).Some? && Stamp(b).Some?
    ensures Stamp(a) == Stamp(b) <==> Nanoseconds(a) == Nanoseconds(b)
  {
    hide ReadStamp, Pad, Instant, DigitsValue, AreDigits, Pow10, Head, Tail, Trim, YearAt, DateOf, DayNumber, ValidDate;
    SameInstant(a, b);
    var x, y := Pad(ReadStamp(a).value.fraction), Pad(ReadStamp(b).value.fraction);
    DigitsDiffer(x, y);
    DigitsDiffer(y, x);
    Billion();
  }

  lemma Billion()
    ensures Pow10(9) == 1_000_000_000
  {
    assert Pow10(3) == 1000;
    assert Pow10(6) == 1_000_000;
  }

  lemma TrimKeeps(fraction: string)
    requires AreDigits(fraction) && |fraction| <= 9
    ensures AreDigits(Trim(fraction)) && |Trim(fraction)| <= 9
  {
  }

  /** The canonical form denotes the same instant. */
  lemma StampKeepsInstant(s: string)
    requires Stamp(s).Some?
    ensures Nanoseconds(Stamp(s).value) == Nanoseconds(s)
  {
    hide ReadStamp, Instant, Head, Tail, Trim, Pad, YearAt, DateOf, DayNumber, ValidDate, DigitsValue, AreDigits;
    var r := ReadStamp(s).value;
    TrimKeeps(r.fraction);
    CanonicalReads(Instant(r), Trim(r.fraction));
    PadTrimmed(r.fraction);
  }

  // ----- Canonical stamps are plain text -----

  lemma HeadIsAscii(t: int)
    requires 1 <= YearAt(t) <= 9999
    ensures IsAscii(Head(t))
  {
    hide DateOf;
  }

  lemma TailIsAscii(fraction: string)
    requires AreDigits(fraction)
    ensures IsAscii(Tail(fraction))
  {
  }

  lemma StampIsAscii(s: string)
    requires Stamp(s).Some?
    ensures IsAscii(Stamp(s).value)
  {
    var r := ReadStamp(s).value;
    HeadIsAscii(Instant(r));
    TailIsAscii(Trim(r.fraction));
    hide ReadStamp, Instant, YearAt, Head, Tail;
  }

  // ----- The Go routine: a regular expression, then nanoseconds in a machine integer -----

  const HEAD_PATTERN := "dddd-dd-ddTdd:dd:dd"

  /** A character matches one place of the pattern, where d stands for any digit. */
  predicate AtPlace(c: char, place: char) {
    if place == 'd' then IsDigit(c) else c == place
  }

  predicate MatchesZone(z: string) {
    || (|z| == 1 && z[0] == 'Z')
    || (|z| == 6 && z[0] in "+-" && z[3] == ':' && '0' <= z[4] <= '5' && IsDigit(z[5]) &&
        ((z[1] in "01" && IsDigit(z[2])) || (z[1] == '2' && '0' <= z[2] <= '3')))
  }

  /** The pattern, with n characters for the optional fraction. */
  predicate MatchesWith(s: string, n: nat) {
    && |s| >= 19 + n && (forall i :: 0 <= i < 19 ==> AtPlace(s[i], HEAD_PATTERN[i]))
    && (n == 0 || (2 <= n <= 10 && s[19] == '.' && forall i :: 20 <= i < 19 + n ==> IsDigit(s[i])))
    && MatchesZone(s[19 + n..])
  }

  predicate Matches(s: string) {
    exists n :: 0 <= n <= 10 && MatchesWith(s, n)
  }

  lemma HeadMatches(s: string)
    requires |s| >= 19
    ensures (forall i :: 0 <= i < 19 ==> AtPlace(s[i], HEAD_PATTERN[i])) <==> HasHead(s)
  {
    if forall i :: 0 <= i < 19 ==> AtPlace(s[i], HEAD_PATTERN[i]) {
      assert AtPlace(s[0], 'd') && AtPlace(s[1], 'd') && AtPlace(s[2], 'd') && AtPlace(s[3], 'd') && AtPlace(s[4], '-');
      assert AtPlace(s[5], 'd') && AtPlace(s[6], 'd') && AtPlace(s[7], '-') && AtPlace(s[8], 'd') && AtPlace(s[9], 'd');
      assert AtPlace(s[10], 'T') && AtPlace(s[11], 'd') && AtPlace(s[12], 'd') && AtPlace(s[13], ':');
      assert AtPlace(s[14], 'd') && AtPlace(s[15], 'd') && AtPlace(s[16], ':') && AtPlace(s[17], 'd');
      assert AtPlace(s[18], 'd');
    }
  }

  /** The alternatives for a zone are the numbers of hours and minutes of a day. */
  lemma ZoneMatches(z: string)
    ensures MatchesZone(z) <==> Zone(z).Some?
  {
  }

  /** The fraction the pattern takes is the one that a scan of digits finds. */
  lemma FractionMatches(s: string, n: nat)
    requires MatchesWith(s, n)
    ensures Fraction(s[19..]) == Some((if n == 0 then "" else s[20..19 + n], s[19 + n..]))
  {
    if n > 0 {
      var digits, zone := s[20..19 + n], s[19 + n..];
      assert forall i :: 0 <= i < |digits| ==> digits[i] == s[20 + i];
      assert s[19..] == ['.'] + (digits + zone);
      FractionReads(digits, zone);
    }
  }

  lemma FractionReads(digits: string, zone: string)
    requires 1 <= |digits| <= 9 && AreDigits(digits) && (zone == "" || !IsDigit(zone[0]))
    ensures Fraction(['.'] + (digits + zone)) == Some((digits, zone))
  {
    var tail := ['.'] + (digits + zone);
    CountDigitsAppend(digits, zone);
    assert tail[1..] == digits + zone;
    assert (digits + zone)[..|digits|] == digits && (digits + zone)[|digits|..] == zone;
    assert tail[1..1 + |digits|] == tail[1..][..|digits|] && tail[1 + |digits|..] == tail[1..][|digits|..];
  }

  predicate HasStampShape(s: string) {
    HasHead(s) && Fraction(s[19..]).Some? && Zone(Fraction(s[19..]).value.1).Some?
  }

  lemma MatchesExactly(s: string)
    ensures Matches(s) <==> HasStampShape(s)
  {
    if Matches(s) {
      var n :| 0 <= n <= 10 && MatchesWith(s, n);
      HeadMatches(s);
      FractionMatches(s, n);
      ZoneMatches(s[19 + n..]);
      hide HasHead, Zone, MatchesZone;
    }
    if HasStampShape(s) {
      ShapeMatches(s);
    }
  }

  lemma ShapeMatches(s: string)
    requires HasStampShape(s)
    ensures Matches(s)
  {
    HeadMatches(s);
    var f := Fraction(s[19..]).value;
    var n := if StartsWith(s[19..], '.') then 1 + |f.0| else 0;
    hide Zone, MatchesZone;
    assert s[19..][n..] == s[19 + n..];
    ZoneMatches(s[19 + n..]);
    assert forall i :: 20 <= i < 19 + n ==> s[i] == f.0[i - 20];
    assert MatchesWith(s, n);
  }

  /** time.Time: the fields of the local time, nanoseconds, and the offset of its zone in minutes. */
  datatype Time = Time(date: Date, seconds: int, nanos: nat, offset: int)

  /** time.Parse on what matches the pattern. */
  method Parse(s: string) returns (r: Option<Time>)
    requires HasStampShape(s)
    ensures r.Some? <==> ClockOk(s) && ValidDate(HeadDate(s))
    ensures r.Some? ==>
              var f := Fraction(s[19..]).value;
              r.value == Time(HeadDate(s), HeadSeconds(s), DigitsValue(Pad(f.0)), Zone(f.1).value)
  {
    hide DateOf, DayNumber, Pair, Zone;
    if !ClockOk(s) || !ValidDate(HeadDate(s)) {
      return None;
    }
    var f := Fraction(s[19..]).value;
    var nanos := ParseNanos(f.0);
    return Some(Time(HeadDate(s), HeadSeconds(s), nanos, Zone(f.1).value));
  }

  /** The digits as a number, scaled up for each digit that is missing. */
  method ParseNanos(fraction: string) returns (nanos: nat)
    requires AreDigits(fraction) && |fraction| <= 9
    ensures nanos == DigitsValue(Pad(fraction))
  {
    nanos := DigitsValue(fraction);
    ghost var scaled := fraction;
    for i := |fraction| to 9
      invariant AreDigits(scaled) && |scaled| == i
      invariant Pad(scaled) == Pad(fraction) && nanos == DigitsValue(scaled)
    {
      assert (scaled + ['0'])[..i] == scaled;
      nanos, scaled := nanos * 10, scaled + ['0'];
    }
  }

  /** The last n decimal digits of a number. */
  function LastDigits(k: nat, n: nat): (s: string)
    ensures |s| == n && AreDigits(s)
  {
    if n == 0 then "" else LastDigits(k / 10, n - 1) + [DigitChar(k % 10)]
  }

  lemma {:induction false} LastDigitsOfValue(s: string)
    requires AreDigits(s)
    ensures LastDigits(DigitsValue(s), |s|) == s
  {
    if s != "" {
      var most, last := s[..|s| - 1], s[|s| - 1];
      LastDigitsOfValue(most);
      assert DigitsValue(s) / 10 == DigitsValue(most) && DigitChar(Digit(last)) == last;
      assert s == most + [last];
    }
  }

  /** Format with the layout of nine optional digits: trailing zeros are cut, and an empty fraction with its point. */
  method Format(seconds: int, nanos: nat) returns (r: string)
    requires 1 <= YearAt(seconds) <= 9999
    ensures r == Head(seconds) + Tail(Trim(LastDigits(nanos, 9)))
  {
    hide Head;
    var fraction := TrimZeros(LastDigits(nanos, 9));
    return Head(seconds) + Tail(fraction);
  }

  /** The pattern, time.Parse on what matches it, and the bounds on the local and the UTC year. */
  method GoTimestamp(s: string) returns (r: Option<string>)
    ensures r == Stamp(s)
  {
    hide DateOf, DayNumber, Pair, Head, Tail, Trim, Pad, Zone, Matches, DigitsValue;
    MatchesExactly(s);
    if !Matches(s) {
      return None;
    }
    YearHasFourDigits(s);
    var parsed := Parse(s);
    if parsed.None? {
      return None;
    }
    var t := parsed.value;
    var utc := DayNumber(t.date) * DAY_SECONDS + t.seconds - 60 * t.offset;
    if t.date.year < 1 || t.date.year > 9999 || YearAt(utc) < 1 || YearAt(utc) > 9999 {
      return None;
    }
    ghost var fraction := Fraction(s[19..]).value.0;
    LastDigitsOfValue(Pad(fraction));
    TrimPadded(fraction);
    var text := Format(utc, t.nanos);
    return Some(text);
  }

  lemma YearHasFourDigits(s: string)
    requires HasHead(s)
    ensures HeadDate(s).year <= 9999
  {
  }

  // ----- The TypeScript routine, which works on a mutable date -----

  /** A Date: milliseconds since the epoch, read and written through the UTC calendar. */
  class UtcDate {
    var time: int

    constructor ()
      ensures time == 0
    {
      time := 0;
    }

    function Calendar(): Date
      reads this
    {
      DateOf(time / 86400000)
    }

    /** setUTCFullYear: keeps the time of day; the day may run past the end of the month. */
    method SetDate(year: int, month: int, day: int)
      requires 1 <= month <= 12
      modifies this
      ensures time == (DayNumber(Date(year, month, 1)) + day - 1) * 86400000 + old(time) % 86400000
    {
      time := (DayNumber(Date(year, month, 1)) + day - 1) * 86400000 + time % 86400000;
    }

    /** setUTCHours: keeps the day. */
    method SetClock(hour: int, minute: int, second: int)
      modifies this
      ensures time == old(time) / 86400000 * 86400000 + (3600 * hour + 60 * minute + second) * 1000
    {
      time := time / 86400000 * 86400000 + (3600 * hour + 60 * minute + second) * 1000;
    }

    method Shift(minutes: int)
      modifies this
      ensures time == old(time) - minutes * 60000
    {
      time := time - minutes * 60000;
    }
  }

  predicate ZoneShape(z: string) {
    || (|z| == 1 && z[0] == 'Z')
    || (|z| == 6 && (z[0] == '+' || z[0] == '-') && z[3] == ':' && Pair(z, 1).Some? && Pair(z, 4).Some?)
  }

  method TrimZeros(fraction: string) returns (r: string)
    ensures r == Trim(fraction)
  {
    r := fraction;
    while r != "" && r[|r| - 1] == '0'
      invariant Trim(r) == Trim(fraction)
      decreases |r|
    {
      r := r[..|r| - 1];
    }
  }

  /** Date and clock are set, then read back to notice a day past the end of its month. */
  method SetFields(date: UtcDate, s: string) returns (ok: bool)
    requires HasHead(s) && date.time == 0
    modifies date
    ensures ok <==> ClockOk(s) && ValidDate(HeadDate(s)) && HeadDate(s).year >= 1
    ensures ok ==> date.time == (DayNumber(HeadDate(s)) * DAY_SECONDS + HeadSeconds(s)) * 1000
  {
    hide DateOf, DayNumber, Pair, MonthLength;
    var d := HeadDate(s);
    if d.year < 1 || d.month < 1 || d.month > 12 || d.day < 1 || !ClockOk(s) {
      return false;
    }
    date.SetDate(d.year, d.month, d.day);
    var n := DayNumber(Date(d.year, d.month, 1)) + d.day - 1;
    WholeDays(n, HeadSeconds(s));
    date.SetClock(Pair(s, 11).value, Pair(s, 14).value, Pair(s, 17).value);
    OverflowShows(d.year, d.month, d.day);
    DaysApart(d.year, d.month, d.day);
    return date.Calendar().month == d.month && date.Calendar().day == d.day;
  }

  lemma WholeDays(n: int, seconds: int)
    requires 0 <= seconds < DAY_SECONDS
    ensures (n * 86400000 + 0 % 86400000) / 86400000 == n
    ensures (n * 86400000 + seconds * 1000) / 86400000 == n
    ensures (n * DAY_SECONDS + seconds) / DAY_SECONDS == n
  {
  }

  method Timestamp(s: string) returns (r: Option<string>)
    ensures r == Stamp(s)
  {
    hide DateOf, DayNumber, Pair, Head, Tail;
    if !HasHead(s) {
      return None;
    }
    var f := Fraction(s[19..]);
    if f.None? || !ZoneShape(f.value.1) {
      return None;
    }
    var z := f.value.1;
    var date := new UtcDate();
    var ok := SetFields(date, s);
    if !ok {
      return None;
    }
    if z[0] != 'Z' {
      var hours, minutes := Pair(z, 1).value, Pair(z, 4).value;
      if hours > 23 || minutes > 59 {
        return None;
      }
      date.Shift(if z[0] == '+' then 60 * hours + minutes else -(60 * hours + minutes));
    }
    ghost var t := Instant(ReadStamp(s).value);
    assert date.time == t * 1000;
    MillisToSeconds(t);
    if date.Calendar().year < 1 || date.Calendar().year > 9999 {
      return None;
    }
    var fraction := TrimZeros(f.value.0);
    return Some(Head(date.time / 1000) + Tail(fraction));
  }

  lemma MillisToSeconds(t: int)
    ensures t * 1000 / 86400000 == t / DAY_SECONDS && t * 1000 / 1000 == t
  {
  }
}
