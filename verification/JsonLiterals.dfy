/** How the strings and numbers of JSON may be spelled, and that exactly these texts are read as them. */
module JsonLiterals {
  import opened Wrappers
  import opened JsonText

  // ----- Characters -----

  /** The UTF-16 units of a scalar. */
  function Units(c: char): seq<nat> {
    var n := c as int;
    if n < 0x10000 then [n] else [0xD800 + (n - 0x10000) / 0x400, 0xDC00 + (n - 0x10000) % 0x400]
  }

  const LOWER := "0123456789abcdef"
  const UPPER := "0123456789ABCDEF"

  predicate IsHex(d: char, n: nat) {
    n < 16 && (d == LOWER[n] || d == UPPER[n])
  }

  /** A backslash, u and the four hexadecimal digits of n, in either case. */
  predicate IsUnit(t: string, n: nat) {
    && |t| == 6 && t[0] == '\\' && t[1] == 'u'
    && IsHex(t[2], n / 0x1000) && IsHex(t[3], n / 0x100 % 16) && IsHex(t[4], n / 0x10 % 16) && IsHex(t[5], n % 16)
  }

  predicate IsLong(c: char, t: string) {
    var units := Units(c);
    if |units| == 1 then IsUnit(t, units[0])
    else |t| == 12 && IsUnit(t[..6], units[0]) && IsUnit(t[6..], units[1])
  }

  predicate IsShort(c: char, t: string) {
    || (c == '"' && t == "\\\"") || (c == '\\' && t == "\\\\") || (c == '/' && t == "\\/")
    || (c == 8 as char && t == "\\b") || (c == 12 as char && t == "\\f") || (c == 10 as char && t == "\\n")
    || (c == 13 as char && t == "\\r") || (c == 9 as char && t == "\\t")
  }

  predicate IsItself(c: char, t: string) {
    t == [c] && c as int >= 0x20 && c != '"' && c != '\\'
  }

  /** A character of a string literal stands for itself, or is escaped shortly or by its units. */
  predicate Spells(c: char, t: string) {
    IsItself(c, t) || IsShort(c, t) || IsLong(c, t)
  }

  lemma HexReads(d: char, n: nat)
    ensures IsHex(d, n) <==> HexValue(d) == Some(n)
  {
  }

  lemma DigitsOf(n: nat, a: nat, b: nat, c: nat, d: nat)
    requires a < 16 && b < 16 && c < 16 && d < 16
    ensures n == ((a * 16 + b) * 16 + c) * 16 + d <==>
            n / 0x1000 == a && n / 0x100 % 16 == b && n / 0x10 % 16 == c && n % 16 == d
  {
    var x, y := n / 0x10, n / 0x100;
    assert n == 16 * x + n % 16 && x / 16 == y && x == 16 * y + x % 16;
    assert y / 16 == n / 0x1000 && y == 16 * (n / 0x1000) + y % 16;
  }

  lemma UnitDigits(t: string, n: nat)
    requires IsUnit(t, n)
    ensures HexValue(t[2]) == Some(n / 0x1000) && HexValue(t[3]) == Some(n / 0x100 % 16)
    ensures HexValue(t[4]) == Some(n / 0x10 % 16) && HexValue(t[5]) == Some(n % 16)
    ensures n / 0x1000 < 16
  {
    HexReads(t[2], n / 0x1000);
    HexReads(t[3], n / 0x100 % 16);
    HexReads(t[4], n / 0x10 % 16);
    HexReads(t[5], n % 16);
    assert IsHex(t[2], n / 0x1000);
    hide HexValue;
  }

  lemma UnitReads(t: string, n: nat, rest: string)
    requires IsUnit(t, n)
    ensures var s := t + rest;
            Hex4(s, 2) == Some(n) && s[0] == '\\' && s[1] == 'u' && s[6..] == rest
  {
    var a, b, c, d := n / 0x1000, n / 0x100 % 16, n / 0x10 % 16, n % 16;
    UnitDigits(t, n);
    DigitsOf(n, a, b, c, d);
    hide IsHex, HexValue, Hex4;
    FourReads(t + rest, a, b, c, d);
  }

  lemma FourReads(s: string, a: nat, b: nat, c: nat, d: nat)
    requires |s| >= 6 && HexValue(s[2]) == Some(a) && HexValue(s[3]) == Some(b)
    requires HexValue(s[4]) == Some(c) && HexValue(s[5]) == Some(d)
    ensures Hex4(s, 2) == Some(((a * 16 + b) * 16 + c) * 16 + d)
  {
    hide HexValue;
  }

  lemma UnitsCombine(c: char)
    requires c as int >= 0x10000
    ensures IsHigh(Units(c)[0]) && IsLow(Units(c)[1]) && Combine(Units(c)[0], Units(c)[1]) == c
  {
  }

  lemma PairReads(c: char, t: string, rest: string)
    requires c as int >= 0x10000 && IsLong(c, t)
    ensures ReadEscape(t + rest) == Done(c, rest)
  {
    var s := t + rest;
    UnitsCombine(c);
    UnitReads(t[..6], Units(c)[0], t[6..] + rest);
    UnitReads(t[6..], Units(c)[1], rest);
    hide IsUnit, Units, Combine;
    assert s == t[..6] + (t[6..] + rest);
    assert s[6..] == t[6..] + rest;
    assert Hex4(s, 8) == Hex4(s[6..], 2);
    assert s[12..] == s[6..][6..];
  }

  lemma EscapeReads(c: char, t: string, rest: string)
    requires IsShort(c, t) || IsLong(c, t)
    ensures StartsWith(t + rest, '\\') && ReadEscape(t + rest) == Done(c, rest)
  {
    if IsShort(c, t) {
      assert (t + rest)[2..] == rest;
    } else if c as int >= 0x10000 {
      PairReads(c, t, rest);
      assert (t + rest)[0] == t[..6][0];
    } else {
      UnitReads(t, c as int, rest);
    }
  }

  lemma SpellReads(c: char, t: string, rest: string)
    requires Spells(c, t)
    ensures Unquote(t + rest) == Prepend(c, Unquote(rest))
  {
    if IsItself(c, t) {
      assert (t + rest)[1..] == rest;
    } else {
      EscapeReads(c, t, rest);
    }
  }

  lemma UnitSpelled(s: string, n: nat)
    requires |s| >= 6 && s[0] == '\\' && s[1] == 'u' && Hex4(s, 2) == Some(n)
    ensures IsUnit(s[..6], n)
  {
    hide HexValue, IsHex;
    var a, b, c, d := HexValue(s[2]).value, HexValue(s[3]).value, HexValue(s[4]).value, HexValue(s[5]).value;
    FourReads(s, a, b, c, d);
    DigitsOf(n, a, b, c, d);
    HexReads(s[2], a);
    HexReads(s[3], b);
    HexReads(s[4], c);
    HexReads(s[5], d);
    hide Hex4;
  }

  lemma CombinedUnits(high: nat, low: nat)
    requires IsHigh(high) && IsLow(low)
    ensures Units(Combine(high, low)) == [high, low]
  {
  }

  lemma ShortSpelled(s: string)
    requires |s| >= 2 && s[0] == '\\' && SimpleEscape(s[1]).Some?
    ensures IsShort(SimpleEscape(s[1]).value, s[..2])
  {
    assert s[..2] == [s[0], s[1]];
  }

  lemma PairSpelled(s: string, high: nat)
    requires StartsWith(s, '\\') && |s| >= 12 && s[1] == 'u' && Hex4(s, 2) == Some(high) && IsHigh(high)
    requires LowHalf(s).Some?
    ensures IsLong(Combine(high, LowHalf(s).value), s[..12])
  {
    var low := LowHalf(s).value;
    var t, u := s[6..], s[..12];
    assert Hex4(t, 2) == Hex4(s, 8) && t[0] == '\\' && t[1] == 'u';
    UnitSpelled(s, high);
    UnitSpelled(t, low);
    CombinedUnits(high, low);
    hide Hex4, IsUnit, Units, Combine, LowHalf;
    assert u[..6] == s[..6] && u[6..] == t[..6];
  }

  /** An escape that is read is a spelling of what it is read as. */
  lemma EscapeSpelled(s: string) returns (t: string)
    requires StartsWith(s, '\\') && ReadEscape(s).Done?
    ensures s == t + ReadEscape(s).rest && Spells(ReadEscape(s).value, t)
  {
    hide Hex4, IsUnit, IsShort, Combine, LowHalf, SimpleEscape;
    if s[1] != 'u' {
      ShortSpelled(s);
      t := s[..2];
    } else {
      var n := Hex4(s, 2).value;
      if IsHigh(n) {
        PairSpelled(s, n);
        t := s[..12];
      } else {
        UnitSpelled(s, n);
        t := s[..6];
      }
    }
  }

  // ----- Strings -----

  /** One piece for each character. */
  predicate SpellsText(s: string, pieces: seq<string>) {
    |pieces| == |s| && forall i :: 0 <= i < |s| ==> Spells(s[i], pieces[i])
  }

  function Concat(pieces: seq<string>): string {
    if pieces == [] then "" else pieces[0] + Concat(pieces[1..])
  }

  lemma {:induction false} TextReads(s: string, pieces: seq<string>, rest: string)
    requires SpellsText(s, pieces)
    ensures Unquote(Concat(pieces) + ("\"" + rest)) == Done(s, rest)
  {
    var tail := "\"" + rest;
    if s == "" {
      assert Concat(pieces) + tail == tail && tail[1..] == rest;
    } else {
      hide Spells;
      assert Concat(pieces) + tail == pieces[0] + (Concat(pieces[1..]) + tail);
      SpellReads(s[0], pieces[0], Concat(pieces[1..]) + tail);
      TextReads(s[1..], pieces[1..], rest);
      assert s == [s[0]] + s[1..];
    }
  }

  /** The first character of a literal and the rest of it. */
  lemma PieceSpelled(t: string) returns (piece: string, more: string)
    requires Unquote(t).Done? && t[0] != '"'
    ensures t == piece + more && |more| < |t| && Unquote(more).Done? && Unquote(more).rest == Unquote(t).rest
    ensures var s := Unquote(t).value; s != "" && s[1..] == Unquote(more).value && Spells(s[0], piece)
  {
    if t[0] == '\\' {
      piece := EscapeSpelled(t);
      more := ReadEscape(t).rest;
      hide ReadEscape, Spells;
    } else {
      piece, more := [t[0]], t[1..];
    }
  }

  lemma {:induction false} TextSpelled(t: string) returns (pieces: seq<string>)
    requires Unquote(t).Done?
    ensures SpellsText(Unquote(t).value, pieces) && t == Concat(pieces) + ("\"" + Unquote(t).rest)
    decreases |t|
  {
    if t[0] == '"' {
      pieces := [];
      assert t == "\"" + t[1..] && Concat([]) + t == t;
    } else {
      var piece, more := PieceSpelled(t);
      hide Unquote, Spells;
      var rest := TextSpelled(more);
      pieces := [piece] + rest;
      assert pieces[1..] == rest;
      assert Concat(pieces) == piece + Concat(rest);
      Grouped(piece, Concat(rest), "\"" + Unquote(t).rest);
    }
  }

  lemma Grouped(a: string, b: string, c: string)
    ensures (a + b) + c == a + (b + c)
  {
  }

  // ----- Numbers -----

  function Pow10(k: nat): nat {
    if k == 0 then 1 else 10 * Pow10(k - 1)
  }

  /** The digits of a printed number, from the last one on: the one with weight 10^k is n / 10^k % 10. */
  lemma {:induction false} NatTextDigits(n: nat, k: nat)
    requires k < |NatText(n)|
    ensures Pow10(k) > 0 && NatText(n)[|NatText(n)| - 1 - k] as int == 0x30 + n / Pow10(k) % 10
  {
    PowPositive(k);
    if k > 0 {
      NatTextDigits(n / 10, k - 1);
      DivideTwice(n, Pow10(k - 1));
      assert NatText(n)[..|NatText(n)| - 1] == NatText(n / 10);
    }
  }

  lemma {:induction false} PowPositive(k: nat)
    ensures Pow10(k) > 0
  {
    if k > 0 {
      PowPositive(k - 1);
    }
  }

  lemma DivideTwice(n: nat, d: nat)
    requires d > 0
    ensures n / (10 * d) == n / 10 / d
  {
    var q := n / 10 / d;
    var r := n - 10 * d * q;
    assert n / 10 == d * q + n / 10 % d;
    assert 0 <= r < 10 * d;
    QuotientIs(n, 10 * d, q, r);
  }

  lemma QuotientIs(n: nat, d: nat, q: nat, r: nat)
    requires d > 0 && n == d * q + r && r < d
    ensures n / d == q
  {
    var k := n / d - q;
    assert n == d * (n / d) + n % d;
    assert d * k == d * (n / d) - d * q == r - n % d;
    SmallMultiple(d, k);
  }

  lemma SmallMultiple(d: int, k: int)
    requires -d < d * k < d
    ensures k == 0
  {
  }

  /** An integer is spelled in one way, but zero also with a sign. */
  predicate SpellsNumber(n: int, t: string) {
    t == IntText(n) || (n == 0 && t == "-0")
  }

  lemma NumberReads(n: int, t: string, rest: string)
    requires SpellsNumber(n, t) && -MAX_INTEGER <= n <= MAX_INTEGER && EndsNumber(rest)
    ensures ReadNumber(t + rest) == Done(n, rest)
  {
    if t == IntText(n) {
      ReadNumberPrinted(n, rest);
    } else {
      var s := t + rest;
      assert s[1..] == "0" + rest && ("0" + rest)[1..] == rest;
      assert CountDigits(s[1..]) >= 1 && IntLength(s) == 2;
      assert s[..2] == "-0" && s[2..] == rest;
      assert "-0"[1..] == "0" && DigitsValue("0") == 0 by { assert "0"[..0] == ""; }
      assert IntLength("-0") == 2;
    }
  }

  lemma {:induction false} DigitsText(t: string)
    requires t != "" && (forall i :: 0 <= i < |t| ==> IsDigit(t[i])) && (|t| > 1 ==> t[0] != '0')
    ensures NatText(DigitsValue(t)) == t && (t[0] != '0' ==> DigitsValue(t) > 0)
  {
    var most, last := t[..|t| - 1], t[|t| - 1];
    assert t == most + [last];
    if |t| > 1 {
      assert most[0] == t[0];
      DigitsText(most);
      assert DigitsValue(t) / 10 == DigitsValue(most) && DigitsValue(t) % 10 == Digit(last);
    } else {
      assert most == "";
    }
  }

  /** The text of an integer that was read. */
  lemma NumberSpelled(s: string) returns (t: string)
    requires ReadNumber(s).Done?
    ensures SpellsNumber(ReadNumber(s).value, t) && s == t + ReadNumber(s).rest
  {
    var n := IntLength(s);
    t := s[..n];
    IntLengthLocal(s);
    var sign := if StartsWith(s, '-') then 1 else 0;
    var digits := t[sign..];
    IntegerPart(s);
    DigitsText(digits);
    if sign == 1 {
      assert t == "-" + digits;
    } else {
      assert t == digits;
    }
  }

  lemma IntegerPart(s: string)
    requires ReadNumber(s).Done?
    ensures var n, sign := IntLength(s), if StartsWith(s, '-') then 1 else 0;
            && sign < n && s[..n][sign..] != "" && (forall i :: 0 <= i < n - sign ==> IsDigit(s[..n][sign..][i]))
            && (n - sign > 1 ==> s[..n][sign] != '0')
  {
    var n, sign := IntLength(s), if StartsWith(s, '-') then 1 else 0;
    var digits := s[sign..];
    assert forall i :: 0 <= i < n - sign ==> s[..n][sign..][i] == digits[i];
  }
}
