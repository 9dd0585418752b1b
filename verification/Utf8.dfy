/**
 UTF-8 as section 3 of RFC 3629 defines it: the byte form the Go code works on,
 and why its byte order is the code-point order of the TypeScript code.
 */
module Utf8 {
  import opened Wrappers
  import Ordering

  type Byte = b: nat | b < 256

  function EncodeChar(c: char): (r: seq<Byte>)
    ensures 1 <= |r| <= 4
    ensures |r| == 1 <==> c as int < 0x80
    ensures |r| == 1 ==> r[0] == c as int
    ensures |r| > 1 ==> forall b :: b in r ==> b >= 0x80
  {
    var n := c as int;
    var low, high := Trail(n), Trail(n / 64);
    if n < 0x80 then [n]
    else if n < 0x800 then [0xC0 + n / 64, low]
    else if n < 0x10000 then [0xE0 + n / 64 / 64, high, low]
    else [0xF0 + n / 64 / 64 / 64, Trail(n / 64 / 64), high, low]
  }

  /** A continuation byte: the tag 10 and the low six bits of n. */
  function Trail(n: nat): Byte {
    0x80 + n % 64
  }

  function Encode(s: string): seq<Byte> {
    if s == "" then [] else EncodeChar(s[0]) + Encode(s[1..])
  }

  predicate Continues(b: seq<Byte>, n: nat) {
    |b| > n && forall i :: 1 <= i <= n ==> 0x80 <= b[i] < 0xC0
  }

  /** One scalar from the front of b, or None where utf8.Valid refuses b. */
  function DecodeChar(b: seq<Byte>): (r: Option<char>)
    requires b != []
  {
    if b[0] < 0x80 then Some(b[0] as char)
    else if 0xC2 <= b[0] < 0xE0 && Continues(b, 1) then
      Some(Shift(b[0] as int - 0xC0, b[1]) as char)
    else if 0xE0 <= b[0] < 0xF0 && Continues(b, 2) then
      var n := Shift(Shift(b[0] as int - 0xE0, b[1]), b[2]);
      if 0x800 <= n < 0xD800 || 0xE000 <= n then Some(n as char) else None
    else if 0xF0 <= b[0] < 0xF5 && Continues(b, 3) then
      var n := Shift(Shift(Shift(b[0] as int - 0xF0, b[1]), b[2]), b[3]);
      if 0x10000 <= n < 0x110000 then Some(n as char) else None
    else None
  }

  function Shift(n: int, b: Byte): int {
    n * 64 + (b as int - 0x80)
  }

  lemma ShiftThenSplit(n: nat, b: Byte)
    requires 0x80 <= b < 0xC0
    ensures Shift(n, b) / 64 == n && Trail(Shift(n, b)) == b
  {
  }

  lemma DecodeCharLength(b: seq<Byte>)
    requires b != [] && DecodeChar(b).Some?
    ensures EncodeChar(DecodeChar(b).value) <= b
  {
    if b[0] >= 0x80 {
      if b[0] < 0xE0 {
        ShiftThenSplit(b[0] - 0xC0, b[1]);
        assert EncodeChar(DecodeChar(b).value) == [b[0], b[1]] == b[..2];
      } else if b[0] < 0xF0 {
        var n := Shift(b[0] as int - 0xE0, b[1]);
        ShiftThenSplit(b[0] - 0xE0, b[1]);
        ShiftThenSplit(n, b[2]);
        assert EncodeChar(DecodeChar(b).value) == [b[0], b[1], b[2]] == b[..3];
      } else {
        var m := Shift(b[0] as int - 0xF0, b[1]);
        var n := Shift(m, b[2]);
        ShiftThenSplit(b[0] - 0xF0, b[1]);
        ShiftThenSplit(m, b[2]);
        ShiftThenSplit(n, b[3]);
        assert EncodeChar(DecodeChar(b).value) == [b[0], b[1], b[2], b[3]] == b[..4];
      }
    }
  }

  lemma DecodeCharEncoded(c: char, rest: seq<Byte>)
    ensures DecodeChar(EncodeChar(c) + rest) == Some(c)
  {
  }

  /** The text of valid UTF-8, None for every other byte string. */
  function Decode(b: seq<Byte>): (r: Option<string>)
    ensures r.Some? ==> Encode(r.value) == b
  {
    if b == [] then Some("")
    else
      var c := DecodeChar(b);
      if c.None? then None else
        DecodeCharLength(b);
        var n := |EncodeChar(c.value)|;
        var rest := Decode(b[n..]);
        if rest.None? then None else
          assert b == EncodeChar(c.value) + b[n..];
          Some([c.value] + rest.value)
  }

  lemma {:induction false} DecodeEncoded(s: string)
    ensures Decode(Encode(s)) == Some(s)
  {
    if s != "" {
      var x, y := EncodeChar(s[0]), Encode(s[1..]);
      DecodeCharEncoded(s[0], y);
      assert (x + y)[|x|..] == y;
      DecodeEncoded(s[1..]);
      assert s == [s[0]] + s[1..];
    }
  }

  lemma {:induction false} EncodeAppend(s: string, t: string)
    ensures Encode(s + t) == Encode(s) + Encode(t)
  {
    if s == "" {
      assert s + t == t;
    } else {
      assert (s + t)[1..] == s[1..] + t;
      EncodeAppend(s[1..], t);
    }
  }

  lemma EncodeInjective(s: string, t: string)
    requires Encode(s) == Encode(t)
    ensures s == t
  {
    DecodeEncoded(s);
    DecodeEncoded(t);
  }

  // ----- Go strings, which are bytes and need not be UTF-8 -----

  /** The text of a byte string, with U+FFFD for each byte that is not part of a scalar. */
  function Repair(b: seq<Byte>): (r: string)
    ensures r == "" <==> b == []
  {
    if b == [] then "" else
      var c := DecodeChar(b);
      if c.None? then [0xFFFD as char] + Repair(b[1..])
      else
        DecodeCharLength(b);
        [c.value] + Repair(b[|EncodeChar(c.value)|..])
  }

  lemma {:induction false} RepairEncoded(s: string)
    ensures Repair(Encode(s)) == s
  {
    if s != "" {
      var x, y := EncodeChar(s[0]), Encode(s[1..]);
      DecodeCharEncoded(s[0], y);
      assert (x + y)[|x|..] == y;
      RepairEncoded(s[1..]);
      assert s == [s[0]] + s[1..];
    }
  }

  /** The byte string that comes back when a Go string has been written out as JSON text. */
  function Clean(b: seq<Byte>): seq<Byte> {
    Encode(Repair(b))
  }

  lemma CleanRepairs(b: seq<Byte>)
    ensures Repair(Clean(b)) == Repair(b) && Clean(Clean(b)) == Clean(b)
    ensures Clean(b) == [] <==> b == []
  {
    RepairEncoded(Repair(b));
  }

  /** UTF-8 comes back unchanged, and nothing else does. */
  lemma {:induction false} CleanExactly(b: seq<Byte>)
    ensures Clean(b) == b <==> Decode(b).Some?
  {
    if Decode(b).Some? {
      RepairEncoded(Decode(b).value);
    } else if Clean(b) == b {
      DecodeEncoded(Repair(b));
    }
  }

  lemma {:induction false} EncodeLength(s: string)
    ensures |s| <= |Encode(s)| <= 4 * |s|
  {
    if s != "" {
      EncodeLength(s[1..]);
    }
  }

  /** strings.Compare and slices.Sort on Go strings: strict lexicographic order of bytes. */
  predicate BytesLess(a: seq<Byte>, b: seq<Byte>) {
    b != [] && (a == [] || a[0] < b[0] || (a[0] == b[0] && BytesLess(a[1..], b[1..])))
  }

  lemma {:induction false} BytesLessPrefix(p: seq<Byte>, a: seq<Byte>, b: seq<Byte>)
    ensures BytesLess(p + a, p + b) <==> BytesLess(a, b)
  {
    if p == [] {
      assert p + a == a && p + b == b;
    } else {
      assert (p + a)[1..] == p[1..] + a && (p + b)[1..] == p[1..] + b;
      BytesLessPrefix(p[1..], a, b);
    }
  }

  lemma TrailOrder(m: nat, n: nat)
    requires m < n
    ensures m / 64 < n / 64 || (m / 64 == n / 64 && Trail(m) < Trail(n))
  {
  }

  /** Encodings of two scalars first differ at one position, in the order of the scalars. */
  lemma EncodeCharOrder(c: char, d: char) returns (k: nat)
    requires c < d
    ensures var x, y := EncodeChar(c), EncodeChar(d);
            k < |x| && k < |y| && x[..k] == y[..k] && x[k] < y[k]
  {
    var x, y := EncodeChar(c), EncodeChar(d);
    var m, n := c as int, d as int;
    if |x| == |y| {
      TrailOrder(m, n);
      if m / 64 < n / 64 {
        TrailOrder(m / 64, n / 64);
        if m / 64 / 64 < n / 64 / 64 { TrailOrder(m / 64 / 64, n / 64 / 64); }
      }
    }
    k := if x[0] < y[0] then 0 else if x[1] < y[1] then 1 else if x[2] < y[2] then 2 else 3;
  }

  lemma CharDecides(c: char, d: char, a: seq<Byte>, b: seq<Byte>)
    requires c < d
    ensures BytesLess(EncodeChar(c) + a, EncodeChar(d) + b)
    ensures !BytesLess(EncodeChar(d) + b, EncodeChar(c) + a)
  {
    var k := EncodeCharOrder(c, d);
    ByteDecides(EncodeChar(c), EncodeChar(d), k, a, b);
  }

  lemma ByteDecides(x: seq<Byte>, y: seq<Byte>, k: nat, a: seq<Byte>, b: seq<Byte>)
    requires k < |x| && k < |y| && x[..k] == y[..k] && x[k] < y[k]
    ensures BytesLess(x + a, y + b) && !BytesLess(y + b, x + a)
  {
    var p, s, t := x[..k], x[k..] + a, y[k..] + b;
    assert x + a == p + s && y + b == p + t;
    BytesLessPrefix(p, s, t);
    BytesLessPrefix(p, t, s);
  }

  /** The byte order of UTF-8 strings is the code-point order of their texts. */
  lemma {:induction false} ByteOrderIsScalarOrder(s: string, t: string)
    ensures BytesLess(Encode(s), Encode(t)) <==> Ordering.Less(s, t)
  {
    if s != "" && t != "" {
      if s[0] < t[0] {
        CharDecides(s[0], t[0], Encode(s[1..]), Encode(t[1..]));
      } else if t[0] < s[0] {
        CharDecides(t[0], s[0], Encode(t[1..]), Encode(s[1..]));
      } else {
        BytesLessPrefix(EncodeChar(s[0]), Encode(s[1..]), Encode(t[1..]));
        ByteOrderIsScalarOrder(s[1..], t[1..]);
      }
    }
  }

  predicate IsTrail(b: Byte) {
    0x80 <= b < 0xC0
  }

  /** The table of section 3 of RFC 3629, from the bytes back to the scalar. */
  lemma EncodeCharBits(c: char)
    ensures var b, n := EncodeChar(c), c as int;
            || (|b| == 1 && n < 0x80 && b[0] == n)
            || (|b| == 2 && 0x80 <= n < 0x800 && 0xC0 <= b[0] < 0xE0 && IsTrail(b[1]) &&
                n == (b[0] as int - 0xC0) * 0x40 + (b[1] as int - 0x80))
            || (|b| == 3 && 0x800 <= n < 0x10000 && 0xE0 <= b[0] < 0xF0 && IsTrail(b[1]) && IsTrail(b[2]) &&
                n == (b[0] as int - 0xE0) * 0x1000 + (b[1] as int - 0x80) * 0x40 + (b[2] as int - 0x80))
            || (|b| == 4 && 0x10000 <= n < 0x110000 && 0xF0 <= b[0] < 0xF8 &&
                IsTrail(b[1]) && IsTrail(b[2]) && IsTrail(b[3]) &&
                n == (b[0] as int - 0xF0) * 0x40000 + (b[1] as int - 0x80) * 0x1000 +
                     (b[2] as int - 0x80) * 0x40 + (b[3] as int - 0x80))
  {
    var n := c as int;
    assert n == 64 * (n / 64) + n % 64;
    assert n / 64 == 64 * (n / 64 / 64) + n / 64 % 64;
    assert n / 64 / 64 == 64 * (n / 64 / 64 / 64) + n / 64 / 64 % 64;
  }

  /** One byte string precedes another where they first differ, or as a proper prefix. */
  lemma {:induction false} BytesLessExactly(a: seq<Byte>, b: seq<Byte>)
    ensures BytesLess(a, b) <==>
            exists i :: 0 <= i <= |a| && i < |b| && a[..i] == b[..i] && (i == |a| || a[i] < b[i])
  {
    if a != [] && b != [] {
      if a[0] == b[0] {
        BytesLessExactly(a[1..], b[1..]);
        if BytesLess(a[1..], b[1..]) {
          var i :| 0 <= i <= |a[1..]| && i < |b[1..]| && a[1..][..i] == b[1..][..i] &&
                   (i == |a[1..]| || a[1..][i] < b[1..][i]);
          assert a[..i + 1] == [a[0]] + a[1..][..i] && b[..i + 1] == [b[0]] + b[1..][..i];
        }
        if i :| 0 <= i <= |a| && i < |b| && a[..i] == b[..i] && (i == |a| || a[i] < b[i]) {
          assert a[1..][..i - 1] == a[..i][1..] == b[..i][1..] == b[1..][..i - 1];
        }
      } else {
        forall i | 0 < i <= |a| && i < |b|
          ensures a[..i] != b[..i]
        {
          assert a[..i][0] == a[0] && b[..i][0] == b[0];
        }
        assert a[..0] == b[..0];
      }
    } else {
      assert a[..0] == b[..0];
    }
  }
}
