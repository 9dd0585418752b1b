/**
 The scan that refuses unpaired surrogate escapes before decoding, and why the
 decoder behind it, which would replace them, then never has one to replace.
 */
module Surrogates {
  import opened Wrappers
  import opened JsonText
  import opened JsonGrammar
  import opened Utf8

  const BACKSLASH: Byte := 0x5C
  const LETTER_U: Byte := 0x75

  // ----- What the scan accepts -----

  function HexNumber(d: seq<Byte>): (r: Option<nat>)
    requires |d| == 4
  {
    Hex4(seq(4, i requires 0 <= i < 4 => d[i] as char), 0)
  }

  /** The pieces a well-paired byte string splits into. */
  datatype Piece =
    | Plain(b: Byte)
    | Simple(b: Byte)
    | Single(hex: seq<Byte>)
    | Pair(high: seq<Byte>, low: seq<Byte>)
  {
    predicate Valid() {
      match this
      case Plain(b) => b != BACKSLASH
      case Simple(b) => b != LETTER_U
      case Single(hex) =>
        |hex| == 4 && HexNumber(hex).Some? && !IsHigh(HexNumber(hex).value) && !IsLow(HexNumber(hex).value)
      case Pair(high, low) =>
        && |high| == 4 && HexNumber(high).Some? && IsHigh(HexNumber(high).value)
        && |low| == 4 && HexNumber(low).Some? && IsLow(HexNumber(low).value)
    }

    function Bytes(): seq<Byte> {
      match this
      case Plain(b) => [b]
      case Simple(b) => [BACKSLASH, b]
      case Single(hex) => [BACKSLASH, LETTER_U] + hex
      case Pair(high, low) => [BACKSLASH, LETTER_U] + high + [BACKSLASH, LETTER_U] + low
    }
  }

  function Join(pieces: seq<Piece>): seq<Byte> {
    if pieces == [] then [] else pieces[0].Bytes() + Join(pieces[1..])
  }

  /** The declarative meaning of the scan: the bytes split completely into valid pieces. */
  ghost predicate WellPaired(d: seq<Byte>) {
    exists pieces :: SplitsInto(d, pieces)
  }

  /** The first piece of d, when there is one. */
  function FirstPiece(d: seq<Byte>): (r: Option<Piece>)
    requires d != []
    ensures r.Some? ==> r.value.Valid() && r.value.Bytes() <= d
  {
    if d[0] != BACKSLASH then Some(Plain(d[0]))
    else if |d| < 2 then None
    else if d[1] != LETTER_U then Some(Simple(d[1]))
    else if |d| < 6 || HexNumber(d[2..6]).None? then None
    else
      var n := HexNumber(d[2..6]).value;
      if IsLow(n) then None
      else if !IsHigh(n) then Some(Single(d[2..6]))
      else if |d| < 12 || d[6] != BACKSLASH || d[7] != LETTER_U then None
      else if HexNumber(d[8..12]).None? || !IsLow(HexNumber(d[8..12]).value) then None
      else
        assert d[..12] == [BACKSLASH, LETTER_U] + d[2..6] + [BACKSLASH, LETTER_U] + d[8..12];
        Some(Pair(d[2..6], d[8..12]))
  }

  lemma FirstPieceDetermined(p: Piece, rest: seq<Byte>)
    requires p.Valid()
    ensures p.Bytes() + rest != [] && FirstPiece(p.Bytes() + rest) == Some(p)
  {
    var d := p.Bytes() + rest;
    if p.Single? {
      assert d[2..6] == p.hex;
    } else if p.Pair? {
      assert d[2..6] == p.high && d[8..12] == p.low;
    }
  }

  /** The recursive form of the scan. */
  predicate Paired(d: seq<Byte>)
    decreases |d|
  {
    d == [] || (FirstPiece(d).Some? && Paired(d[|FirstPiece(d).value.Bytes()|..]))
  }

  ghost predicate SplitsInto(d: seq<Byte>, pieces: seq<Piece>) {
    (forall i :: 0 <= i < |pieces| ==> pieces[i].Valid()) && Join(pieces) == d
  }

  lemma {:induction false} PairedSplits(d: seq<Byte>)
    requires Paired(d)
    ensures WellPaired(d)
    decreases |d|
  {
    if d == [] {
      assert SplitsInto(d, []);
    } else {
      var p := FirstPiece(d).value;
      var rest := d[|p.Bytes()|..];
      PairedSplits(rest);
      var pieces :| SplitsInto(rest, pieces);
      var all := [p] + pieces;
      assert all[1..] == pieces;
      assert SplitsInto(d, all);
    }
  }

  lemma {:induction false} SplitIsPaired(d: seq<Byte>, pieces: seq<Piece>)
    requires SplitsInto(d, pieces)
    ensures Paired(d)
    decreases |pieces|
  {
    if pieces != [] {
      var rest := Join(pieces[1..]);
      FirstPieceDetermined(pieces[0], rest);
      assert d[|pieces[0].Bytes()|..] == rest;
      SplitIsPaired(rest, pieces[1..]);
    }
  }

  lemma PairedIsWellPaired(d: seq<Byte>)
    ensures Paired(d) <==> WellPaired(d)
  {
    if Paired(d) {
      PairedSplits(d);
    }
    if pieces :| SplitsInto(d, pieces) {
      SplitIsPaired(d, pieces);
    }
  }

  /** The scan itself: one index over the bytes, never out of bounds. */
  method ValidSurrogates(data: seq<Byte>) returns (ok: bool)
    ensures ok <==> WellPaired(data)
  {
    PairedIsWellPaired(data);
    hide WellPaired, HexNumber;
    var i := 0;
    while i < |data|
      invariant 0 <= i <= |data|
      invariant Paired(data) <==> Paired(data[i..])
    {
      ghost var rest := data[i..];
      if data[i] != BACKSLASH {
        i := i + 1;
        assert data[i..] == rest[1..];
        continue;
      }
      i := i + 1;
      if i >= |data| {
        return false;
      }
      if data[i] != LETTER_U {
        i := i + 1;
        assert data[i..] == rest[2..];
        continue;
      }
      if i + 4 >= |data| {
        return false;
      }
      var n := HexNumber(data[i + 1..i + 5]);
      assert data[i + 1..i + 5] == rest[2..6];
      if n.None? {
        return false;
      }
      i := i + 4;
      if IsLow(n.value) {
        return false;
      }
      if IsHigh(n.value) {
        if i + 6 >= |data| || data[i + 1] != BACKSLASH || data[i + 2] != LETTER_U {
          return false;
        }
        var low := HexNumber(data[i + 3..i + 7]);
        assert data[i + 3..i + 7] == rest[8..12];
        if low.None? || !IsLow(low.value) {
          return false;
        }
        i := i + 6;
      }
      i := i + 1;
      assert data[i..] == rest[|FirstPiece(rest).value.Bytes()|..];
    }
    return true;
  }

  // ----- The scan seen from the text -----

  /** The scan accepts the UTF-8 form of s. */
  predicate TextPaired(s: string) {
    Paired(Encode(s))
  }

  lemma {:induction false} PlainBytes(x: seq<Byte>, d: seq<Byte>)
    requires BACKSLASH !in x
    ensures Paired(x + d) <==> Paired(d)
  {
    if x == [] {
      assert x + d == d;
    } else {
      assert (x + d)[1..] == x[1..] + d;
      PlainBytes(x[1..], d);
    }
  }

  lemma {:induction false} PlainText(s: string, n: nat)
    requires n <= |s| && forall i :: 0 <= i < n ==> s[i] != '\\'
    ensures TextPaired(s) <==> TextPaired(s[n..])
  {
    if n > 0 {
      PlainBytes(EncodeChar(s[0]), Encode(s[1..]));
      PlainText(s[1..], n - 1);
      assert s[1..][n - 1..] == s[n..];
    }
  }

  predicate AsciiUpTo(s: string, n: nat) {
    n <= |s| && forall i :: 0 <= i < n ==> s[i] as int < 0x80
  }

  lemma {:induction false} AsciiBytes(s: string, n: nat)
    requires AsciiUpTo(s, n)
    ensures var d := Encode(s);
            n <= |d| && d[n..] == Encode(s[n..]) && forall i :: 0 <= i < n ==> d[i] == s[i] as int
  {
    if n > 0 {
      AsciiBytes(s[1..], n - 1);
      assert s[1..][n - 1..] == s[n..];
      var d := Encode(s);
      assert d == [s[0] as int] + Encode(s[1..]);
      assert d[1..] == Encode(s[1..]);
      assert d[n..] == d[1..][n - 1..];
    }
  }

  /** A byte below 0x80 after an ASCII prefix is the next character. */
  lemma AsciiNext(s: string, n: nat)
    requires AsciiUpTo(s, n) && n < |Encode(s)| && Encode(s)[n] < 0x80
    ensures AsciiUpTo(s, n + 1) && s[n] as int == Encode(s)[n]
  {
    AsciiBytes(s, n);
    assert Encode(s[n..]) != [];
    assert s[n..] != "";
    assert Encode(s)[n] == Encode(s[n..])[0] == EncodeChar(s[n])[0];
    assert |EncodeChar(s[n])| == 1;
  }

  lemma HexIsAscii(c: char)
    ensures HexValue(c).Some? ==> c as int < 0x80
  {
  }

  /** Four hexadecimal digits are the same in both forms. */
  lemma HexBridge(s: string, n: nat)
    requires AsciiUpTo(s, n)
    ensures var d := Encode(s);
            Hex4(s, n) == if |d| < n + 4 then None else HexNumber(d[n..n + 4])
    ensures Hex4(s, n).Some? ==> AsciiUpTo(s, n + 4)
  {
    var d := Encode(s);
    if Hex4(s, n).Some? {
      assert AsciiUpTo(s, n + 4);
      AsciiBytes(s, n + 4);
    } else if |d| >= n + 4 && HexNumber(d[n..n + 4]).Some? {
      var t := seq(4, i requires 0 <= i < 4 => d[n..n + 4][i] as char);
      HexIsAscii(t[0]);
      HexIsAscii(t[1]);
      HexIsAscii(t[2]);
      HexIsAscii(t[3]);
      AsciiNext(s, n);
      AsciiNext(s, n + 1);
      AsciiNext(s, n + 2);
      AsciiNext(s, n + 3);
    }
  }

  /** Go's decoder: a lone surrogate escape becomes U+FFFD instead of an error. */
  function ReadEscapeRepairing(s: string): (r: Read<char>)
    requires StartsWith(s, '\\')
    ensures r.Done? ==> |r.rest| < |s|
  {
    if |s| < 2 then Fail
    else if s[1] != 'u' then
      var c := SimpleEscape(s[1]);
      if c.Some? then Done(c.value, s[2..]) else Fail
    else
      var h := Hex4(s, 2);
      if h.None? then Fail
      else if !IsHigh(h.value) && !IsLow(h.value) then Done(h.value as char, s[6..])
      else if IsHigh(h.value) && LowHalf(s).Some? then Done(Combine(h.value, LowHalf(s).value), s[12..])
      else Done(0xFFFD as char, s[6..])
  }

  function UnquoteRepairing(s: string): (r: Read<string>)
    ensures r.Done? ==> |r.rest| < |s|
    decreases |s|
  {
    if s == "" || s[0] < ' ' then Fail
    else if s[0] == '"' then Done("", s[1..])
    else if s[0] == '\\' then
      var e := ReadEscapeRepairing(s);
      if e.Fail? then Fail else Prepend(e.value, UnquoteRepairing(e.rest))
    else Prepend(s[0], UnquoteRepairing(s[1..]))
  }

  lemma SimpleEscapeStep(s: string)
    requires StartsWith(s, '\\') && |s| >= 2 && s[1] != 'u'
    ensures TextPaired(s) <==> TextPaired(s[2..])
  {
    var x, rest := EncodeChar(s[1]), Encode(s[2..]);
    assert s[1..][1..] == s[2..];
    var d := Encode(s);
    assert Encode(s[1..]) == x + rest;
    assert d == [BACKSLASH] + (x + rest);
    assert d[1] == x[0] != LETTER_U;
    assert d[2..] == x[1..] + rest;
    assert Paired(d) <==> Paired(d[2..]);
    PlainBytes(x[1..], rest);
  }

  lemma UnicodeEscapeStep(s: string)
    requires StartsWith(s, '\\') && |s| >= 2 && s[1] == 'u'
    ensures TextPaired(s) ==> ReadEscape(s).Done? && TextPaired(ReadEscape(s).rest)
    ensures ReadEscape(s).Done? && TextPaired(ReadEscape(s).rest) ==> TextPaired(s)
    ensures ReadEscape(s).Done? ==> ReadEscapeRepairing(s) == ReadEscape(s)
  {
    var d := Encode(s);
    AsciiBytes(s, 2);
    HexBridge(s, 2);
    if Hex4(s, 2).Some? {
      AsciiBytes(s, 6);
      if IsHigh(Hex4(s, 2).value) {
        LowHalfBridge(s);
      }
    }
  }

  lemma LowHalfBridge(s: string)
    requires AsciiUpTo(s, 6)
    ensures var d := Encode(s);
            var low := if |d| < 12 || d[6] != BACKSLASH || d[7] != LETTER_U then None else HexNumber(d[8..12]);
            LowHalf(s) == if low.Some? && IsLow(low.value) then low else None
    ensures LowHalf(s).Some? ==> AsciiUpTo(s, 12) && Encode(s)[12..] == Encode(s[12..])
  {
    var d := Encode(s);
    if |d| >= 12 && d[6] == BACKSLASH && d[7] == LETTER_U {
      AsciiNext(s, 6);
      AsciiNext(s, 7);
      HexBridge(s, 8);
    } else if |s| >= 12 && s[6] == '\\' && s[7] == 'u' {
      AsciiBytes(s, 8);
      HexBridge(s, 8);
    }
    if LowHalf(s).Some? {
      AsciiBytes(s, 12);
    }
  }

  /** A string literal keeps the scan in step, and behind the scan the decoder repairs nothing. */
  lemma {:induction false} UnquotePaired(s: string)
    ensures Unquote(s).Done? ==> (TextPaired(s) <==> TextPaired(Unquote(s).rest))
    ensures TextPaired(s) ==> UnquoteRepairing(s) == Unquote(s)
    decreases |s|
  {
    if s == "" || s[0] < ' ' {
    } else if s[0] == '"' {
      PlainText(s, 1);
    } else if s[0] != '\\' {
      PlainText(s, 1);
      UnquotePaired(s[1..]);
    } else if |s| >= 2 {
      if s[1] == 'u' { UnicodeEscapeStep(s); } else { SimpleEscapeStep(s); }
      if ReadEscape(s).Done? { UnquotePaired(ReadEscape(s).rest); }
    }
  }

  // ----- Whole values -----

  lemma {:induction false} SkipSpacePaired(s: string)
    ensures TextPaired(s) <==> TextPaired(SkipSpace(s))
  {
    if s != "" && IsSpace(s[0]) {
      PlainText(s, 1);
      SkipSpacePaired(s[1..]);
    }
  }

  lemma ReadNumberPaired(s: string)
    ensures ReadNumber(s).Done? ==> (TextPaired(s) <==> TextPaired(ReadNumber(s).rest))
  {
    var n := IntLength(s);
    var sign := if StartsWith(s, '-') then 1 else 0;
    forall i | 0 <= i < n
      ensures s[i] != '\\'
    {
      if i >= sign { assert s[i] == s[sign..][i - sign]; }
    }
    PlainText(s, n);
  }

  lemma ReadKeyPaired(u: Unicode, s: string, acc: map<string, Json>)
    ensures var k := ReadKey(u, s, acc); k.Done? ==> (TextPaired(s) <==> TextPaired(k.rest))
  {
    if ReadKey(u, s, acc).Done? {
      var t := SkipSpace(s);
      SkipSpacePaired(s);
      PlainText(t, 1);
      UnquotePaired(t[1..]);
      var q := Unquote(t[1..]);
      SkipSpacePaired(q.rest);
      PlainText(SkipSpace(q.rest), 1);
    }
  }

  /** Reading any value keeps the scan in step. */
  lemma {:induction false} ReadValuePaired(u: Unicode, s: string, depth: nat)
    ensures var r := ReadValue(u, s, depth); r.Done? ==> (TextPaired(s) <==> TextPaired(r.rest))
    decreases |s|, 0
  {
    var t := SkipSpace(s);
    SkipSpacePaired(s);
    if ReadValue(u, s, depth).Done? {
      if t[0] == '"' {
        PlainText(t, 1);
        UnquotePaired(t[1..]);
      } else if t[0] == '{' || t[0] == '[' {
        PlainText(t, 1);
        var body := SkipSpace(t[1..]);
        SkipSpacePaired(t[1..]);
        if StartsWith(body, if t[0] == '{' then '}' else ']') {
          PlainText(body, 1);
        } else if t[0] == '{' {
          ReadMembersPaired(u, t[1..], depth, map[]);
        } else {
          ReadItemsPaired(u, t[1..], depth, []);
        }
      } else {
        ReadLiteralPaired(u, s, depth);
      }
    }
  }

  lemma ReadLiteralPaired(u: Unicode, s: string, depth: nat)
    requires var t := SkipSpace(s); t != "" && t[0] != '"' && t[0] != '{' && t[0] != '['
    ensures var r := ReadValue(u, s, depth); r.Done? ==> (TextPaired(SkipSpace(s)) <==> TextPaired(r.rest))
  {
    var t := SkipSpace(s);
    if ReadLiteral(t).Done? {
      PlainText(t, if "false" <= t then 5 else 4);
    } else {
      ReadNumberPaired(t);
    }
  }

  lemma {:induction false} ReadMembersPaired(u: Unicode, s: string, depth: nat, acc: map<string, Json>)
    ensures var r := ReadMembers(u, s, depth, acc); r.Done? ==> (TextPaired(s) <==> TextPaired(r.rest))
    decreases |s|, 1
  {
    if ReadMembers(u, s, depth, acc).Done? {
      var k := ReadKey(u, s, acc);
      ReadKeyPaired(u, s, acc);
      ReadValuePaired(u, k.rest, depth + 1);
      var v := ReadValue(u, k.rest, depth + 1);
      MoreMembersPaired(u, v.rest, depth, acc[k.value := v.value]);
    }
  }

  lemma {:induction false} MoreMembersPaired(u: Unicode, s: string, depth: nat, acc: map<string, Json>)
    ensures var r := MoreMembers(u, s, depth, acc); r.Done? ==> (TextPaired(s) <==> TextPaired(r.rest))
    decreases |s|, 2
  {
    var t := SkipSpace(s);
    SkipSpacePaired(s);
    if StartsWith(t, '}') || StartsWith(t, ',') { PlainText(t, 1); }
    if StartsWith(t, ',') { ReadMembersPaired(u, t[1..], depth, acc); }
  }

  lemma {:induction false} ReadItemsPaired(u: Unicode, s: string, depth: nat, acc: seq<Json>)
    ensures var r := ReadItems(u, s, depth, acc); r.Done? ==> (TextPaired(s) <==> TextPaired(r.rest))
    decreases |s|, 1
  {
    if ReadItems(u, s, depth, acc).Done? {
      ReadValuePaired(u, s, depth + 1);
      var v := ReadValue(u, s, depth + 1);
      MoreItemsPaired(u, v.rest, depth, acc + [v.value]);
    }
  }

  lemma {:induction false} MoreItemsPaired(u: Unicode, s: string, depth: nat, acc: seq<Json>)
    ensures var r := MoreItems(u, s, depth, acc); r.Done? ==> (TextPaired(s) <==> TextPaired(r.rest))
    decreases |s|, 2
  {
    var t := SkipSpace(s);
    SkipSpacePaired(s);
    if StartsWith(t, ']') || StartsWith(t, ',') { PlainText(t, 1); }
    if StartsWith(t, ',') { ReadItemsPaired(u, t[1..], depth, acc); }
  }

  /** Every text the strict reader accepts passes the scan: the scan refuses no good input. */
  lemma ReadableTextPaired(u: Unicode, s: string)
    ensures ReadText(u, s).Some? ==> TextPaired(s)
  {
    if ReadText(u, s).Some? {
      var r := ReadValue(u, s, 0).rest;
      ReadValuePaired(u, s, 0);
      SkipSpacePaired(r);
      assert Encode("") == [];
    }
  }
}
