/**
 The grammar of canonical JSON profile v1: values, lexemes, the reader both
 implementations refine, and the printer. A text is a sequence of Unicode scalars.
 */
module JsonText {
  import opened Wrappers
  import opened Ordering

  const MAX_DEPTH: nat := 64
  const MAX_INTEGER: int := 9007199254740991

  datatype Json =
    | Null
    | Bool(b: bool)
    | Number(n: int)
    | String(s: string)
    | Array(items: seq<Json>)
    | Object(members: map<string, Json>)

  /** Outcome of reading from the front of a text: what was read and what is left. */
  datatype Read<+T> = Fail | Done(value: T, rest: string)

  /** More combining acute accents in a row than the bound on mark runs admits. */
  const ACCENTS: string := seq(31, _ => 0x301 as char)

  /** Two hundred letters QA, each of which NFC writes as two characters. */
  const QAS: string := seq(200, _ => 0x958 as char)

  /** Unicode tables: NFC and the bound on mark runs. */
  datatype Unicode = Unicode(nfc: string -> string, marksOk: string -> bool) {
    ghost predicate Lawful() {
      && (forall s :: marksOk(s) ==> marksOk(nfc(s)) && nfc(nfc(s)) == nfc(s))
      && (forall s :: IsAscii(s) ==> marksOk(s) && nfc(s) == s)
      && !marksOk(ACCENTS) && |nfc(QAS)| == 400
    }
  }

  predicate IsAscii(s: string) {
    forall i :: 0 <= i < |s| ==> s[i] < 128 as char
  }

  // ----- White space -----

  predicate IsSpace(c: char) {
    c == ' ' || c == '\t' || c == '\r' || c == '\n'
  }

  function SkipSpace(s: string): (r: string)
    ensures |r| <= |s|
    ensures r != "" ==> !IsSpace(r[0])
  {
    if s != "" && IsSpace(s[0]) then SkipSpace(s[1..]) else s
  }

  predicate StartsWith(s: string, c: char) {
    s != "" && s[0] == c
  }

  // ----- Strings -----

  function HexDigit(n: nat): char
    requires n < 16
  {
    if n < 10 then ('0' as int + n) as char else ('a' as int + n - 10) as char
  }

  function HexValue(c: char): (r: Option<nat>)
    ensures r.Some? ==> r.value < 16
  {
    if '0' <= c <= '9' then Some(c as int - '0' as int)
    else if 'a' <= c <= 'f' then Some(c as int - 'a' as int + 10)
    else if 'A' <= c <= 'F' then Some(c as int - 'A' as int + 10)
    else None
  }

  /** The number written by the four hexadecimal digits s[i..i+4]. */
  function Hex4(s: string, i: nat): (r: Option<nat>)
    ensures r.Some? ==> r.value < 0x10000 && |s| >= i + 4
  {
    if |s| < i + 4 then None else
      var a, b, c, d := HexValue(s[i]), HexValue(s[i + 1]), HexValue(s[i + 2]), HexValue(s[i + 3]);
      if a.Some? && b.Some? && c.Some? && d.Some?
      then Some(((a.value * 16 + b.value) * 16 + c.value) * 16 + d.value) else None
  }

  predicate IsHigh(n: nat) { 0xD800 <= n < 0xDC00 }

  predicate IsLow(n: nat) { 0xDC00 <= n < 0xE000 }

  function SimpleEscape(c: char): Option<char> {
    match c
    case '"' => Some('"')
    case '\\' => Some('\\')
    case '/' => Some('/')
    case 'b' => Some(8 as char)
    case 'f' => Some(12 as char)
    case 'n' => Some('\n')
    case 'r' => Some('\r')
    case 't' => Some('\t')
    case _ => None
  }

  /** The low half that completes a surrogate pair when s[6..] starts with its escape. */
  function LowHalf(s: string): (r: Option<nat>)
    ensures r.Some? ==> IsLow(r.value) && |s| >= 12
  {
    if |s| >= 12 && s[6] == '\\' && s[7] == 'u' && Hex4(s, 8).Some? && IsLow(Hex4(s, 8).value)
    then Hex4(s, 8) else None
  }

  function Combine(high: nat, low: nat): char
    requires IsHigh(high) && IsLow(low)
  {
    (0x10000 + (high - 0xD800) * 0x400 + (low - 0xDC00)) as char
  }

  /** The scalar an escape sequence at the front of s denotes, and what follows it. */
  function ReadEscape(s: string): (r: Read<char>)
    requires StartsWith(s, '\\')
    ensures r.Done? ==> |r.rest| < |s|
  {
    if |s| < 2 then Fail
    else if s[1] != 'u' then
      var c := SimpleEscape(s[1]);
      if c.Some? then Done(c.value, s[2..]) else Fail
    else
      var h := Hex4(s, 2);
      if h.None? || IsLow(h.value) then Fail
      else if !IsHigh(h.value) then Done(h.value as char, s[6..])
      else
        var l := LowHalf(s);
        if l.Some? then Done(Combine(h.value, l.value), s[12..]) else Fail
  }

  /** The string literal whose opening quote has been read. Lone surrogates are refused. */
  function Unquote(s: string): (r: Read<string>)
    ensures r.Done? ==> |r.rest| < |s|
    decreases |s|
  {
    if s == "" || s[0] < ' ' then Fail
    else if s[0] == '"' then Done("", s[1..])
    else if s[0] == '\\' then
      var e := ReadEscape(s);
      if e.Fail? then Fail else Prepend(e.value, Unquote(e.rest))
    else Prepend(s[0], Unquote(s[1..]))
  }

  function Prepend(c: char, r: Read<string>): Read<string> {
    if r.Fail? then Fail else Done([c] + r.value, r.rest)
  }

  function QuoteChar(c: char): string {
    match c
    case '"' => "\\\""
    case '\\' => "\\\\"
    case '\n' => "\\n"
    case '\r' => "\\r"
    case '\t' => "\\t"
    case _ =>
      if c == 8 as char then "\\b"
      else if c == 12 as char then "\\f"
      else if c < ' ' then "\\u00" + [HexDigit(c as int / 16), HexDigit(c as int % 16)]
      else [c]
  }

  function QuoteBody(s: string): string {
    if s == "" then "" else QuoteChar(s[0]) + QuoteBody(s[1..])
  }

  function Quote(s: string): string {
    "\"" + QuoteBody(s) + "\""
  }

  lemma UnquoteQuotedChar(c: char, rest: string)
    ensures Unquote(QuoteChar(c) + rest) == Prepend(c, Unquote(rest))
  {
    var q := QuoteChar(c);
    var s := q + rest;
    assert s[|q|..] == rest;
    if q[0] == '\\' {
      if q[1] == 'u' {
        assert HexValue(s[2]) == Some(0) && HexValue(s[3]) == Some(0);
        assert HexValue(s[4]) == Some(c as int / 16) && HexValue(s[5]) == Some(c as int % 16);
        assert Hex4(s, 2) == Some(c as int);
      }
      assert ReadEscape(s) == Done(c, rest);
    }
  }

  lemma {:induction false} UnquoteQuoted(s: string, rest: string)
    ensures Unquote(QuoteBody(s) + "\"" + rest) == Done(s, rest)
  {
    if s == "" {
      assert QuoteBody(s) + "\"" + rest == "\"" + rest;
      assert ("\"" + rest)[1..] == rest;
    } else {
      var tail := QuoteBody(s[1..]) + "\"" + rest;
      assert QuoteBody(s) + "\"" + rest == QuoteChar(s[0]) + tail;
      UnquoteQuotedChar(s[0], tail);
      UnquoteQuoted(s[1..], rest);
      assert s == [s[0]] + s[1..];
    }
  }

  // ----- Numbers -----

  predicate IsDigit(c: char) { '0' <= c <= '9' }

  function CountDigits(s: string): (n: nat)
    ensures n <= |s|
    ensures forall i :: 0 <= i < n ==> IsDigit(s[i])
    ensures n < |s| ==> !IsDigit(s[n])
  {
    if s == "" || !IsDigit(s[0]) then 0 else 1 + CountDigits(s[1..])
  }

  function Digit(c: char): (v: int)
    requires IsDigit(c)
    ensures 0 <= v < 10
  {
    c as int - '0' as int
  }

  function DigitsValue(s: string): (v: int)
    requires forall i :: 0 <= i < |s| ==> IsDigit(s[i])
    ensures v >= 0
  {
    if s == "" then 0 else DigitsValue(s[..|s| - 1]) * 10 + Digit(s[|s| - 1])
  }

  /** Length of -?(0|[1-9][0-9]*) at the front of s, 0 when it is absent. */
  function IntLength(s: string): (n: nat)
    ensures n <= |s|
  {
    var sign := if StartsWith(s, '-') then 1 else 0;
    var digits := CountDigits(s[sign..]);
    if digits == 0 then 0 else if s[sign] == '0' then sign + 1 else sign + digits
  }

  function IntValue(s: string): int
    requires IntLength(s) == |s| > 0
  {
    if s[0] == '-' then -DigitsValue(s[1..]) else DigitsValue(s)
  }

  predicate StartsFraction(s: string) {
    s != "" && (s[0] == '.' || s[0] == 'e' || s[0] == 'E')
  }

  lemma IntLengthLocal(s: string)
    ensures var n := IntLength(s); n > 0 ==> IntLength(s[..n]) == n
  {
    var n := IntLength(s);
    if n > 0 {
      var sign := if StartsWith(s, '-') then 1 else 0;
      var t := s[..n][sign..];
      assert forall i :: 0 <= i < |t| ==> t[i] == s[sign..][i];
      assert CountDigits(t) == |t| by { AllDigits(t); }
    }
  }

  lemma {:induction false} AllDigits(s: string)
    requires forall i :: 0 <= i < |s| ==> IsDigit(s[i])
    ensures CountDigits(s) == |s|
  {
    if s != "" {
      AllDigits(s[1..]);
    }
  }

  /** An integer token in the safe range; fraction and exponent spellings are refused. */
  function ReadNumber(s: string): (r: Read<int>)
    ensures r.Done? ==> |r.rest| < |s|
  {
    var n := IntLength(s);
    if n == 0 || StartsFraction(s[n..]) then Fail
    else
      IntLengthLocal(s);
      var v := IntValue(s[..n]);
      if -MAX_INTEGER <= v <= MAX_INTEGER then Done(v, s[n..]) else Fail
  }

  function NatText(n: nat): (r: string)
    ensures r != "" && (forall i :: 0 <= i < |r| ==> IsDigit(r[i]))
    ensures r[0] == '0' <==> n == 0
    ensures n < 10 <==> |r| == 1
  {
    var last := [('0' as int + n % 10) as char];
    if n < 10 then last else NatText(n / 10) + last
  }

  function IntText(n: int): string {
    (if n < 0 then "-" else "") + NatText(if n < 0 then -n else n)
  }

  lemma {:induction false} NatTextValue(n: nat)
    ensures DigitsValue(NatText(n)) == n
  {
    var r := NatText(n);
    if n >= 10 {
      NatTextValue(n / 10);
      assert r[..|r| - 1] == NatText(n / 10);
    } else {
      assert r[..0] == "";
    }
  }

  predicate EndsNumber(rest: string) {
    rest == "" || (!IsDigit(rest[0]) && !StartsFraction(rest))
  }

  lemma {:induction false} CountDigitsAppend(s: string, rest: string)
    requires forall i :: 0 <= i < |s| ==> IsDigit(s[i])
    requires rest == "" || !IsDigit(rest[0])
    ensures CountDigits(s + rest) == |s|
  {
    if s == "" {
      assert s + rest == rest;
    } else {
      assert (s + rest)[1..] == s[1..] + rest;
      CountDigitsAppend(s[1..], rest);
    }
  }

  lemma IntLengthPrinted(n: int, rest: string)
    requires rest == "" || !IsDigit(rest[0])
    ensures IntLength(IntText(n) + rest) == |IntText(n)|
  {
    var digits := NatText(if n < 0 then -n else n);
    CountDigitsAppend(digits, rest);
    SignedLength(n < 0, digits, rest);
  }

  lemma SignedLength(negative: bool, digits: string, rest: string)
    requires digits != "" && IsDigit(digits[0]) && CountDigits(digits + rest) == |digits|
    requires digits[0] == '0' ==> |digits| == 1
    ensures var t := (if negative then "-" else "") + digits; IntLength(t + rest) == |t|
  {
    var sign := if negative then "-" else "";
    var s := sign + digits + rest;
    assert s[|sign|..] == digits + rest;
    assert s[|sign|] == digits[0];
  }

  lemma IntValuePrinted(n: int)
    ensures IntLength(IntText(n)) == |IntText(n)| && IntValue(IntText(n)) == n
  {
    IntLengthPrinted(n, "");
    assert IntText(n) + "" == IntText(n);
    NatTextValue(if n < 0 then -n else n);
    if n < 0 {
      assert IntText(n)[1..] == NatText(-n);
    }
  }

  lemma ReadNumberPrinted(n: int, rest: string)
    requires -MAX_INTEGER <= n <= MAX_INTEGER && EndsNumber(rest)
    ensures ReadNumber(IntText(n) + rest) == Done(n, rest)
  {
    IntLengthPrinted(n, rest);
    IntValuePrinted(n);
    var t := IntText(n);
    assert (t + rest)[..|t|] == t && (t + rest)[|t|..] == rest;
  }

  // ----- The full number lexeme -----

  /** Length of a complete (\.[0-9]+) at the front of s. */
  function FractionLength(s: string): (n: nat)
    ensures n <= |s|
  {
    if !StartsWith(s, '.') || CountDigits(s[1..]) == 0 then 0 else 1 + CountDigits(s[1..])
  }

  /** Length of a complete ([eE][+-]?[0-9]+) at the front of s. */
  function ExponentLength(s: string): (n: nat)
    ensures n <= |s|
  {
    if !StartsWith(s, 'e') && !StartsWith(s, 'E') then 0
    else
      var sign := if |s| > 1 && (s[1] == '+' || s[1] == '-') then 2 else 1;
      if CountDigits(s[sign..]) == 0 then 0 else sign + CountDigits(s[sign..])
  }

  /** Length of the longest JSON number at the front of s, 0 when there is none. */
  function NumberLength(s: string): (n: nat)
    ensures IntLength(s) <= n <= |s|
    ensures IntLength(s) == 0 ==> n == 0
  {
    var i := IntLength(s);
    if i == 0 then 0
    else
      var f := FractionLength(s[i..]);
      i + f + ExponentLength(s[i + f..])
  }

  predicate IsPlainInteger(lexeme: string) {
    '.' !in lexeme && 'e' !in lexeme && 'E' !in lexeme
  }

  lemma IntLexemePlain(s: string)
    ensures IsPlainInteger(s[..IntLength(s)])
  {
    var sign := if StartsWith(s, '-') then 1 else 0;
    forall i | 0 <= i < IntLength(s)
      ensures s[i] == '-' || IsDigit(s[i])
    {
      if i >= sign { assert s[i] == s[sign..][i - sign]; }
    }
  }

  /** A number lexeme is free of fraction and exponent exactly when its integer part is all of it. */
  lemma PlainIntegerLexeme(s: string)
    ensures var n := NumberLength(s);
            IsPlainInteger(s[..n]) <==> n == IntLength(s)
  {
    var i, n := IntLength(s), NumberLength(s);
    IntLexemePlain(s);
    if n > i {
      assert s[i..][0] == s[i] == s[..n][i];
    }
  }
}
