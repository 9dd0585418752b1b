/**
 The TypeScript implementation of canonical JSON profile v1: an explicit cursor
 parser and its own ordering. A thrown error is None. Positions count scalars.
 */
module TypeScriptSdk {
  import opened Wrappers
  import opened Ordering
  import opened JsonText
  import opened CanonicalProfile
  import JsonGrammar
  import Timestamps
  import Utf8

  // ----- String literals -----

  /** Index just behind the closing quote, skipping whatever follows a backslash. */
  function LiteralEnd(s: string): (n: Option<nat>)
    ensures n.Some? ==> 0 < n.value <= |s|
    decreases |s|
  {
    if s == "" then None
    else if s[0] == '"' then Some(1)
    else
      var skip := if s[0] == '\\' then 2 else 1;
      if |s| < skip then None
      else
        var n := LiteralEnd(s[skip..]);
        if n.None? then None else Some(skip + n.value)
  }

  predicate Ordinary(s: string, n: nat) {
    n <= |s| && forall i :: 0 <= i < n ==> s[i] != '"' && s[i] != '\\'
  }

  lemma {:induction false} LiteralEndSkips(s: string, n: nat)
    requires Ordinary(s, n)
    ensures LiteralEnd(s) == var e := LiteralEnd(s[n..]); if e.None? then None else Some(n + e.value)
  {
    if n > 0 {
      LiteralEndSkips(s[1..], n - 1);
      assert s[1..][n - 1..] == s[n..];
    }
  }

  lemma HexOrdinary(s: string, i: nat)
    requires Hex4(s, i).Some?
    ensures forall j :: i <= j < i + 4 ==> s[j] != '"' && s[j] != '\\'
  {
    assert HexValue('"').None? && HexValue('\\').None?;
  }

  /** A four-digit escape is passed whole. */
  lemma FourDigitsInStep(s: string)
    requires |s| >= 6 && s[0] == '\\' && s[1] == 'u' && Hex4(s, 2).Some?
    ensures LiteralEnd(s) == var e := LiteralEnd(s[6..]); if e.None? then None else Some(6 + e.value)
  {
    HexOrdinary(s, 2);
    LiteralEndSkips(s[2..], 4);
    assert s[2..][4..] == s[6..];
    hide Hex4;
  }

  /** An escape sequence ends where the literal scan is in step again. */
  lemma EscapeInStep(s: string)
    requires StartsWith(s, '\\') && ReadEscape(s).Done?
    ensures var n := |s| - |ReadEscape(s).rest|;
            2 <= n <= |s| && ReadEscape(s).rest == s[n..] &&
            LiteralEnd(s) == var e := LiteralEnd(s[n..]); if e.None? then None else Some(n + e.value)
  {
    if s[1] == 'u' {
      FourDigitsInStep(s);
      if IsHigh(Hex4(s, 2).value) {
        Hex4From(s, 6, 2);
        FourDigitsInStep(s[6..]);
        assert s[6..][6..] == s[12..];
      }
      hide Hex4, Combine, LiteralEnd;
    }
  }

  lemma Hex4From(s: string, n: nat, i: nat)
    requires n <= |s|
    ensures Hex4(s[n..], i) == Hex4(s, n + i)
  {
  }

  lemma {:induction false} LiteralEndPrefix(s: string)
    requires LiteralEnd(s).Some?
    ensures LiteralEnd(s[..LiteralEnd(s).value]) == LiteralEnd(s)
    decreases |s|
  {
    var n := LiteralEnd(s).value;
    if s[0] != '"' {
      var skip := if s[0] == '\\' then 2 else 1;
      LiteralEndPrefix(s[skip..]);
      assert s[..n][skip..] == s[skip..][..n - skip];
    }
  }

  lemma Hex4Prefix(s: string, n: nat, i: nat)
    requires i + 4 <= n <= |s|
    ensures Hex4(s[..n], i) == Hex4(s, i)
  {
  }

  lemma LowHalfPrefix(s: string, n: nat)
    requires 12 <= n <= |s|
    ensures LowHalf(s[..n]) == LowHalf(s)
  {
    Hex4Prefix(s, n, 8);
  }

  /** Reading an escape depends on the characters it consumes only. */
  lemma EscapePrefix(s: string, n: nat)
    requires 0 < n <= |s| && StartsWith(s, '\\')
    ensures var t := s[..n];
            && (ReadEscape(s).Done? && |s| - |ReadEscape(s).rest| <= n ==>
                  ReadEscape(t) == Done(ReadEscape(s).value, t[|s| - |ReadEscape(s).rest|..]))
            && (ReadEscape(t).Done? ==> ReadEscape(s).Done?)
  {
    if n >= 6 && s[1] == 'u' {
      Hex4Prefix(s, n, 2);
      if n >= 12 { LowHalfPrefix(s, n); }
    }
  }

  /** JSON.parse of the slice is the strict reading of the text from its opening quote on. */
  lemma {:induction false} UnquoteLocal(s: string)
    ensures LiteralEnd(s).None? ==> Unquote(s).Fail?
    ensures LiteralEnd(s).Some? ==>
              var n := LiteralEnd(s).value;
              var q := Unquote(s[..n]);
              Unquote(s) == (if q.Done? then Done(q.value, s[n..]) else Fail) && (q.Done? ==> q.rest == "")
    decreases |s|
  {
    if s != "" && s[0] != '"' && s[0] >= ' ' {
      if s[0] != '\\' {
        UnquoteLocal(s[1..]);
        if LiteralEnd(s).Some? {
          var n := LiteralEnd(s).value;
          assert s[..n][1..] == s[1..][..n - 1] && s[1..][n - 1..] == s[n..];
        }
      } else {
        EscapedUnquoteLocal(s);
      }
    }
  }

  lemma UnquoteEscaped(s: string)
    requires StartsWith(s, '\\')
    ensures var e := ReadEscape(s);
            Unquote(s) == if e.Done? then Prepend(e.value, Unquote(e.rest)) else Fail
  {
    hide ReadEscape;
  }

  lemma {:induction false} EscapedUnquoteLocal(s: string)
    requires StartsWith(s, '\\')
    ensures LiteralEnd(s).None? ==> Unquote(s).Fail?
    ensures LiteralEnd(s).Some? ==>
              var n := LiteralEnd(s).value;
              var q := Unquote(s[..n]);
              Unquote(s) == (if q.Done? then Done(q.value, s[n..]) else Fail) && (q.Done? ==> q.rest == "")
    decreases |s|, 0
  {
    UnquoteEscaped(s);
    if ReadEscape(s).Done? {
      EscapeInStep(s);
      var k := |s| - |ReadEscape(s).rest|;
      UnquoteLocal(s[k..]);
      if LiteralEnd(s).Some? {
        hide Unquote, ReadEscape, LiteralEnd;
        var n := LiteralEnd(s).value;
        EscapePrefix(s, n);
        UnquoteEscaped(s[..n]);
        assert s[..n][k..] == s[k..][..n - k] && s[k..][n - k..] == s[n..];
      }
    } else if LiteralEnd(s).Some? {
      var n := LiteralEnd(s).value;
      EscapePrefix(s, n);
      UnquoteEscaped(s[..n]);
      hide Unquote, ReadEscape, LiteralEnd;
    }
  }

  /** Position of the end of the literal when the scan stands at position. */
  ghost function EndFrom(input: string, position: nat): Option<nat> {
    if position > |input| || LiteralEnd(input[position..]).None? then None
    else Some(position + LiteralEnd(input[position..]).value)
  }

  lemma EndStep(input: string, position: nat)
    requires position < |input|
    ensures EndFrom(input, position) ==
            if input[position] == '"' then Some(position + 1)
            else EndFrom(input, if input[position] == '\\' then position + 2 else position + 1)
  {
    var s := input[position..];
    assert s[1..] == input[position + 1..];
    assert |s| >= 2 ==> s[2..] == input[position + 2..];
  }

  lemma EndFromStart(input: string, position: nat)
    requires position <= |input|
    ensures var e := LiteralEnd(input[position..]);
            EndFrom(input, position) == if e.None? then None else Some(position + e.value)
  {
  }

  lemma EndFromEnd(input: string)
    ensures forall position: nat :: position >= |input| ==> EndFrom(input, position).None?
  {
  }

  // ----- The cursor parser -----

  class Parser {
    const input: string
    var position: nat

    constructor (input: string)
      ensures this.input == input && position == 0
    {
      this.input := input;
      position := 0;
    }

    /** The unread text; reading past the end leaves nothing. */
    function Rest(): string
      reads this
    {
      if position <= |input| then input[position..] else ""
    }

    method Space()
      modifies this`position
      ensures Rest() == SkipSpace(old(Rest())) && position >= old(position)
      ensures old(position) <= |input| ==> position <= |input|
    {
      while position < |input| && IsSpace(input[position])
        invariant position >= old(position) && (old(position) <= |input| ==> position <= |input|)
        invariant SkipSpace(Rest()) == SkipSpace(old(Rest()))
      {
        assert Rest()[1..] == input[position + 1..];
        position := position + 1;
      }
    }

    /** input[position++], with None for undefined. */
    method Take() returns (c: Option<char>)
      modifies this`position
      ensures position == old(position) + 1
      ensures if old(Rest()) == "" then c.None? && Rest() == ""
              else c == Some(old(Rest())[0]) && Rest() == old(Rest())[1..]
    {
      c := if position < |input| then Some(input[position]) else None;
      position := position + 1;
    }

    /** Skips white space and takes the next character. */
    method Mark() returns (c: Option<char>)
      modifies this`position
      ensures position > old(position)
      ensures var t := SkipSpace(old(Rest()));
              if t == "" then c.None? else c == Some(t[0]) && Rest() == t[1..] && position <= |input|
    {
      Space();
      c := Take();
    }

    /** Moves just behind the literal's closing quote, when there is one. */
    method SkipLiteral() returns (closed: bool)
      requires StartsWith(Rest(), '"')
      modifies this`position
      ensures position > old(position)
      ensures var e := LiteralEnd(old(Rest())[1..]);
              if e.Some? then closed && position == old(position) + 1 + e.value && position <= |input| else !closed
    {
      ghost var start := position + 1;
      assert Rest()[1..] == input[start..];
      EndFromStart(input, start);
      EndFromEnd(input);
      hide EndFrom, LiteralEnd;
      position := position + 1;
      while position < |input|
        invariant start <= position
        invariant EndFrom(input, start) == EndFrom(input, position)
      {
        EndStep(input, position);
        var c := input[position];
        position := position + 1;
        if c == '\\' {
          position := position + 1;
        } else if c == '"' {
          return true;
        }
      }
      return false;
    }

    method Quoted(u: Unicode) returns (r: Option<string>)
      requires StartsWith(Rest(), '"')
      modifies this`position
      ensures position > old(position)
      ensures r.Some? ==> position <= |input|
      ensures var q := Unquote(old(Rest())[1..]);
              if q.Done? && u.marksOk(q.value) then r == Some(q.value) && Rest() == q.rest else r.None?
    {
      hide Unquote, LiteralEnd;
      var start := position;
      ghost var body := Rest()[1..];
      UnquoteLocal(body);
      var closed := SkipLiteral();
      if !closed {
        return None;
      }
      assert body == input[start + 1..];
      var slice := input[start..position];
      assert slice[1..] == body[..position - start - 1];
      assert Rest() == body[position - start - 1..];
      var q := Unquote(slice[1..]);
      if q.Fail? || !u.marksOk(q.value) {
        return None;
      }
      return Some(q.value);
    }

    /** One value. A number may stop in front of a fraction or exponent that never completes. */
    method Read(u: Unicode, depth: nat) returns (r: Option<Json>)
      requires depth <= MAX_DEPTH + 1
      modifies this`position
      ensures r.Some? ==> old(position) < position <= |input|
      ensures Sound(r, Rest(), JsonGrammar.ReadValue(u, old(Rest()), depth))
      decreases MAX_DEPTH + 1 - depth, 1, 0
    {
      if depth > MAX_DEPTH {
        return None;
      }
      Space();
      ghost var t := Rest();
      if position >= |input| {
        return None;
      }
      var c := input[position];
      if c == '"' {
        var q := Quoted(u);
        if q.None? {
          return None;
        }
        return Some(String(q.value));
      }
      if c == '{' {
        r := ReadObject(u, depth);
        return;
      }
      if c == '[' {
        r := ReadArray(u, depth);
        return;
      }
      var l := JsonGrammar.ReadLiteral(input[position..]);
      if l.Done? {
        LiteralAdvances(input, position);
        position := position + |input[position..]| - |l.rest|;
        return Some(l.value);
      }
      r := ReadNumberToken();
    }

    method ReadNumberToken() returns (r: Option<Json>)
      modifies this`position
      ensures r.Some? ==> old(position) < position <= |input|
      ensures var n := ReadNumber(old(Rest()));
              if r.None? then n.Fail?
              else if StartsFraction(Rest()) then n.Fail?
              else n.Done? && r == Some(Number(n.value)) && Rest() == n.rest
    {
      if position >= |input| {
        return None;
      }
      ghost var t := Rest();
      var n := NumberLength(input[position..]);
      PlainIntegerLexeme(t);
      var lexeme := input[position..][..n];
      if n == 0 || !IsPlainInteger(lexeme) {
        FractionFollows(t);
        return None;
      }
      IntLengthLocal(t);
      var v := IntValue(lexeme);
      if v < -MAX_INTEGER || v > MAX_INTEGER {
        return None;
      }
      position := position + n;
      assert Rest() == t[n..];
      return Some(Number(v));
    }

    /** A key that collides with none before it, and its colon. */
    method ReadKey(u: Unicode, ghost acc: map<string, Json>, seen: set<string>) returns (r: Option<string>)
      requires seen == set k | k in acc :: u.nfc(k)
      modifies this`position
      ensures position >= old(position)
      ensures var k := JsonGrammar.ReadKey(u, old(Rest()), acc);
              if r.None? then k.Fail? else k == Done(r.value, Rest())
    {
      Space();
      if position >= |input| || input[position] != '"' {
        return None;
      }
      var key := Quoted(u);
      if key.None? || u.nfc(key.value) in seen {
        return None;
      }
      var colon := Mark();
      if colon != Some(':') {
        return None;
      }
      return key;
    }

    method ReadMembers(u: Unicode, depth: nat) returns (r: Option<Json>)
      requires depth <= MAX_DEPTH
      modifies this`position
      ensures r.Some? ==> old(position) < position <= |input|
      ensures Sound(r, Rest(), JsonGrammar.ReadMembers(u, old(Rest()), depth, map[]))
      decreases MAX_DEPTH + 1 - depth, 0, 0
    {
      hide JsonGrammar.ReadValue, JsonGrammar.ReadKey;
      ghost var spec := JsonGrammar.ReadMembers(u, Rest(), depth, map[]);
      var result: map<string, Json> := map[];
      var seen: set<string> := {};
      while true
        invariant position >= old(position)
        invariant spec == JsonGrammar.ReadMembers(u, Rest(), depth, result)
        invariant seen == set k | k in result :: u.nfc(k)
        decreases |input| + 2 - position
      {
        ghost var before := Rest();
        var key := ReadKey(u, result, seen);
        if key.None? {
          return None;
        }
        ghost var between := Rest();
        var v := Read(u, depth + 1);
        if v.None? {
          return None;
        }
        MemberParsed(u, before, between, Rest(), depth, result, key.value, v.value);
        JsonGrammar.SeenGrows(u, result, key.value, v.value);
        seen := seen + {u.nfc(key.value)};
        result := result[key.value := v.value];
        var end := Mark();
        if end == Some('}') {
          return Some(Object(result));
        }
        if end != Some(',') {
          return None;
        }
      }
    }

    method ReadObject(u: Unicode, depth: nat) returns (r: Option<Json>)
      requires depth <= MAX_DEPTH && StartsWith(Rest(), '{')
      modifies this`position
      ensures r.Some? ==> old(position) < position <= |input|
      ensures Sound(r, Rest(), JsonGrammar.ReadValue(u, old(Rest()), depth))
      decreases MAX_DEPTH + 1 - depth, 0, 1
    {
      ObjectStart(u, Rest(), depth);
      var _ := Take();
      Space();
      if position < |input| && input[position] == '}' {
        position := position + 1;
        return Some(Object(map[]));
      }
      r := ReadMembers(u, depth);
    }

    method ReadItems(u: Unicode, depth: nat) returns (r: Option<Json>)
      requires depth <= MAX_DEPTH
      modifies this`position
      ensures r.Some? ==> old(position) < position <= |input|
      ensures Sound(r, Rest(), JsonGrammar.ReadItems(u, old(Rest()), depth, []))
      decreases MAX_DEPTH + 1 - depth, 0, 0
    {
      ghost var spec := JsonGrammar.ReadItems(u, Rest(), depth, []);
      var result: seq<Json> := [];
      while true
        invariant position >= old(position)
        invariant spec == JsonGrammar.ReadItems(u, Rest(), depth, result)
        decreases |input| + 2 - position
      {
        ghost var before := Rest();
        var v := Read(u, depth + 1);
        if v.None? {
          return None;
        }
        ItemParsed(u, before, Rest(), depth, result, v.value);
        result := result + [v.value];
        var end := Mark();
        if end == Some(']') {
          return Some(Array(result));
        }
        if end != Some(',') {
          return None;
        }
      }
    }

    method ReadArray(u: Unicode, depth: nat) returns (r: Option<Json>)
      requires depth <= MAX_DEPTH && StartsWith(Rest(), '[')
      modifies this`position
      ensures r.Some? ==> old(position) < position <= |input|
      ensures Sound(r, Rest(), JsonGrammar.ReadValue(u, old(Rest()), depth))
      decreases MAX_DEPTH + 1 - depth, 0, 1
    {
      ArrayStart(u, Rest(), depth);
      var _ := Take();
      Space();
      if position < |input| && input[position] == ']' {
        position := position + 1;
        return Some(Array([]));
      }
      r := ReadItems(u, depth);
    }
  }

  /**
   A parser result agrees with the declarative reader, except that a number may have
   been taken from in front of an incomplete fraction, which every caller then refuses.
   */
  ghost predicate Sound(r: Option<Json>, rest: string, spec: JsonText.Read<Json>) {
    if r.None? then spec.Fail?
    else spec == Done(r.value, rest) || (spec.Fail? && StartsFraction(rest))
  }

  lemma LiteralAdvances(input: string, position: nat)
    requires position < |input|
    ensures var t := input[position..];
            var l := JsonGrammar.ReadLiteral(t);
            l.Done? ==> input[position + |t| - |l.rest|..] == l.rest
  {
  }

  lemma FractionFollows(t: string)
    ensures NumberLength(t) > IntLength(t) ==> StartsFraction(t[IntLength(t)..])
  {
  }

  lemma {:induction false} SkipSpaceTwice(s: string)
    ensures SkipSpace(SkipSpace(s)) == SkipSpace(s)
  {
  }

  lemma ObjectStart(u: Unicode, s: string, depth: nat)
    requires StartsWith(s, '{') && depth <= MAX_DEPTH
    ensures var t := SkipSpace(s[1..]);
            JsonGrammar.ReadValue(u, s, depth) ==
            if StartsWith(t, '}') then Done(Object(map[]), t[1..]) else JsonGrammar.ReadMembers(u, t, depth, map[])
  {
    SkipSpaceTwice(s[1..]);
    assert SkipSpace(s) == s;
    var t := SkipSpace(s[1..]);
    assert JsonGrammar.ReadKey(u, t, map[]) == JsonGrammar.ReadKey(u, s[1..], map[]);
  }

  lemma ArrayStart(u: Unicode, s: string, depth: nat)
    requires StartsWith(s, '[') && depth <= MAX_DEPTH
    ensures var t := SkipSpace(s[1..]);
            JsonGrammar.ReadValue(u, s, depth) ==
            if StartsWith(t, ']') then Done(Array([]), t[1..]) else JsonGrammar.ReadItems(u, t, depth, [])
  {
    SkipSpaceTwice(s[1..]);
    assert SkipSpace(s) == s;
    var t := SkipSpace(s[1..]);
    assert JsonGrammar.ReadValue(u, t, depth + 1) == JsonGrammar.ReadValue(u, s[1..], depth + 1);
  }

  /** An incomplete fraction neither closes nor continues a container. */
  lemma FractionEnds(u: Unicode, s: string, depth: nat, members: map<string, Json>, items: seq<Json>)
    requires StartsFraction(s)
    ensures SkipSpace(s) == s && !StartsWith(s, '}') && !StartsWith(s, ']') && !StartsWith(s, ',')
    ensures JsonGrammar.MoreMembers(u, s, depth, members).Fail? && JsonGrammar.MoreItems(u, s, depth, items).Fail?
  {
  }

  /** A parsed member leaves the declarative reader in front of what follows it. */
  lemma MemberParsed(
      u: Unicode, s: string, between: string, rest: string, depth: nat, acc: map<string, Json>, key: string, v: Json)
    requires JsonGrammar.ReadKey(u, s, acc) == Done(key, between)
    requires Sound(Some(v), rest, JsonGrammar.ReadValue(u, between, depth + 1))
    ensures JsonGrammar.ReadMembers(u, s, depth, acc) == JsonGrammar.MoreMembers(u, rest, depth, acc[key := v])
  {
    if StartsFraction(rest) { FractionEnds(u, rest, depth, acc[key := v], []); }
  }

  lemma ItemParsed(u: Unicode, s: string, rest: string, depth: nat, acc: seq<Json>, v: Json)
    requires Sound(Some(v), rest, JsonGrammar.ReadValue(u, s, depth + 1))
    ensures JsonGrammar.ReadItems(u, s, depth, acc) == JsonGrammar.MoreItems(u, rest, depth, acc + [v])
  {
    if StartsFraction(rest) { FractionEnds(u, rest, depth, map[], acc + [v]); }
  }

  method Decode(u: Unicode, input: string) returns (r: Option<Json>)
    ensures r == if |Utf8.Encode(input)| <= MAX_BYTES then JsonGrammar.ReadText(u, input) else None
  {
    if |Utf8.Encode(input)| > MAX_BYTES {
      return None;
    }
    var parser := new Parser(input);
    assert parser.Rest() == input;
    var value := parser.Read(u, 0);
    if value.None? {
      return None;
    }
    parser.Space();
    if parser.position != |input| {
      return None;
    }
    return value;
  }

  // ----- Ordering -----

  /** Array.from(a, c => c.codePointAt(0)): the code points of a string. */
  function CodePoints(s: string): seq<int> {
    seq(|s|, i requires 0 <= i < |s| => s[i] as int)
  }

  /** The comparator for keys and sets: code points first, then length. */
  method Compare(a: string, b: string) returns (r: int)
    ensures r < 0 <==> Less(a, b)
    ensures r > 0 <==> Less(b, a)
    ensures r == 0 <==> a == b
    ensures r < 0 <==> Utf8.BytesLess(Utf8.Encode(a), Utf8.Encode(b))
  {
    var x, y := CodePoints(a), CodePoints(b);
    Utf8.ByteOrderIsScalarOrder(a, b);
    LessTotal(a, b);
    var least := if |x| < |y| then |x| else |y|;
    for i := 0 to least
      invariant forall j :: 0 <= j < i ==> a[j] == b[j]
    {
      if x[i] != y[i] {
        CharsDecide(a, b, i);
        CharsDecide(b, a, i);
        return x[i] - y[i];
      }
    }
    PrefixDecides(a, b);
    PrefixDecides(b, a);
    return |x| - |y|;
  }

  lemma {:induction false} CharsDecide(a: string, b: string, i: nat)
    requires i < |a| && i < |b| && a[i] != b[i] && forall j :: 0 <= j < i ==> a[j] == b[j]
    ensures Less(a, b) <==> a[i] < b[i]
  {
    if i > 0 {
      CharsDecide(a[1..], b[1..], i - 1);
    }
  }

  lemma {:induction false} PrefixDecides(a: string, b: string)
    requires forall j :: 0 <= j < |a| && j < |b| ==> a[j] == b[j]
    ensures Less(a, b) <==> |a| < |b|
    ensures |a| == |b| ==> a == b
  {
    if a != "" && b != "" {
      PrefixDecides(a[1..], b[1..]);
    }
  }

  // ----- Normalise -----

  lemma {:induction false} DistinctSize(s: seq<string>)
    ensures |set x | x in s| <= |s|
    ensures |set x | x in s| == |s| <==> forall i, j :: 0 <= i < j < |s| ==> s[i] != s[j]
  {
    if s != [] {
      var n := |s| - 1;
      var t, last := s[..n], s[n];
      DistinctSize(t);
      assert s == t + [last];
      assert (set x | x in s) == (set x | x in t) + {last};
      if last in t {
        var i :| 0 <= i < n && t[i] == last;
        assert s[i] == s[n];
        assert (set x | x in s) == (set x | x in t);
      }
    }
  }

  /** Array.prototype.sort with the comparator: a sorted permutation. */
  method Sort(values: seq<string>) returns (r: seq<string>)
    ensures SortedBy((x: string) => x, r)
    ensures multiset(r) == multiset(values)
  {
    r := [];
    for i := 0 to |values|
      invariant SortedBy((x: string) => x, r)
      invariant multiset(r) == multiset(values[..i])
    {
      var x := values[i];
      var j := |r|;
      while j > 0
        invariant 0 <= j <= |r|
        invariant forall k :: j <= k < |r| ==> Less(x, r[k])
      {
        var order := Compare(x, r[j - 1]);
        if order >= 0 {
          break;
        }
        j := j - 1;
      }
      InsertSorted((x: string) => x, r, j, x);
      InsertedOnce(r, j, x);
      TakeSnoc(values, i);
      hide SortedBy;
      r := r[..j] + [x] + r[j..];
    }
    assert values[..|values|] == values;
  }

  /** Object.keys(value).sort(compare), with the keys in any order to begin with. */
  method SortKeys(s: set<string>) returns (keys: seq<string>)
    ensures keys == Ascending(s)
  {
    var collected: seq<string> := [];
    var todo := s;
    while todo != {}
      invariant todo <= s
      invariant forall k :: k in collected <==> k in s && k !in todo
      invariant forall i, j :: 0 <= i < j < |collected| ==> collected[i] != collected[j]
    {
      var key :| key in todo;
      todo := todo - {key};
      collected := collected + [key];
    }
    keys := Sort(collected);
    SortedDistinct(collected, keys);
    assert (set k | k in collected) == s;
  }

  /** sort(compare) followed by the comparison of the size of the set with the length. */
  method SortDistinct(values: seq<string>) returns (r: Option<seq<string>>)
    ensures r.Some? <==> forall i, j :: 0 <= i < j < |values| ==> values[i] != values[j]
    ensures r.Some? ==> r.value == Ascending(set x | x in values)
  {
    var result := Sort(values);
    SameElements(result, values);
    assert (set x | x in result) == (set x | x in values);
    DistinctSize(values);
    if |set x | x in result| != |result| {
      return None;
    }
    SortedDistinct(values, result);
    return Some(result);
  }

  method NormalizeSet(u: Unicode, v: Json) returns (r: Option<Json>)
    ensures r.Some? <==> IsSetOfStrings(u, v)
    ensures r.Some? ==> r.value == Array(Strings(Ascending(Elements(u, v.items))))
  {
    if !v.Array? || exists i :: 0 <= i < |v.items| && !v.items[i].String? {
      return None;
    }
    var values := seq(|v.items|, i requires 0 <= i < |v.items| => u.nfc(v.items[i].s));
    ElementsOf(u, v.items, values);
    var result := SortDistinct(values);
    if result.None? {
      return None;
    }
    return Some(Array(Strings(result.value)));
  }

  method NormalizeMembers(u: Unicode, m: map<string, Json>, path: string, p: Profile, ghost depth: nat)
    returns (r: Option<Json>)
    requires JsonGrammar.Readable(u, Object(m), depth)
    requires path !in p.timestamps && path !in p.sets
    ensures r.Some? <==> Accepts(u, Object(m), path, p)
    ensures r.Some? ==> r.value == Normal(u, Object(m), path, p)
    decreases Object(m), 0
  {
    var result: map<string, Json> := map[];
    var entries := m.Keys;
    while entries != {}
      invariant entries <= m.Keys
      invariant forall k :: k in m && k !in entries && !Omitted(u, k, path, p) ==>
        && Accepts(u, m[k], MemberPath(path, u.nfc(k)), p)
        && u.nfc(k) in result && result[u.nfc(k)] == Normal(u, m[k], MemberPath(path, u.nfc(k)), p)
      invariant forall n :: n in result ==>
        exists k :: k in m && k !in entries && !Omitted(u, k, path, p) && u.nfc(k) == n
      decreases entries
    {
      var raw :| raw in entries;
      entries := entries - {raw};
      var key := u.nfc(raw);
      if MemberPath(path, key) !in p.omit {
        var w := Normalize(u, m[raw], MemberPath(path, key), p, depth + 1);
        if w.None? {
          return None;
        }
        result := result[key := w.value];
      }
    }
    MembersDone(u, m, path, p, result);
    return Some(Object(result));
  }

  method Normalize(u: Unicode, v: Json, path: string, p: Profile, ghost depth: nat) returns (r: Option<Json>)
    requires JsonGrammar.Readable(u, v, depth)
    ensures r.Some? <==> Accepts(u, v, path, p)
    ensures r.Some? ==> r.value == Normal(u, v, path, p)
    decreases v, 1
  {
    if path in p.timestamps {
      if !v.String? {
        return None;
      }
      var stamp := Timestamps.Timestamp(v.s);
      if stamp.None? {
        return None;
      }
      return Some(String(stamp.value));
    }
    if path in p.sets {
      r := NormalizeSet(u, v);
      return;
    }
    match v
    case String(s) => return Some(String(u.nfc(s)));
    case Array(items) =>
      var result: seq<Json> := [];
      for i := 0 to |items|
        invariant |result| == i
        invariant forall j :: 0 <= j < i ==>
          Accepts(u, items[j], ItemPath(path, j), p) && result[j] == Normal(u, items[j], ItemPath(path, j), p)
      {
        var w := Normalize(u, items[i], ItemPath(path, i), p, depth + 1);
        if w.None? {
          return None;
        }
        result := result + [w.value];
      }
      return Some(Array(result));
    case Object(m) => r := NormalizeMembers(u, m, path, p, depth);
    case _ => return Some(v);
  }

  // ----- Encode -----

  /** parts.join(",") */
  function Join(parts: seq<string>): string {
    if parts == [] then ""
    else if |parts| == 1 then parts[0]
    else parts[0] + ("," + Join(parts[1..]))
  }

  lemma {:induction false} JoinItems(items: seq<Json>, parts: seq<string>)
    requires |parts| == |items| && forall i :: 0 <= i < |items| ==> parts[i] == JsonGrammar.Print(items[i])
    ensures Join(parts) == JsonGrammar.PrintItems(items)
    decreases |items|
  {
    if |items| > 1 {
      JoinItems(items[1..], parts[1..]);
    } else if |items| == 1 {
      assert parts[0] + "" == parts[0];
    }
  }

  lemma {:induction false} JoinMembers(v: Json, keys: seq<string>, parts: seq<string>)
    requires JsonGrammar.Names(v, keys)
    requires |parts| == |keys| && forall i :: 0 <= i < |keys| ==> parts[i] == JsonGrammar.PrintMember(v, keys[i])
    ensures Join(parts) == JsonGrammar.PrintMembers(v, keys)
    decreases |keys|
  {
    if |keys| > 1 {
      JoinMembers(v, keys[1..], parts[1..]);
    } else if |keys| == 1 {
      assert parts[0] + "" == parts[0];
    }
  }

  /** value.map(encode) */
  method EncodeAll(items: seq<Json>) returns (parts: seq<string>)
    ensures |parts| == |items| && forall i :: 0 <= i < |items| ==> parts[i] == JsonGrammar.Print(items[i])
    decreases items, 0
  {
    parts := [];
    for i := 0 to |items|
      invariant |parts| == i && forall j :: 0 <= j < i ==> parts[j] == JsonGrammar.Print(items[j])
    {
      var text := Encode(items[i]);
      parts := parts + [text];
    }
  }

  /** keys.map(k => JSON.stringify(k) + ":" + encode(value[k])) */
  method EncodeEntries(v: Json, keys: seq<string>) returns (parts: seq<string>)
    requires JsonGrammar.Names(v, keys)
    ensures |parts| == |keys| && forall i :: 0 <= i < |keys| ==> parts[i] == JsonGrammar.PrintMember(v, keys[i])
    decreases v, 0
  {
    parts := [];
    for i := 0 to |keys|
      invariant |parts| == i && forall j :: 0 <= j < i ==> parts[j] == JsonGrammar.PrintMember(v, keys[j])
    {
      var text := Encode(v.members[keys[i]]);
      parts := parts + [Quote(keys[i]) + (":" + text)];
    }
  }

  method Encode(v: Json) returns (text: string)
    ensures text == JsonGrammar.Print(v)
    decreases v, 1
  {
    match v
    case Null => return "null";
    case Bool(b) => return if b then "true" else "false";
    case Number(n) => return IntText(n);
    case String(s) => return Quote(s);
    case Array(items) =>
      var parts := EncodeAll(items);
      JoinItems(items, parts);
      return "[" + Join(parts) + "]";
    case Object(m) =>
      var keys := SortKeys(m.Keys);
      assert forall k :: k in keys ==> k in m;
      var parts := EncodeEntries(v, keys);
      JoinMembers(v, keys, parts);
      return "{" + Join(parts) + "}";
  }

  /** The exported function. */
  method Canonicalize(u: Unicode, input: string, p: Profile) returns (r: Option<string>)
    ensures r == Canonical(u, input, p)
  {
    var v := Decode(u, input);
    if v.None? {
      return None;
    }
    ReadTextReadable(u, input);
    var w := Normalize(u, v.value, "", p, 0);
    if w.None? {
      return None;
    }
    var text := Encode(w.value);
    return Some(text);
  }
}
