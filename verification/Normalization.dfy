/** The Go implementation of canonical JSON profile v1. */
module Normalization {
  import opened Wrappers
  import opened Ordering
  import opened ByteOrder
  import opened JsonText
  import opened CanonicalProfile
  import JsonGrammar
  import Surrogates
  import Timestamps
  import Utf8

  datatype Code =
    | SizeLimit
    | InvalidUnicode
    | DepthLimit
    | InvalidJson
    | InvalidKey
    | DuplicateKey
    | UnsafeNumber
    | UnicodeComplexity
    | TrailingData
    | InvalidTimestamp
    | InvalidSet
    | DuplicateSetValue

  // ----- The decoder's tokens -----

  datatype Token = Delim(c: char) | Text(s: string) | Numeral(lexeme: string) | Literal(v: Json)

  /** What a token starts with after its separator: nothing, a comma or a colon. */
  function AfterSeparator(s: string, separator: Option<char>): (r: Read<()>)
    ensures r.Done? ==> |r.rest| <= |s| && (separator.Some? ==> |r.rest| < |s|)
  {
    if separator.None? then Done((), s)
    else if StartsWith(SkipSpace(s), separator.value) then Done((), SkipSpace(s)[1..])
    else Fail
  }

  /** A number breaks off when a fraction or exponent is begun and has no digits. */
  predicate BreaksOff(lexeme: string, rest: string) {
    if IsPlainInteger(lexeme) then StartsFraction(rest)
    else 'e' !in lexeme && 'E' !in lexeme && (StartsWith(rest, 'e') || StartsWith(rest, 'E'))
  }

  function ScanNumber(t: string): (r: Read<Token>)
    ensures r.Done? ==> |r.rest| < |t|
  {
    var n := NumberLength(t);
    if n == 0 || BreaksOff(t[..n], t[n..]) then Fail else Done(Numeral(t[..n]), t[n..])
  }

  function ScanToken(s: string): (r: Read<Token>)
    ensures r.Done? ==> |r.rest| < |s|
  {
    var t := SkipSpace(s);
    if t == "" then Fail
    else if t[0] in "{[]}" then Done(Delim(t[0]), t[1..])
    else if t[0] == '"' then
      var q := Surrogates.UnquoteRepairing(t[1..]);
      if q.Done? then Done(Text(q.value), q.rest) else Fail
    else
      var l := JsonGrammar.ReadLiteral(t);
      if l.Done? then Done(Literal(l.value), l.rest) else ScanNumber(t)
  }

  /**
   encoding/json's Decoder, reduced to its unread text. The library keeps track of
   whether a comma or colon is due; here the caller names the separator.
   */
  class Decoder {
    var rest: string

    constructor (text: string)
      ensures rest == text
    {
      rest := text;
    }

    method More() returns (more: bool)
      ensures more <==> AtMore(rest)
    {
      more := AtMore(rest);
    }

    method Next(separator: Option<char>) returns (r: Option<Token>)
      modifies this
      ensures var a := AfterSeparator(old(rest), separator);
              if a.Done? && ScanToken(a.rest).Done?
              then r == Some(ScanToken(a.rest).value) && rest == ScanToken(a.rest).rest
              else r.None? && rest == old(rest)
    {
      var a := AfterSeparator(rest, separator);
      if a.Fail? {
        return None;
      }
      var t := ScanToken(a.rest);
      if t.Fail? {
        return None;
      }
      rest := t.rest;
      return Some(t.value);
    }
  }

  const MAX_INT64: int := 0x7FFF_FFFF_FFFF_FFFF

  /** strconv.ParseInt(lexeme, 10, 64) on a number lexeme. */
  function ParseInt(lexeme: string): Option<int> {
    if lexeme == "" || IntLength(lexeme) != |lexeme| then None
    else if -MAX_INT64 - 1 <= IntValue(lexeme) <= MAX_INT64 then Some(IntValue(lexeme))
    else None
  }

  lemma ScanNumberReads(t: string)
    ensures var k, n := ScanNumber(t), ReadNumber(t);
            && (k.Done? ==> k.value.Numeral?)
            && (n.Done? <==> k.Done? && ParseInt(k.value.lexeme).Some?
                             && -MAX_INTEGER <= ParseInt(k.value.lexeme).value <= MAX_INTEGER)
            && (n.Done? ==> k.rest == n.rest && ParseInt(k.value.lexeme) == Some(n.value))
  {
    var i, n := IntLength(t), NumberLength(t);
    PlainIntegerLexeme(t);
    IntLengthLocal(t);
    if n > i {
      FractionNotRead(t);
    } else if n > 0 {
      assert FractionLength(t[i..]) == 0;
    }
  }

  lemma FractionNotRead(t: string)
    requires NumberLength(t) > IntLength(t)
    ensures StartsFraction(t[IntLength(t)..])
    ensures IntLength(t[..NumberLength(t)]) != NumberLength(t)
  {
    var i, n := IntLength(t), NumberLength(t);
    assert t[..n] != "";
    IntLexemePlain(t[..n]);
    PlainIntegerLexeme(t);
    assert t[..n][..n] == t[..n];
  }

  // ----- Decode -----

  /** The codes a single value can be refused with. */
  predicate IsValueCode(c: Code) {
    c in {DepthLimit, InvalidJson, InvalidKey, DuplicateKey, UnsafeNumber, UnicodeComplexity}
  }

  /** What is left to do for an object, with the members already read. */
  ghost function MembersFrom(u: Unicode, first: bool, s: string, depth: nat, acc: map<string, Json>): Read<Json> {
    if !first || StartsWith(SkipSpace(s), '}') then JsonGrammar.MoreMembers(u, s, depth, acc)
    else JsonGrammar.ReadMembers(u, s, depth, acc)
  }

  ghost function ItemsFrom(u: Unicode, first: bool, s: string, depth: nat, acc: seq<Json>): Read<Json> {
    if !first || StartsWith(SkipSpace(s), ']') then JsonGrammar.MoreItems(u, s, depth, acc)
    else JsonGrammar.ReadItems(u, s, depth, acc)
  }

  /** A method result agrees with the declarative reader. */
  ghost predicate Agrees(r: Result<Json, Code>, rest: string, spec: Read<Json>) {
    if r.Ok? then spec == Done(r.value, rest) else spec.Fail?
  }

  lemma SeparatorPaired(s: string, separator: Option<char>)
    requires separator != Some('\\')
    requires Surrogates.TextPaired(s) && AfterSeparator(s, separator).Done?
    ensures Surrogates.TextPaired(AfterSeparator(s, separator).rest)
  {
    Surrogates.SkipSpacePaired(s);
    if separator.Some? { Surrogates.PlainText(SkipSpace(s), 1); }
  }

  /** Behind the surrogate scan a string token is the literal the strict reader sees. */
  lemma TextTokenReads(s: string)
    requires Surrogates.TextPaired(s)
    ensures var t, k := SkipSpace(s), ScanToken(s);
            StartsWith(t, '"') ==>
              var q := Unquote(t[1..]);
              && k == (if q.Done? then Done(Text(q.value), q.rest) else Fail)
              && (q.Done? ==> Surrogates.TextPaired(q.rest))
  {
    var t := SkipSpace(s);
    Surrogates.SkipSpacePaired(s);
    if StartsWith(t, '"') {
      Surrogates.PlainText(t, 1);
      Surrogates.UnquotePaired(t[1..]);
    }
  }

  lemma OpeningPaired(s: string)
    requires Surrogates.TextPaired(s)
    ensures var k := ScanToken(s); k.Done? && k.value.Delim? ==> Surrogates.TextPaired(k.rest)
  {
    var t := SkipSpace(s);
    Surrogates.SkipSpacePaired(s);
    if t != "" && t[0] in "{[]}" { Surrogates.PlainText(t, 1); }
  }

  /** What the declarative reader does behind the first token of a value. */
  ghost function ValueFrom(u: Unicode, k: Read<Token>, depth: nat): Read<Json> {
    if k.Fail? then Fail
    else match k.value
      case Delim(c) =>
        if c == '{' then MembersFrom(u, true, k.rest, depth, map[])
        else if c == '[' then ItemsFrom(u, true, k.rest, depth, [])
        else Fail
      case Text(t) => if u.marksOk(t) then Done(String(t), k.rest) else Fail
      case Literal(l) => Done(l, k.rest)
      case Numeral(lexeme) =>
        var n := ParseInt(lexeme);
        if n.Some? && -MAX_INTEGER <= n.value <= MAX_INTEGER then Done(Number(n.value), k.rest) else Fail
  }

  lemma NoNumberAt(t: string)
    requires t != "" && t[0] != '-' && !IsDigit(t[0])
    ensures ReadNumber(t).Fail?
  {
    assert t[0..] == t;
  }

  lemma TextReads(u: Unicode, s: string, depth: nat)
    requires depth <= MAX_DEPTH && Surrogates.TextPaired(s) && StartsWith(SkipSpace(s), '"')
    ensures JsonGrammar.ReadValue(u, s, depth) == ValueFrom(u, ScanToken(s), depth)
  {
    TextTokenReads(s);
  }

  lemma DelimReads(u: Unicode, s: string, depth: nat)
    requires depth <= MAX_DEPTH && SkipSpace(s) != "" && SkipSpace(s)[0] in "{[]}"
    ensures JsonGrammar.ReadValue(u, s, depth) == ValueFrom(u, ScanToken(s), depth)
  {
    var t := SkipSpace(s);
    assert ScanToken(s) == Done(Delim(t[0]), t[1..]);
    if t[0] == ']' || t[0] == '}' {
      NoNumberAt(t);
      assert JsonGrammar.ReadLiteral(t).Fail?;
    }
  }

  lemma BareReads(u: Unicode, s: string, depth: nat)
    requires depth <= MAX_DEPTH
    requires var t := SkipSpace(s); t != "" && t[0] != '"' && t[0] !in "{[]}"
    ensures JsonGrammar.ReadValue(u, s, depth) == ValueFrom(u, ScanToken(s), depth)
  {
    var t := SkipSpace(s);
    ScanNumberReads(t);
    BareToken(s);
    BareValue(u, s, depth);
    hide *;
    BareAgrees(u, JsonGrammar.ReadLiteral(t), ReadNumber(t), ScanNumber(t), depth);
  }

  lemma BareAgrees(u: Unicode, l: Read<Json>, n: Read<int>, k: Read<Token>, depth: nat)
    requires k.Done? ==> k.value.Numeral?
    requires n.Done? <==> k.Done? && ParseInt(k.value.lexeme).Some? &&
                          -MAX_INTEGER <= ParseInt(k.value.lexeme).value <= MAX_INTEGER
    requires n.Done? ==> k.rest == n.rest && ParseInt(k.value.lexeme) == Some(n.value)
    ensures (if l.Done? then l else if n.Done? then Done(Number(n.value), n.rest) else Fail) ==
            ValueFrom(u, if l.Done? then Done(Literal(l.value), l.rest) else k, depth)
  {
    hide ParseInt, MembersFrom, ItemsFrom;
  }

  lemma BareValue(u: Unicode, s: string, depth: nat)
    requires depth <= MAX_DEPTH
    requires var t := SkipSpace(s); t != "" && t[0] != '"' && t[0] !in "{[]}"
    ensures var t := SkipSpace(s);
            var l, n := JsonGrammar.ReadLiteral(t), ReadNumber(t);
            JsonGrammar.ReadValue(u, s, depth) ==
            if l.Done? then l else if n.Done? then Done(Number(n.value), n.rest) else Fail
  {
    hide SkipSpace, JsonGrammar.ReadLiteral, JsonGrammar.ReadMembers, JsonGrammar.ReadItems, ReadNumber, Unquote;
  }

  lemma BareToken(s: string)
    requires var t := SkipSpace(s); t != "" && t[0] != '"' && t[0] !in "{[]}"
    ensures var t := SkipSpace(s);
            var l := JsonGrammar.ReadLiteral(t);
            ScanToken(s) == if l.Done? then Done(Literal(l.value), l.rest) else ScanNumber(t)
  {
    hide JsonGrammar.ReadLiteral, ScanNumber;
  }

  /** The first token of a value decides what the declarative reader does. */
  lemma TokenReads(u: Unicode, s: string, depth: nat)
    requires depth <= MAX_DEPTH && Surrogates.TextPaired(s)
    ensures JsonGrammar.ReadValue(u, s, depth) == ValueFrom(u, ScanToken(s), depth)
  {
    var t := SkipSpace(s);
    if t != "" {
      if t[0] == '"' { TextReads(u, s, depth); }
      else if t[0] in "{[]}" { DelimReads(u, s, depth); }
      else { BareReads(u, s, depth); }
    }
  }

  /** An item list that neither closes nor continues is refused. */
  lemma ItemsStuck(u: Unicode, first: bool, s: string, depth: nat, acc: seq<Json>)
    requires SkipSpace(s) == "" || SkipSpace(s)[0] == '}'
    ensures ItemsFrom(u, first, s, depth, acc).Fail?
  {
    if SkipSpace(s) != "" { NoNumberAt(SkipSpace(s)); }
    assert JsonGrammar.ReadValue(u, s, depth + 1).Fail?;
  }

  /** What the declarative reader does behind the key token of a member. */
  ghost function MemberFrom(u: Unicode, k: Read<Token>, depth: nat, acc: map<string, Json>): Read<Json> {
    if k.Fail? || !k.value.Text? || !u.marksOk(k.value.s) || !JsonGrammar.IsNew(u, k.value.s, acc) then Fail
    else MemberValueFrom(u, AfterSeparator(k.rest, Some(':')), k.value.s, depth, acc)
  }

  ghost function MemberValueFrom(u: Unicode, c: Read<()>, key: string, depth: nat, acc: map<string, Json>): Read<Json> {
    if c.Fail? then Fail
    else
      var v := JsonGrammar.ReadValue(u, c.rest, depth + 1);
      if v.Fail? then Fail else MembersFrom(u, false, v.rest, depth, acc[key := v.value])
  }

  function Comma(first: bool): Option<char> {
    if first then None else Some(',')
  }

  predicate AtMore(s: string) {
    var t := SkipSpace(s);
    t != "" && t[0] != ']' && t[0] != '}'
  }

  /** One round of the member loop. */
  lemma MemberRound(u: Unicode, first: bool, s: string, depth: nat, acc: map<string, Json>)
    requires Surrogates.TextPaired(s) && AtMore(s)
    ensures var a := AfterSeparator(s, Comma(first));
            MembersFrom(u, first, s, depth, acc) ==
            if a.Fail? then Fail else MemberFrom(u, ScanToken(a.rest), depth, acc)
  {
    var a := AfterSeparator(s, Comma(first));
    if a.Done? {
      SeparatorPaired(s, Comma(first));
      TextTokenReads(a.rest);
      MemberReads(u, a.rest, depth, acc);
    }
  }

  lemma MemberReads(u: Unicode, s: string, depth: nat, acc: map<string, Json>)
    requires Surrogates.TextPaired(s)
    ensures JsonGrammar.ReadMembers(u, s, depth, acc) == MemberFrom(u, ScanToken(s), depth, acc)
  {
    TextTokenReads(s);
  }

  lemma KeyTokenPaired(s: string, separator: Option<char>)
    requires separator != Some('\\')
    requires Surrogates.TextPaired(s)
    ensures var a := AfterSeparator(s, separator);
            a.Done? && ScanToken(a.rest).Done? && ScanToken(a.rest).value.Text? ==>
              Surrogates.TextPaired(ScanToken(a.rest).rest)
  {
    if AfterSeparator(s, separator).Done? {
      SeparatorPaired(s, separator);
      TextTokenReads(AfterSeparator(s, separator).rest);
    }
  }

  /** One round of the item loop. */
  lemma ItemRound(u: Unicode, first: bool, s: string, depth: nat, acc: seq<Json>)
    requires AtMore(s)
    ensures var a := AfterSeparator(s, Comma(first));
            ItemsFrom(u, first, s, depth, acc) == if a.Fail? then Fail else ItemFrom(u, a.rest, depth, acc)
  {
    var a := AfterSeparator(s, Comma(first));
    if a.Done? {
      assert JsonGrammar.ReadItems(u, a.rest, depth, acc) == ItemFrom(u, a.rest, depth, acc);
    }
  }

  ghost function ItemFrom(u: Unicode, s: string, depth: nat, acc: seq<Json>): Read<Json> {
    var v := JsonGrammar.ReadValue(u, s, depth + 1);
    if v.Fail? then Fail else ItemsFrom(u, false, v.rest, depth, acc + [v.value])
  }

  /** The key of the next member: string, mark bound, then the check for a colliding key. */
  method ReadKey(u: Unicode, dec: Decoder, first: bool, ghost depth: nat, ghost m: map<string, Json>, seen: set<string>)
    returns (r: Result<string, Code>)
    requires AtMore(dec.rest) && Surrogates.TextPaired(dec.rest)
    requires seen == set k | k in m :: u.nfc(k)
    modifies dec
    ensures var spec := MembersFrom(u, first, old(dec.rest), depth, m);
            if r.Err? then spec.Fail? && IsValueCode(r.error)
            else spec == MemberValueFrom(u, AfterSeparator(dec.rest, Some(':')), r.value, depth, m)
    ensures r.Ok? ==> Surrogates.TextPaired(dec.rest) && |dec.rest| < |old(dec.rest)|
  {
    MemberRound(u, first, dec.rest, depth, m);
    KeyTokenPaired(dec.rest, Comma(first));
    var key := dec.Next(Comma(first));
    if key.None? {
      return Err(InvalidJson);
    }
    if !key.value.Text? {
      return Err(InvalidKey);
    }
    var k := key.value.s;
    if !u.marksOk(k) {
      return Err(UnicodeComplexity);
    }
    if u.nfc(k) in seen {
      return Err(DuplicateKey);
    }
    return Ok(k);
  }

  /** Where the member loop stops, the object closes or the text is refused. */
  lemma MembersEnd(u: Unicode, first: bool, s: string, depth: nat, acc: map<string, Json>)
    requires !AtMore(s)
    ensures MembersFrom(u, first, s, depth, acc) ==
            if StartsWith(SkipSpace(s), '}') then Done(Object(acc), SkipSpace(s)[1..]) else Fail
  {
  }

  method ReadMembers(u: Unicode, dec: Decoder, depth: nat) returns (r: Result<Json, Code>)
    requires depth <= MAX_DEPTH && Surrogates.TextPaired(dec.rest)
    modifies dec
    ensures Agrees(r, dec.rest, MembersFrom(u, true, old(dec.rest), depth, map[]))
    ensures r.Err? ==> IsValueCode(r.error)
    decreases MAX_DEPTH + 1 - depth, 0
  {
    hide MembersFrom, JsonGrammar.ReadValue, Surrogates.TextPaired;
    var m: map<string, Json> := map[];
    var seen: set<string> := {};
    var first := true;
    ghost var spec := MembersFrom(u, true, dec.rest, depth, map[]);
    var more := dec.More();
    while more
      invariant more <==> AtMore(dec.rest)
      invariant spec == MembersFrom(u, first, dec.rest, depth, m)
      invariant seen == set k | k in m :: u.nfc(k)
      invariant Surrogates.TextPaired(dec.rest)
      decreases |dec.rest|
    {
      var k := ReadKey(u, dec, first, depth, m, seen);
      if k.Err? {
        return Err(k.error);
      }
      seen := seen + {u.nfc(k.value)};
      var v := ReadValue(u, dec, depth + 1, Some(':'));
      if v.Err? {
        return v;
      }
      JsonGrammar.SeenGrows(u, m, k.value, v.value);
      m := m[k.value := v.value];
      first := false;
      more := dec.More();
    }
    MembersEnd(u, first, dec.rest, depth, m);
    var end := dec.Next(None);
    if end != Some(Delim('}')) {
      return Err(InvalidJson);
    }
    return Ok(Object(m));
  }

  method ReadItems(u: Unicode, dec: Decoder, depth: nat) returns (r: Result<Json, Code>)
    requires depth <= MAX_DEPTH && Surrogates.TextPaired(dec.rest)
    modifies dec
    ensures Agrees(r, dec.rest, ItemsFrom(u, true, old(dec.rest), depth, []))
    ensures r.Err? ==> IsValueCode(r.error)
    decreases MAX_DEPTH + 1 - depth, 0
  {
    var a: seq<Json> := [];
    var first := true;
    ghost var spec := ItemsFrom(u, true, dec.rest, depth, []);
    var more := dec.More();
    while more
      invariant more <==> AtMore(dec.rest)
      invariant spec == ItemsFrom(u, first, dec.rest, depth, a)
      invariant Surrogates.TextPaired(dec.rest)
      decreases |dec.rest|
    {
      ItemRound(u, first, dec.rest, depth, a);
      var v := ReadValue(u, dec, depth + 1, Comma(first));
      if v.Err? {
        return v;
      }
      a := a + [v.value];
      first := false;
      more := dec.More();
    }
    if !StartsWith(SkipSpace(dec.rest), ']') { ItemsStuck(u, first, dec.rest, depth, a); }
    var end := dec.Next(None);
    if end != Some(Delim(']')) {
      return Err(InvalidJson);
    }
    return Ok(Array(a));
  }

  method ReadValue(u: Unicode, dec: Decoder, depth: nat, separator: Option<char>) returns (r: Result<Json, Code>)
    requires depth <= MAX_DEPTH + 1 && Surrogates.TextPaired(dec.rest)
    requires separator != Some('\\')
    modifies dec
    ensures var a := AfterSeparator(old(dec.rest), separator);
            Agrees(r, dec.rest, if a.Done? then JsonGrammar.ReadValue(u, a.rest, depth) else Fail)
    ensures r.Err? ==> IsValueCode(r.error)
    ensures r.Ok? ==> Surrogates.TextPaired(dec.rest) && |dec.rest| < |old(dec.rest)|
    decreases MAX_DEPTH + 1 - depth, 1
  {
    if depth > MAX_DEPTH {
      return Err(DepthLimit);
    }
    ghost var a := AfterSeparator(dec.rest, separator);
    if a.Done? {
      SeparatorPaired(dec.rest, separator);
      TokenReads(u, a.rest, depth);
      OpeningPaired(a.rest);
      Surrogates.ReadValuePaired(u, a.rest, depth);
    }
    var tok := dec.Next(separator);
    if tok.None? {
      return Err(InvalidJson);
    }
    match tok.value
    case Delim(c) =>
      if c == '{' {
        r := ReadMembers(u, dec, depth);
      } else if c == '[' {
        r := ReadItems(u, dec, depth);
      } else {
        r := Err(InvalidJson);
      }
    case Numeral(lexeme) =>
      var n := ParseInt(lexeme);
      if n.None? || n.value < -MAX_INTEGER || n.value > MAX_INTEGER {
        return Err(UnsafeNumber);
      }
      r := Ok(Number(n.value));
    case Text(s) =>
      if !u.marksOk(s) {
        return Err(UnicodeComplexity);
      }
      r := Ok(String(s));
    case Literal(v) => r := Ok(v);
  }

  /** Refuses lossy and ambiguous texts; the value is the one the strict reader sees. */
  method Decode(u: Unicode, data: seq<Utf8.Byte>) returns (r: Result<Json, Code>)
    ensures r == Err(SizeLimit) <==> |data| > MAX_BYTES
    ensures r == Err(InvalidUnicode) <==>
            |data| <= MAX_BYTES && (Utf8.Decode(data).None? || !Surrogates.WellPaired(data))
    ensures var s := Utf8.Decode(data);
            var v := if s.Some? && |data| <= MAX_BYTES then JsonGrammar.ReadText(u, s.value) else None;
            if r.Ok? then v == Some(r.value) else v.None?
  {
    if |data| > MAX_BYTES {
      return Err(SizeLimit);
    }
    var s := Utf8.Decode(data);
    if s.None? {
      return Err(InvalidUnicode);
    }
    Surrogates.PairedIsWellPaired(data);
    Surrogates.ReadableTextPaired(u, s.value);
    var ok := Surrogates.ValidSurrogates(data);
    if !ok {
      return Err(InvalidUnicode);
    }
    var dec := new Decoder(s.value);
    var v := ReadValue(u, dec, 0, None);
    if v.Err? {
      return v;
    }
    if SkipSpace(dec.rest) != "" {
      return Err(TrailingData);
    }
    return v;
  }

  // ----- Normalise -----

  method NormalizeSet(u: Unicode, v: Json) returns (r: Result<Json, Code>)
    ensures r.Ok? <==> IsSetOfStrings(u, v)
    ensures r.Ok? ==> r.value == Array(Strings(Ascending(Elements(u, v.items))))
    ensures r.Err? ==> r.error in {InvalidSet, DuplicateSetValue}
  {
    if !v.Array? {
      return Err(InvalidSet);
    }
    var values: seq<string> := [];
    for i := 0 to |v.items|
      invariant |values| == i
      invariant forall j :: 0 <= j < i ==> v.items[j].String? && values[j] == u.nfc(v.items[j].s)
    {
      if !v.items[i].String? {
        return Err(InvalidSet);
      }
      values := values + [u.nfc(v.items[i].s)];
    }
    var sorted := SortSet(values);
    if sorted.None? {
      return Err(DuplicateSetValue);
    }
    ElementsOf(u, v.items, values);
    assert |sorted.value| == |values|;
    var a := FillStrings(v.items, sorted.value);
    return Ok(Array(a));
  }

  /** Overwrites every item in place. */
  method FillStrings(items: seq<Json>, values: seq<string>) returns (a: seq<Json>)
    requires |values| == |items|
    ensures a == Strings(values)
  {
    a := items;
    for i := 0 to |values|
      invariant |a| == |values|
      invariant forall j :: 0 <= j < i ==> a[j] == String(values[j])
    {
      a := a[i := String(values[i])];
    }
  }

  /** Map iteration visits the members in any order, so which error is reported is open. */
  method NormalizeMembers(u: Unicode, m: map<string, Json>, path: string, p: Profile, ghost depth: nat)
    returns (r: Result<Json, Code>)
    requires JsonGrammar.Readable(u, Object(m), depth)
    requires path !in p.timestamps && path !in p.sets
    ensures r.Ok? <==> Accepts(u, Object(m), path, p)
    ensures r.Ok? ==> r.value == Normal(u, Object(m), path, p)
    decreases Object(m), 0
  {
    var out: map<string, Json> := map[];
    var todo := m.Keys;
    while todo != {}
      invariant todo <= m.Keys
      invariant forall k :: k in m && k !in todo && !Omitted(u, k, path, p) ==>
        && Accepts(u, m[k], MemberPath(path, u.nfc(k)), p)
        && u.nfc(k) in out && out[u.nfc(k)] == Normal(u, m[k], MemberPath(path, u.nfc(k)), p)
      invariant forall n :: n in out ==> exists k :: k in m && k !in todo && !Omitted(u, k, path, p) && u.nfc(k) == n
      decreases todo
    {
      var key :| key in todo;
      todo := todo - {key};
      var n := u.nfc(key);
      var next := MemberPath(path, n);
      if next in p.omit {
        continue;
      }
      var w := Normalize(u, m[key], next, p, depth + 1);
      if w.Err? {
        return w;
      }
      out := out[n := w.value];
    }
    MembersDone(u, m, path, p, out);
    return Ok(Object(out));
  }

  method Normalize(u: Unicode, v: Json, path: string, p: Profile, ghost depth: nat) returns (r: Result<Json, Code>)
    requires JsonGrammar.Readable(u, v, depth)
    ensures r.Ok? <==> Accepts(u, v, path, p)
    ensures r.Ok? ==> r.value == Normal(u, v, path, p)
    decreases v, 1
  {
    if path in p.timestamps {
      if !v.String? {
        return Err(InvalidTimestamp);
      }
      var stamp := Timestamps.GoTimestamp(v.s);
      if stamp.None? {
        return Err(InvalidTimestamp);
      }
      return Ok(String(stamp.value));
    }
    if path in p.sets {
      r := NormalizeSet(u, v);
      return;
    }
    match v
    case String(s) => return Ok(String(u.nfc(s)));
    case Object(m) => r := NormalizeMembers(u, m, path, p, depth);
    case Array(items) =>
      var value := items;
      for i := 0 to |items|
        invariant |value| == |items|
        invariant forall j :: i <= j < |items| ==> value[j] == items[j]
        invariant forall j :: 0 <= j < i ==>
          Accepts(u, items[j], ItemPath(path, j), p) && value[j] == Normal(u, items[j], ItemPath(path, j), p)
      {
        var n := Normalize(u, items[i], ItemPath(path, i), p, depth + 1);
        if n.Err? {
          return n;
        }
        value := value[i := n.value];
      }
      return Ok(Array(value));
    case _ => return Ok(v);
  }

  // ----- Encode -----

  lemma Assoc(a: string, b: string, c: string)
    ensures (a + b) + c == a + (b + c)
  {
  }

  lemma Enclosed(before: string, open: string, body: string, close: string)
    ensures ((before + open) + body) + close == before + (open + body + close)
  {
    Assoc(before, open, body);
    Assoc(before, open + body, close);
  }

  class Buffer {
    var text: string

    constructor ()
      ensures text == ""
    {
      text := "";
    }

    method Write(s: string)
      modifies this
      ensures text == old(text) + s
    {
      text := text + s;
    }
  }

  method QuoteRunes(out: Buffer, value: string)
    modifies out
    ensures out.text == old(out.text) + QuoteBody(value)
  {
    ghost var start := out.text;
    for i := 0 to |value|
      invariant out.text == start + QuoteBody(value[..i])
    {
      QuoteBodyAppend(value[..i], value[i]);
      assert value[..i + 1] == value[..i] + [value[i]];
      var q := QuoteChar(value[i]);
      Assoc(start, QuoteBody(value[..i]), q);
      out.Write(q);
    }
    assert value[..|value|] == value;
  }

  method QuoteTo(out: Buffer, value: string)
    modifies out
    ensures out.text == old(out.text) + Quote(value)
  {
    ghost var mark, body := "\"", QuoteBody(value);
    Assoc(out.text, mark, body);
    Assoc(out.text, mark + body, mark);
    out.Write("\"");
    QuoteRunes(out, value);
    out.Write("\"");
  }

  lemma {:induction false} QuoteBodyAppend(s: string, c: char)
    ensures QuoteBody(s + [c]) == QuoteBody(s) + QuoteChar(c)
  {
    if s == "" {
      assert s + [c] == [c];
      assert QuoteBody([c][1..]) == "";
    } else {
      assert (s + [c])[1..] == s[1..] + [c];
      QuoteBodyAppend(s[1..], c);
    }
  }

  /** The separator in front of every element but the first. */
  method WriteComma(out: Buffer, i: nat)
    modifies out
    ensures out.text == old(out.text) + if i == 0 then "" else ","
  {
    if i > 0 {
      out.Write(",");
    } else {
      assert out.text + "" == out.text;
    }
  }

  method EncodeItems(out: Buffer, items: seq<Json>)
    modifies out
    ensures out.text == old(out.text) + JsonGrammar.PrintItems(items)
    decreases items, 0
  {
    ghost var start := out.text;
    for i := 0 to |items|
      invariant out.text == start + JsonGrammar.PrintItems(items[..i])
    {
      JsonGrammar.PrintItemsSnoc(items[..i], items[i]);
      assert items[..i + 1] == items[..i] + [items[i]];
      ghost var done, comma := JsonGrammar.PrintItems(items[..i]), if i == 0 then "" else ",";
      Assoc(start, done, comma);
      Assoc(start, done + comma, JsonGrammar.Print(items[i]));
      Assoc(done, comma, JsonGrammar.Print(items[i]));
      WriteComma(out, i);
      Encode(out, items[i]);
    }
    assert items[..|items|] == items;
  }

  method EncodeMember(out: Buffer, v: Json, key: string)
    requires v.Object? && key in v.members
    modifies out
    ensures out.text == old(out.text) + JsonGrammar.PrintMember(v, key)
    decreases v, 0, 0
  {
    ghost var name, value := Quote(key), JsonGrammar.Print(v.members[key]);
    Assoc(out.text, name, ":" + value);
    Assoc(out.text + name, ":", value);
    QuoteTo(out, key);
    out.Write(":");
    Encode(out, v.members[key]);
  }

  /** Text printed so far, a comma unless it is empty, and the next member. */
  lemma NextMember(start: string, v: Json, keys: seq<string>, i: nat)
    requires JsonGrammar.Names(v, keys) && i < |keys|
    ensures var comma := if i == 0 then "" else ",";
            start + JsonGrammar.PrintMembers(v, keys[..i]) + comma + JsonGrammar.PrintMember(v, keys[i]) ==
            start + JsonGrammar.PrintMembers(v, keys[..i + 1])
  {
    JsonGrammar.PrintMembersSnoc(v, keys[..i], keys[i]);
    assert keys[..i + 1] == keys[..i] + [keys[i]];
    var done, comma := JsonGrammar.PrintMembers(v, keys[..i]), if i == 0 then "" else ",";
    var next := JsonGrammar.PrintMember(v, keys[i]);
    Assoc(start, done, comma);
    Assoc(start, done + comma, next);
    Assoc(done, comma, next);
  }

  method EncodeMembers(out: Buffer, v: Json)
    requires v.Object?
    modifies out
    ensures out.text == old(out.text) + JsonGrammar.PrintMembers(v, Ascending(v.members.Keys))
    decreases v, 0, 2
  {
    var keys := SortedKeys(v.members.Keys);
    assert forall k :: k in keys ==> k in v.members;
    EncodeNamed(out, v, keys);
  }

  method EncodeNamed(out: Buffer, v: Json, keys: seq<string>)
    requires JsonGrammar.Names(v, keys)
    modifies out
    ensures out.text == old(out.text) + JsonGrammar.PrintMembers(v, keys)
    decreases v, 0, 1
  {
    ghost var start := out.text;
    for i := 0 to |keys|
      invariant out.text == start + JsonGrammar.PrintMembers(v, keys[..i])
    {
      NextMember(start, v, keys, i);
      WriteComma(out, i);
      EncodeMember(out, v, keys[i]);
    }
    assert keys[..|keys|] == keys;
  }

  method Encode(out: Buffer, v: Json)
    modifies out
    ensures out.text == old(out.text) + JsonGrammar.Print(v)
    decreases v, 1
  {
    match v
    case Null => out.Write("null");
    case Bool(b) => out.Write(if b then "true" else "false");
    case Number(n) => out.Write(IntText(n));
    case String(s) => QuoteTo(out, s);
    case Array(items) =>
      Enclosed(out.text, "[", JsonGrammar.PrintItems(items), "]");
      out.Write("[");
      EncodeItems(out, items);
      out.Write("]");
    case Object(m) =>
      Enclosed(out.text, "{", JsonGrammar.PrintMembers(v, Ascending(m.Keys)), "}");
      out.Write("{");
      EncodeMembers(out, v);
      out.Write("}");
  }

  // ----- Canonicalize -----

  /** The canonical bytes of a byte string, when it is accepted. */
  ghost function CanonicalBytes(u: Unicode, data: seq<Utf8.Byte>, p: Profile): Option<seq<Utf8.Byte>> {
    var s := Utf8.Decode(data);
    if s.None? then None
    else
      var c := Canonical(u, s.value, p);
      if c.None? then None else Some(Utf8.Encode(c.value))
  }

  method Canonicalize(u: Unicode, data: seq<Utf8.Byte>, p: Profile) returns (r: Result<seq<Utf8.Byte>, Code>)
    ensures if r.Ok? then CanonicalBytes(u, data, p) == Some(r.value) else CanonicalBytes(u, data, p).None?
    ensures |data| > MAX_BYTES ==> r == Err(SizeLimit)
    ensures |data| <= MAX_BYTES && (Utf8.Decode(data).None? || !Surrogates.WellPaired(data)) ==>
      r == Err(InvalidUnicode)
  {
    var v := Decode(u, data);
    if v.Err? {
      return Err(v.error);
    }
    ReadTextReadable(u, Utf8.Decode(data).value);
    var w := Normalize(u, v.value, "", p, 0);
    if w.Err? {
      return Err(w.error);
    }
    var out := new Buffer();
    Encode(out, w.value);
    ghost var printed := JsonGrammar.Print(w.value);
    assert out.text == "" + printed == printed;
    return Ok(Utf8.Encode(out.text));
  }

  /** On the bytes: reading canonical bytes again gives the same bytes, within the size limit. */
  lemma CanonicalBytesIdempotent(u: Unicode, data: seq<Utf8.Byte>, p: Profile)
    requires u.Lawful() && CanonicalBytes(u, data, p).Some?
    ensures var c := CanonicalBytes(u, data, p).value;
            CanonicalBytes(u, c, p) == (if |c| <= MAX_BYTES then Some(c) else None)
  {
    var s := Utf8.Decode(data).value;
    CanonicalIdempotent(u, s, p);
    Utf8.DecodeEncoded(Canonical(u, s, p).value);
  }
}
