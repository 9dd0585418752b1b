/**
 Reading and printing whole values: a declarative reader that both implementations
 refine, the canonical printer, and the round trip between them.
 */
module JsonGrammar {
  import opened Wrappers
  import opened Ordering
  import opened JsonText

  // ----- Reader -----

  predicate IsNew(u: Unicode, key: string, acc: map<string, Json>) {
    forall k :: k in acc ==> u.nfc(k) != u.nfc(key)
  }

  function ReadLiteral(t: string): (r: Read<Json>)
    ensures r.Done? ==> |r.rest| < |t|
  {
    if "null" <= t then Done(Null, t[4..])
    else if "true" <= t then Done(Bool(true), t[4..])
    else if "false" <= t then Done(Bool(false), t[5..])
    else Fail
  }

  /** One value from the front of s, whose nesting level is depth. */
  function ReadValue(u: Unicode, s: string, depth: nat): (r: Read<Json>)
    ensures r.Done? ==> |r.rest| < |s|
    decreases |s|, 0
  {
    var t := SkipSpace(s);
    if depth > MAX_DEPTH || t == "" then Fail
    else if t[0] == '"' then
      var q := Unquote(t[1..]);
      if q.Done? && u.marksOk(q.value) then Done(String(q.value), q.rest) else Fail
    else if t[0] == '{' then
      var body := SkipSpace(t[1..]);
      if StartsWith(body, '}') then Done(Object(map[]), body[1..])
      else ReadMembers(u, t[1..], depth, map[])
    else if t[0] == '[' then
      var body := SkipSpace(t[1..]);
      if StartsWith(body, ']') then Done(Array([]), body[1..])
      else ReadItems(u, t[1..], depth, [])
    else if ReadLiteral(t).Done? then ReadLiteral(t)
    else
      var n := ReadNumber(t);
      if n.Done? then Done(Number(n.value), n.rest) else Fail
  }

  /** The key of one member and the text after its colon. Colliding keys are refused. */
  function ReadKey(u: Unicode, s: string, acc: map<string, Json>): (r: Read<string>)
    ensures r.Done? ==> |r.rest| < |s|
    ensures r.Done? ==> u.marksOk(r.value) && IsNew(u, r.value, acc)
  {
    var t := SkipSpace(s);
    if !StartsWith(t, '"') then Fail
    else
      var q := Unquote(t[1..]);
      if q.Fail? || !u.marksOk(q.value) || !IsNew(u, q.value, acc) then Fail
      else
        var c := SkipSpace(q.rest);
        if StartsWith(c, ':') then Done(q.value, c[1..]) else Fail
  }

  /** One member and those that follow it up to the closing brace, added to acc. */
  function ReadMembers(u: Unicode, s: string, depth: nat, acc: map<string, Json>): (r: Read<Json>)
    ensures r.Done? ==> |r.rest| < |s|
    decreases |s|, 1
  {
    var k := ReadKey(u, s, acc);
    if k.Fail? then Fail
    else
      var v := ReadValue(u, k.rest, depth + 1);
      if v.Fail? then Fail else MoreMembers(u, v.rest, depth, acc[k.value := v.value])
  }

  /** What may follow a member: the closing brace, or a comma and another member. */
  function MoreMembers(u: Unicode, s: string, depth: nat, acc: map<string, Json>): (r: Read<Json>)
    ensures r.Done? ==> |r.rest| < |s|
    decreases |s|, 2
  {
    var t := SkipSpace(s);
    if StartsWith(t, '}') then Done(Object(acc), t[1..])
    else if StartsWith(t, ',') then ReadMembers(u, t[1..], depth, acc)
    else Fail
  }

  /** One item and those that follow it up to the closing bracket, appended to acc. */
  function ReadItems(u: Unicode, s: string, depth: nat, acc: seq<Json>): (r: Read<Json>)
    ensures r.Done? ==> |r.rest| < |s|
    decreases |s|, 1
  {
    var v := ReadValue(u, s, depth + 1);
    if v.Fail? then Fail else MoreItems(u, v.rest, depth, acc + [v.value])
  }

  function MoreItems(u: Unicode, s: string, depth: nat, acc: seq<Json>): (r: Read<Json>)
    ensures r.Done? ==> |r.rest| < |s|
    decreases |s|, 2
  {
    var t := SkipSpace(s);
    if StartsWith(t, ']') then Done(Array(acc), t[1..])
    else if StartsWith(t, ',') then ReadItems(u, t[1..], depth, acc)
    else Fail
  }

  /** A complete text: one value and white space. */
  function ReadText(u: Unicode, s: string): Option<Json> {
    var v := ReadValue(u, s, 0);
    if v.Done? && SkipSpace(v.rest) == "" then Some(v.value) else None
  }

  /** The set of normalised keys that both readers keep beside the members. */
  lemma SeenGrows(u: Unicode, m: map<string, Json>, key: string, v: Json)
    ensures (set k | k in m[key := v] :: u.nfc(k)) == (set k | k in m :: u.nfc(k)) + {u.nfc(key)}
  {
  }

  // ----- What a reader can return -----

  ghost predicate KeysDistinct(u: Unicode, m: map<string, Json>) {
    forall j, k :: j in m && k in m && u.nfc(j) == u.nfc(k) ==> j == k
  }

  /** The values a reader can produce at the given nesting level. */
  ghost predicate Readable(u: Unicode, v: Json, depth: nat) {
    depth <= MAX_DEPTH &&
    match v
    case Null => true
    case Bool(_) => true
    case Number(n) => -MAX_INTEGER <= n <= MAX_INTEGER
    case String(s) => u.marksOk(s)
    case Array(items) => forall i :: 0 <= i < |items| ==> Readable(u, items[i], depth + 1)
    case Object(m) =>
      && KeysDistinct(u, m)
      && forall k :: k in m ==> u.marksOk(k) && Readable(u, m[k], depth + 1)
  }

  lemma {:induction false} ReadValueReadable(u: Unicode, s: string, depth: nat)
    ensures var r := ReadValue(u, s, depth); r.Done? ==> Readable(u, r.value, depth)
    decreases |s|, 0
  {
    var t := SkipSpace(s);
    if depth <= MAX_DEPTH && t != "" {
      if t[0] == '{' {
        if !StartsWith(SkipSpace(t[1..]), '}') { ReadMembersReadable(u, t[1..], depth, map[]); }
      } else if t[0] == '[' {
        if !StartsWith(SkipSpace(t[1..]), ']') { ReadItemsReadable(u, t[1..], depth, []); }
      }
    }
  }

  lemma {:induction false} ReadMembersReadable(u: Unicode, s: string, depth: nat, acc: map<string, Json>)
    requires Readable(u, Object(acc), depth)
    ensures var r := ReadMembers(u, s, depth, acc); r.Done? ==> Readable(u, r.value, depth)
    decreases |s|, 1
  {
    var k := ReadKey(u, s, acc);
    if k.Done? {
      ReadValueReadable(u, k.rest, depth + 1);
      var v := ReadValue(u, k.rest, depth + 1);
      if v.Done? {
        var next := acc[k.value := v.value];
        assert Readable(u, Object(next), depth);
        var t := SkipSpace(v.rest);
        if !StartsWith(t, '}') && StartsWith(t, ',') { ReadMembersReadable(u, t[1..], depth, next); }
      }
    }
  }

  lemma {:induction false} ReadItemsReadable(u: Unicode, s: string, depth: nat, acc: seq<Json>)
    requires Readable(u, Array(acc), depth)
    ensures var r := ReadItems(u, s, depth, acc); r.Done? ==> Readable(u, r.value, depth)
    decreases |s|, 1
  {
    ReadValueReadable(u, s, depth + 1);
    var v := ReadValue(u, s, depth + 1);
    if v.Done? {
      assert Readable(u, Array(acc + [v.value]), depth);
      var t := SkipSpace(v.rest);
      if !StartsWith(t, ']') && StartsWith(t, ',') { ReadItemsReadable(u, t[1..], depth, acc + [v.value]); }
    }
  }

  // ----- Printer -----

  /** Canonical text: members in ascending key order, no white space. */
  ghost function Print(v: Json): string
    decreases v, 1, 0
  {
    match v
    case Null => "null"
    case Bool(b) => if b then "true" else "false"
    case Number(n) => IntText(n)
    case String(s) => Quote(s)
    case Array(items) => "[" + PrintItems(items) + "]"
    case Object(m) =>
      assert forall k :: k in Ascending(m.Keys) ==> k in m;
      "{" + PrintMembers(v, Ascending(m.Keys)) + "}"
  }

  ghost function PrintItems(items: seq<Json>): string
    decreases items, 0, 0
  {
    if items == [] then ""
    else Print(items[0]) + (if |items| == 1 then "" else "," + PrintItems(items[1..]))
  }

  ghost predicate Names(v: Json, keys: seq<string>) {
    v.Object? && forall i :: 0 <= i < |keys| ==> keys[i] in v.members
  }

  ghost function PrintMembers(v: Json, keys: seq<string>): string
    requires Names(v, keys)
    decreases v, 0, |keys|
  {
    if keys == [] then ""
    else PrintMember(v, keys[0]) + (if |keys| == 1 then "" else "," + PrintMembers(v, keys[1..]))
  }

  ghost function PrintMember(v: Json, key: string): string
    requires v.Object? && key in v.members
    decreases v, 0, 0
  {
    Quote(key) + (":" + Print(v.members[key]))
  }

  /** Printing extends item by item. */
  lemma {:induction false} PrintItemsSnoc(items: seq<Json>, x: Json)
    ensures PrintItems(items + [x]) == PrintItems(items) + ((if items == [] then "" else ",") + Print(x))
    decreases |items|
  {
    if items == [] {
      assert items + [x] == [x];
    } else {
      assert (items + [x])[1..] == items[1..] + [x];
      PrintItemsSnoc(items[1..], x);
    }
  }

  /** Printing extends member by member. */
  lemma {:induction false} PrintMembersSnoc(v: Json, keys: seq<string>, key: string)
    requires v.Object? && key in v.members && Names(v, keys)
    ensures PrintMembers(v, keys + [key]) ==
            PrintMembers(v, keys) + ((if keys == [] then "" else ",") + PrintMember(v, key))
    decreases |keys|
  {
    if keys == [] {
      assert keys + [key] == [key];
    } else {
      assert (keys + [key])[1..] == keys[1..] + [key];
      PrintMembersSnoc(v, keys[1..], key);
    }
  }

  // ----- Round trip -----

  lemma PrintStart(v: Json)
    ensures var e := Print(v); e != "" && !IsSpace(e[0]) && e[0] != ']' && e[0] != '}'
  {
  }

  /** Printing a readable value and reading it back gives the value and what followed it. */
  lemma {:induction false} RoundTrip(u: Unicode, v: Json, depth: nat, rest: string)
    requires Readable(u, v, depth) && EndsNumber(rest)
    ensures ReadValue(u, Print(v) + rest, depth) == Done(v, rest)
    decreases v, 1, 0
  {
    match v
    case Null => assert ("null" + rest)[4..] == rest;
    case Bool(b) => BoolRoundTrip(u, b, depth, rest);
    case Number(n) => NumberRoundTrip(u, n, depth, rest);
    case String(t) => StringRoundTrip(u, t, depth, rest);
    case Array(items) => ArrayCase(u, items, depth, rest);
    case Object(m) => ObjectCase(u, m, depth, rest);
  }

  lemma {:induction false} ArrayCase(u: Unicode, items: seq<Json>, depth: nat, rest: string)
    requires Readable(u, Array(items), depth)
    ensures ReadValue(u, Print(Array(items)) + rest, depth) == Done(Array(items), rest)
    decreases Array(items), 0, 0
  {
    if items == [] {
      EmptyArrayRoundTrip(u, depth, rest);
    } else {
      ItemsRoundTrip(u, items, depth, [], rest);
      PrintStart(items[0]);
      assert [] + items == items;
      ArrayRoundTrip(u, Array(items), PrintItems(items), depth, rest);
    }
  }

  lemma {:induction false} ObjectCase(u: Unicode, m: map<string, Json>, depth: nat, rest: string)
    requires Readable(u, Object(m), depth)
    ensures ReadValue(u, Print(Object(m)) + rest, depth) == Done(Object(m), rest)
    decreases Object(m), 0, |m| + 1
  {
    if m == map[] {
      EmptyObjectRoundTrip(u, depth, rest);
    } else {
      var v, keys := Object(m), Ascending(m.Keys);
      var k :| k in m;
      assert k in keys && forall k :: k in keys ==> k in m;
      MembersRoundTrip(u, v, keys, depth, map[], rest);
      MembersText(v, keys, rest);
      ObjectRoundTrip(u, v, PrintMembers(v, keys), depth, rest);
    }
  }

  lemma BoolRoundTrip(u: Unicode, b: bool, depth: nat, rest: string)
    requires depth <= MAX_DEPTH
    ensures ReadValue(u, Print(Bool(b)) + rest, depth) == Done(Bool(b), rest)
  {
    var text := if b then "true" else "false";
    assert (text + rest)[|text|..] == rest;
    LiteralRoundTrip(u, text, Bool(b), depth, rest);
  }

  /** A literal is read where neither a string nor a bracket begins. */
  lemma LiteralRoundTrip(u: Unicode, text: string, v: Json, depth: nat, rest: string)
    requires depth <= MAX_DEPTH && text != "" && !IsSpace(text[0])
    requires text[0] != '"' && text[0] != '{' && text[0] != '['
    requires ReadLiteral(text + rest) == Done(v, rest)
    ensures ReadValue(u, text + rest, depth) == Done(v, rest)
  {
    hide ReadLiteral, ReadMembers, ReadItems, ReadNumber, Unquote;
    assert (text + rest)[0] == text[0];
  }

  lemma NumberRoundTrip(u: Unicode, n: int, depth: nat, rest: string)
    requires Readable(u, Number(n), depth) && EndsNumber(rest)
    ensures ReadValue(u, IntText(n) + rest, depth) == Done(Number(n), rest)
  {
    ReadNumberPrinted(n, rest);
    NumberStart(n, rest);
    hide IntText, ReadNumber, ReadLiteral;
  }

  /** A printed number begins with a sign or a digit. */
  lemma NumberStart(n: int, rest: string)
    ensures var t := IntText(n) + rest;
            t != "" && (t[0] == '-' || IsDigit(t[0])) && SkipSpace(t) == t && ReadLiteral(t).Fail?
  {
    var t := IntText(n) + rest;
    assert t[0] == IntText(n)[0];
  }

  lemma StringRoundTrip(u: Unicode, t: string, depth: nat, rest: string)
    requires Readable(u, String(t), depth)
    ensures ReadValue(u, Quote(t) + rest, depth) == Done(String(t), rest)
  {
    UnquoteQuotedText(t, rest);
  }

  lemma UnquoteQuotedText(t: string, rest: string)
    ensures var s := Quote(t) + rest;
            StartsWith(s, '"') && SkipSpace(s) == s && Unquote(s[1..]) == Done(t, rest)
  {
    var s := Quote(t) + rest;
    UnquoteQuoted(t, rest);
    hide Unquote, QuoteBody;
    assert s[1..] == QuoteBody(t) + "\"" + rest;
  }

  /** The first step of reading an array. */
  lemma ReadArray(u: Unicode, body: string, depth: nat)
    requires depth <= MAX_DEPTH
    ensures var t := SkipSpace(body);
            ReadValue(u, "[" + body, depth) ==
            if StartsWith(t, ']') then Done(Array([]), t[1..]) else ReadItems(u, body, depth, [])
  {
    Braces("[", body);
  }

  lemma ArrayRoundTrip(u: Unicode, v: Json, text: string, depth: nat, rest: string)
    requires depth <= MAX_DEPTH && text != "" && !IsSpace(text[0]) && text[0] != ']'
    requires ReadItems(u, text + ("]" + rest), depth, []) == Done(v, rest)
    ensures ReadValue(u, ("[" + text + "]") + rest, depth) == Done(v, rest)
  {
    var body := text + ("]" + rest);
    ReadArray(u, body, depth);
    assert SkipSpace(body) == body;
    assert ("[" + text + "]") + rest == "[" + body;
  }

  lemma EmptyArrayRoundTrip(u: Unicode, depth: nat, rest: string)
    requires depth <= MAX_DEPTH
    ensures ReadValue(u, Print(Array([])) + rest, depth) == Done(Array([]), rest)
  {
    ReadArray(u, "]" + rest, depth);
    Braces("]", rest);
    assert Print(Array([])) + rest == "[" + ("]" + rest);
  }

  /** What follows the first item in the text of an array. */
  ghost function ItemsTail(items: seq<Json>, rest: string): string
    requires items != []
  {
    if |items| == 1 then "]" + rest else "," + (PrintItems(items[1..]) + ("]" + rest))
  }

  lemma ItemsText(items: seq<Json>, rest: string)
    requires items != []
    ensures var tail := ItemsTail(items, rest);
            && PrintItems(items) + ("]" + rest) == Print(items[0]) + tail
            && EndsNumber(tail) && SkipSpace(tail) == tail
            && (|items| == 1 ==> StartsWith(tail, ']') && tail[1..] == rest)
            && (|items| > 1 ==> StartsWith(tail, ',') && tail[1..] == PrintItems(items[1..]) + ("]" + rest))
  {
    if |items| > 1 {
      Regroup(Print(items[0]), ",", PrintItems(items[1..]), "]" + rest);
    } else {
      assert Print(items[0]) + "" == Print(items[0]);
    }
  }

  lemma Regroup(a: string, mark: string, b: string, c: string)
    ensures (a + (mark + b)) + c == a + (mark + (b + c))
  {
  }

  /** One round of the item loop, for a text whose first value is known. */
  lemma ReadItemsStep(u: Unicode, s: string, depth: nat, acc: seq<Json>, v: Json, tail: string)
    requires ReadValue(u, s, depth + 1) == Done(v, tail) && SkipSpace(tail) == tail
    ensures StartsWith(tail, ']') ==> ReadItems(u, s, depth, acc) == Done(Array(acc + [v]), tail[1..])
    ensures StartsWith(tail, ',') ==> ReadItems(u, s, depth, acc) == ReadItems(u, tail[1..], depth, acc + [v])
  {
  }

  lemma {:induction false} ItemsRoundTrip(u: Unicode, items: seq<Json>, depth: nat, acc: seq<Json>, rest: string)
    requires items != [] && depth <= MAX_DEPTH
    requires forall i :: 0 <= i < |items| ==> Readable(u, items[i], depth + 1)
    ensures ReadItems(u, PrintItems(items) + ("]" + rest), depth, acc) == Done(Array(acc + items), rest)
    decreases items, 0, 0
  {
    var tail := ItemsTail(items, rest);
    ItemsText(items, rest);
    RoundTrip(u, items[0], depth + 1, tail);
    ReadItemsStep(u, PrintItems(items) + ("]" + rest), depth, acc, items[0], tail);
    SplitFirst(acc, items);
    if |items| > 1 {
      ItemsRoundTrip(u, items[1..], depth, acc + [items[0]], rest);
    }
  }

  lemma Braces(mark: string, s: string)
    requires |mark| == 1 && !IsSpace(mark[0])
    ensures (mark + s)[1..] == s && SkipSpace(mark + s) == mark + s && (mark + s)[0] == mark[0]
  {
  }

  lemma SplitFirst<T>(acc: seq<T>, items: seq<T>)
    requires items != []
    ensures acc + items == (acc + [items[0]]) + items[1..]
    ensures |items| == 1 ==> acc + items == acc + [items[0]]
  {
  }

  /** The first step of reading an object. */
  lemma ReadObject(u: Unicode, body: string, depth: nat)
    requires depth <= MAX_DEPTH
    ensures var t := SkipSpace(body);
            ReadValue(u, "{" + body, depth) ==
            if StartsWith(t, '}') then Done(Object(map[]), t[1..]) else ReadMembers(u, body, depth, map[])
  {
    Braces("{", body);
  }

  lemma ObjectRoundTrip(u: Unicode, v: Json, text: string, depth: nat, rest: string)
    requires depth <= MAX_DEPTH && StartsWith(text + ("}" + rest), '"')
    requires ReadMembers(u, text + ("}" + rest), depth, map[]) == Done(v, rest)
    ensures ReadValue(u, ("{" + text + "}") + rest, depth) == Done(v, rest)
  {
    var body := text + ("}" + rest);
    ReadObject(u, body, depth);
    assert SkipSpace(body) == body;
    assert ("{" + text + "}") + rest == "{" + body;
  }

  lemma EmptyObjectRoundTrip(u: Unicode, depth: nat, rest: string)
    requires depth <= MAX_DEPTH
    ensures ReadValue(u, Print(Object(map[])) + rest, depth) == Done(Object(map[]), rest)
  {
    ReadObject(u, "}" + rest, depth);
    Braces("}", rest);
    assert Print(Object(map[])) == "{" + "" + "}";
    assert Print(Object(map[])) + rest == "{" + ("}" + rest);
  }

  /** What follows the first member in the text of an object. */
  ghost function MembersTail(v: Json, keys: seq<string>, rest: string): string
    requires keys != [] && Names(v, keys)
  {
    if |keys| == 1 then "}" + rest else "," + (PrintMembers(v, keys[1..]) + ("}" + rest))
  }

  lemma MembersText(v: Json, keys: seq<string>, rest: string)
    requires keys != [] && Names(v, keys)
    ensures var tail, s := MembersTail(v, keys, rest), PrintMembers(v, keys) + ("}" + rest);
            && s == Quote(keys[0]) + (":" + (Print(v.members[keys[0]]) + tail)) && StartsWith(s, '"')
            && EndsNumber(tail) && SkipSpace(tail) == tail
            && (|keys| == 1 ==> StartsWith(tail, '}') && tail[1..] == rest)
            && (|keys| > 1 ==> StartsWith(tail, ',') && tail[1..] == PrintMembers(v, keys[1..]) + ("}" + rest))
  {
    var q, e, tail := Quote(keys[0]), Print(v.members[keys[0]]), MembersTail(v, keys, rest);
    assert PrintMembers(v, keys) + ("}" + rest) == PrintMember(v, keys[0]) + tail;
    Regroup(q, ":", e, tail);
  }

  /** One round of the member loop, for a text whose first member is known. */
  lemma ReadMembersStep(
      u: Unicode, s: string, depth: nat, acc: map<string, Json>, key: string, after: string, v: Json, tail: string)
    requires ReadKey(u, s, acc) == Done(key, after)
    requires ReadValue(u, after, depth + 1) == Done(v, tail) && SkipSpace(tail) == tail
    ensures StartsWith(tail, '}') ==>
              ReadMembers(u, s, depth, acc) == Done(Object(acc[key := v]), tail[1..])
    ensures StartsWith(tail, ',') ==>
              ReadMembers(u, s, depth, acc) == ReadMembers(u, tail[1..], depth, acc[key := v])
  {
  }

  /** The members of v are those in acc and those named by keys. */
  ghost predicate RestOf(v: Json, keys: seq<string>, acc: map<string, Json>) {
    && v.Object?
    && (forall k :: k in keys ==> k in v.members && k !in acc)
    && (forall k :: k in v.members <==> k in keys || k in acc)
    && (forall k :: k in acc ==> k in v.members && acc[k] == v.members[k])
  }

  lemma {:induction false} MembersRoundTrip(
      u: Unicode, v: Json, keys: seq<string>, depth: nat, acc: map<string, Json>, rest: string)
    requires keys != [] && StrictlyAscending(keys) && RestOf(v, keys, acc)
    requires Readable(u, v, depth)
    ensures ReadMembers(u, PrintMembers(v, keys) + ("}" + rest), depth, acc) == Done(v, rest)
    decreases v, 0, |keys|
  {
    var key, value := keys[0], v.members[keys[0]];
    var tail, next := MembersTail(v, keys, rest), acc[key := value];
    MembersText(v, keys, rest);
    KeyRoundTrip(u, key, Print(value) + tail, acc);
    RoundTrip(u, value, depth + 1, tail);
    ReadMembersStep(
      u, PrintMembers(v, keys) + ("}" + rest), depth, acc, key, Print(value) + tail, value, tail);
    RestOfStep(v, keys, acc);
    if |keys| > 1 {
      MembersRoundTrip(u, v, keys[1..], depth, next, rest);
    } else {
      assert next == v.members;
    }
  }

  lemma KeyRoundTrip(u: Unicode, key: string, rest: string, acc: map<string, Json>)
    requires u.marksOk(key) && IsNew(u, key, acc)
    ensures ReadKey(u, Quote(key) + (":" + rest), acc) == Done(key, rest)
  {
    var colon := ":" + rest;
    UnquoteQuotedText(key, colon);
    assert SkipSpace(colon) == colon && colon[1..] == rest;
  }

  lemma RestOfStep(v: Json, keys: seq<string>, acc: map<string, Json>)
    requires keys != [] && StrictlyAscending(keys) && RestOf(v, keys, acc)
    ensures RestOf(v, keys[1..], acc[keys[0] := v.members[keys[0]]])
    ensures StrictlyAscending(keys[1..])
  {
    forall k
      ensures k in keys[1..] <==> k in keys && k != keys[0]
    {
      AscendingTail(keys, k);
    }
  }

  /** Reading inverts printing on every readable value, and only readable values are read. */
  lemma PrintedTextReads(u: Unicode, v: Json)
    requires Readable(u, v, 0)
    ensures ReadText(u, Print(v)) == Some(v)
  {
    RoundTrip(u, v, 0, "");
    assert Print(v) + "" == Print(v);
  }

  /** Distinct readable values have distinct canonical texts. */
  lemma PrintInjective(u: Unicode, v: Json, w: Json)
    requires Readable(u, v, 0) && Readable(u, w, 0)
    requires Print(v) == Print(w)
    ensures v == w
  {
    PrintedTextReads(u, v);
    PrintedTextReads(u, w);
  }
}
