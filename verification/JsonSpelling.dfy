/** Every way to spell a JSON value, and that exactly these texts are read as it. */
module JsonSpelling {
  import opened Wrappers
  import opened Ordering
  import opened JsonText
  import opened JsonGrammar
  import opened JsonLiterals

  // ----- Values -----

  /** Blanks, tabs, line feeds and carriage returns. */
  predicate IsWhite(s: string) {
    forall i :: 0 <= i < |s| ==> s[i] as int in {0x20, 0x09, 0x0A, 0x0D}
  }

  /**
   A value with everything that a writer of JSON may choose: the white space around each token,
   the spelling of each character, the order of members, and the sign of zero.
   */
  datatype Spelling =
    | Word(before: string, text: string, value: Json)
    | Quoted(before: string, pieces: seq<string>, s: string)
    | Listed(before: string, items: seq<Slot>, blank: string)
    | Keyed(before: string, members: seq<Entry>, blank: string)

  datatype Slot = Slot(item: Spelling, after: string)

  datatype Entry = Entry(before: string, pieces: seq<string>, key: string, colon: string, item: Spelling, after: string)

  predicate SpellsWord(v: Json, t: string) {
    match v
    case Null => t == "null"
    case Bool(b) => t == if b then "true" else "false"
    case Number(n) => SpellsNumber(n, t)
    case _ => false
  }

  predicate WellSpelled(sp: Spelling) {
    IsWhite(sp.before) &&
    match sp
    case Word(_, text, value) => SpellsWord(value, text)
    case Quoted(_, pieces, s) => SpellsText(s, pieces)
    case Listed(_, items, blank) => IsWhite(blank) && forall i :: 0 <= i < |items| ==> WellSlot(items[i])
    case Keyed(_, members, blank) =>
      && IsWhite(blank) && (forall i :: 0 <= i < |members| ==> WellEntry(members[i]))
      && forall i, j :: 0 <= i < j < |members| ==> members[i].key != members[j].key
  }

  predicate WellSlot(slot: Slot) {
    IsWhite(slot.after) && WellSpelled(slot.item)
  }

  predicate WellEntry(e: Entry) {
    IsWhite(e.before) && SpellsText(e.key, e.pieces) && IsWhite(e.colon) && WellSpelled(e.item) && IsWhite(e.after)
  }

  function Text(sp: Spelling): string
    decreases sp, 2
  {
    sp.before + Core(sp)
  }

  /** The text behind the first white space; an empty list or object may hold some of its own. */
  function Core(sp: Spelling): string
    decreases sp, 1
  {
    match sp
    case Word(_, text, _) => text
    case Quoted(_, pieces, _) => "\"" + (Concat(pieces) + "\"")
    case Listed(_, items, blank) => "[" + ((if items == [] then blank else SlotsText(items)) + "]")
    case Keyed(_, members, blank) => "{" + ((if members == [] then blank else EntriesText(members)) + "}")
  }

  function SlotsText(items: seq<Slot>): string
    requires items != []
    decreases items, 0
  {
    Text(items[0].item) + (items[0].after + (if |items| == 1 then "" else "," + SlotsText(items[1..])))
  }

  function EntriesText(members: seq<Entry>): string
    requires members != []
    decreases members, 0
  {
    var e := members[0];
    e.before + ("\"" + (Concat(e.pieces) + ("\"" + (e.colon + (":" + (Text(e.item) +
      (e.after + (if |members| == 1 then "" else "," + EntriesText(members[1..])))))))))
  }

  function ValueOf(sp: Spelling): Json
    decreases sp, 1
  {
    match sp
    case Word(_, _, value) => value
    case Quoted(_, _, s) => String(s)
    case Listed(_, items, _) => Array(seq(|items|, i requires 0 <= i < |items| => ValueOf(items[i].item)))
    case Keyed(_, members, _) => Object(Added(map[], members))
  }

  /** The members, added one after the other. */
  function Added(m: map<string, Json>, members: seq<Entry>): map<string, Json>
    decreases members, 0
  {
    if members == [] then m else Added(m[members[0].key := ValueOf(members[0].item)], members[1..])
  }

  // ----- White space -----

  lemma {:induction false} SkipsWhite(w: string, t: string)
    requires IsWhite(w)
    ensures SkipSpace(w + t) == SkipSpace(t)
  {
    if w == "" {
      assert w + t == t;
    } else {
      assert (w + t)[1..] == w[1..] + t;
      SkipsWhite(w[1..], t);
    }
  }

  lemma {:induction false} SpaceSkipped(t: string) returns (w: string)
    ensures IsWhite(w) && t == w + SkipSpace(t)
  {
    if t != "" && IsSpace(t[0]) {
      var rest := SpaceSkipped(t[1..]);
      w := [t[0]] + rest;
    } else {
      w := "";
    }
  }

  /** White space in front of a value changes nothing. */
  lemma SpaceBeforeValue(u: Unicode, w: string, t: string, depth: nat)
    requires IsWhite(w)
    ensures ReadValue(u, w + t, depth) == ReadValue(u, t, depth)
  {
    SkipsWhite(w, t);
    hide SkipSpace, Unquote, ReadNumber, ReadLiteral, ReadMembers, ReadItems;
  }

  /** Nor in front of a key, of what follows a member, or of what follows an item. */
  lemma SpaceBeforeTokens(u: Unicode, w: string, t: string, depth: nat, m: map<string, Json>, a: seq<Json>)
    requires IsWhite(w)
    ensures ReadKey(u, w + t, m) == ReadKey(u, t, m)
    ensures ReadMembers(u, w + t, depth, m) == ReadMembers(u, t, depth, m)
    ensures MoreMembers(u, w + t, depth, m) == MoreMembers(u, t, depth, m)
    ensures ReadItems(u, w + t, depth, a) == ReadItems(u, t, depth, a)
    ensures MoreItems(u, w + t, depth, a) == MoreItems(u, t, depth, a)
  {
    SkipsWhite(w, t);
    SpaceBeforeValue(u, w, t, depth + 1);
    hide SkipSpace, Unquote, ReadValue;
  }

  lemma WhiteEndsNumber(w: string, c: char, t: string)
    requires IsWhite(w) && !IsDigit(c) && !StartsFraction([c])
    ensures EndsNumber(w + ([c] + t))
  {
    if w != "" { assert (w + ([c] + t))[0] == w[0]; }
  }

  // ----- Every spelling is read -----

  /** What follows the first item and its white space. */
  ghost function ItemsEnd(items: seq<Slot>, rest: string): string
    requires items != []
  {
    if |items| == 1 then "]" + rest else "," + (SlotsText(items[1..]) + ("]" + rest))
  }

  lemma ItemsOpen(items: seq<Slot>, rest: string)
    requires items != []
    ensures SlotsText(items) + ("]" + rest) == Text(items[0].item) + (items[0].after + ItemsEnd(items, rest))
  {
    hide Text;
  }

  ghost function MembersEnd(members: seq<Entry>, rest: string): string
    requires members != []
  {
    if |members| == 1 then "}" + rest else "," + (EntriesText(members[1..]) + ("}" + rest))
  }

  /** A key and its colon, and what follows them. */
  ghost function KeyText(e: Entry, rest: string): string {
    "\"" + (Concat(e.pieces) + ("\"" + (e.colon + (":" + rest))))
  }

  lemma MembersOpen(members: seq<Entry>, rest: string)
    requires members != []
    ensures var e := members[0];
            EntriesText(members) + ("}" + rest) ==
            e.before + KeyText(e, Text(e.item) + (e.after + MembersEnd(members, rest)))
  {
    hide Text, Concat;
    var e := members[0];
    var more := if |members| == 1 then "" else "," + EntriesText(members[1..]);
    assert more + ("}" + rest) == MembersEnd(members, rest);
    Regrouped(e.before, Concat(e.pieces), e.colon, Text(e.item), e.after, more, "}" + rest);
  }

  lemma Regrouped(a: string, b: string, c: string, d: string, f: string, g: string, h: string)
    ensures (a + ("\"" + (b + ("\"" + (c + (":" + (d + (f + g)))))))) + h ==
            a + ("\"" + (b + ("\"" + (c + (":" + (d + (f + (g + h))))))))
  {
  }

  /** A value that begins with neither a quote nor a bracket is a literal or a number. */
  lemma BareValue(u: Unicode, t: string, depth: nat)
    requires t != "" && SkipSpace(t) == t && t[0] != '"' && t[0] != '[' && t[0] != '{' && depth <= MAX_DEPTH
    ensures ReadValue(u, t, depth) ==
            if ReadLiteral(t).Done? then ReadLiteral(t)
            else if ReadNumber(t).Done? then Done(Number(ReadNumber(t).value), ReadNumber(t).rest)
            else Fail
  {
    hide Unquote, ReadMembers, ReadItems, SkipSpace, ReadLiteral, ReadNumber;
  }

  lemma NumberStarts(n: int, t: string, rest: string)
    requires SpellsNumber(n, t)
    ensures var s := t + rest;
            && s != "" && SkipSpace(s) == s && ReadLiteral(s).Fail?
            && s[0] != '"' && s[0] != '[' && s[0] != '{'
  {
    assert t != "" && (t[0] == '-' || IsDigit(t[0]));
    hide IntText, SpellsNumber;
    assert (t + rest)[0] == t[0];
  }

  lemma NumberWordReads(u: Unicode, n: int, t: string, depth: nat, rest: string)
    requires SpellsNumber(n, t) && Readable(u, Number(n), depth) && EndsNumber(rest)
    ensures ReadValue(u, t + rest, depth) == Done(Number(n), rest)
  {
    hide SpellsNumber, EndsNumber, ReadNumber, ReadLiteral, ReadValue, SkipSpace;
    NumberReads(n, t, rest);
    NumberStarts(n, t, rest);
    BareValue(u, t + rest, depth);
  }

  lemma WordReads(u: Unicode, v: Json, t: string, depth: nat, rest: string)
    requires SpellsWord(v, t) && Readable(u, v, depth) && EndsNumber(rest)
    ensures ReadValue(u, t + rest, depth) == Done(v, rest)
  {
    if v.Number? {
      NumberWordReads(u, v.n, t, depth, rest);
    } else {
      hide ReadValue;
      assert (t + rest)[|t|..] == rest;
      LiteralRoundTrip(u, t, v, depth, rest);
    }
  }

  lemma QuotedReads(u: Unicode, pieces: seq<string>, s: string, depth: nat, rest: string)
    requires SpellsText(s, pieces) && depth <= MAX_DEPTH && u.marksOk(s)
    ensures ReadValue(u, "\"" + (Concat(pieces) + ("\"" + rest)), depth) == Done(String(s), rest)
  {
    var body := Concat(pieces) + ("\"" + rest);
    TextReads(s, pieces, rest);
    Braces("\"", body);
    hide Unquote, Concat, SpellsText, ReadMembers, ReadItems, ReadLiteral, ReadNumber;
  }

  lemma KeyReads(u: Unicode, e: Entry, rest: string, m: map<string, Json>)
    requires WellEntry(e) && u.marksOk(e.key) && IsNew(u, e.key, m)
    ensures ReadKey(u, KeyText(e, rest), m) == Done(e.key, rest)
  {
    var colon := ":" + rest;
    var body := Concat(e.pieces) + ("\"" + (e.colon + colon));
    TextReads(e.key, e.pieces, e.colon + colon);
    Braces("\"", body);
    SkipsWhite(e.colon, colon);
    Braces(":", rest);
    hide Unquote, Concat, SpellsText, SkipSpace, IsNew, WellSpelled;
  }

  /** A value begins with a character that neither ends nor separates anything. */
  predicate Begins(s: string) {
    s != "" && !IsSpace(s[0]) && s[0] != ']' && s[0] != '}' && s[0] != ',' && s[0] != ':'
  }

  lemma CoreBegins(sp: Spelling)
    requires WellSpelled(sp)
    ensures Begins(Core(sp))
  {
    hide SlotsText, EntriesText, Concat, WellSlot, WellEntry, IsWhite;
    if sp.Word? && sp.value.Number? { assert IntText(sp.value.n) != ""; }
  }

  lemma TextBegins(sp: Spelling, rest: string)
    requires WellSpelled(sp)
    ensures Begins(SkipSpace(Text(sp) + rest))
  {
    CoreBegins(sp);
    hide Core;
    assert Text(sp) + rest == sp.before + (Core(sp) + rest);
    SkipsWhite(sp.before, Core(sp) + rest);
    assert (Core(sp) + rest)[0] == Core(sp)[0] && SkipSpace(Core(sp) + rest) == Core(sp) + rest;
  }

  ghost function Items(items: seq<Slot>): seq<Json> {
    seq(|items|, i requires 0 <= i < |items| => ValueOf(items[i].item))
  }

  /** Whatever a writer chooses, the value is read, and the text that follows is left. */
  lemma {:induction false} SpellingReads(u: Unicode, sp: Spelling, depth: nat, rest: string)
    requires WellSpelled(sp) && Readable(u, ValueOf(sp), depth) && EndsNumber(rest)
    ensures ReadValue(u, Text(sp) + rest, depth) == Done(ValueOf(sp), rest)
    decreases sp, 2
  {
    hide Core, WellSpelled, ValueOf, Readable, ReadValue, EndsNumber;
    CoreReads(u, sp, depth, rest);
    WhiteBefore(sp);
    assert Text(sp) + rest == sp.before + (Core(sp) + rest);
    SpaceBeforeValue(u, sp.before, Core(sp) + rest, depth);
  }

  lemma WhiteBefore(sp: Spelling)
    requires WellSpelled(sp)
    ensures IsWhite(sp.before)
  {
    hide IsWhite, WellSlot, WellEntry;
  }

  lemma {:induction false} CoreReads(u: Unicode, sp: Spelling, depth: nat, rest: string)
    requires WellSpelled(sp) && Readable(u, ValueOf(sp), depth) && EndsNumber(rest)
    ensures ReadValue(u, Core(sp) + rest, depth) == Done(ValueOf(sp), rest)
    decreases sp, 1
  {
    hide ReadValue, SlotsText, EntriesText, Concat, SpellsWord, SpellsText, WellSlot, WellEntry, Added, EndsNumber;
    match sp
    case Word(_, text, value) =>
      WordReads(u, value, text, depth, rest);
    case Quoted(_, pieces, s) =>
      Reassociated("\"", Concat(pieces), "\"", rest);
      QuotedReads(u, pieces, s, depth, rest);
    case Listed(_, items, blank) =>
      Reassociated("[", if items == [] then blank else SlotsText(items), "]", rest);
      assert Items(items) == ValueOf(sp).items;
      if items == [] {
        EmptyListReads(u, blank, depth, rest);
      } else {
        ListReads(u, items, depth, rest);
      }
    case Keyed(_, members, blank) =>
      Reassociated("{", if members == [] then blank else EntriesText(members), "}", rest);
      if members == [] {
        EmptyObjectReads(u, blank, depth, rest);
        assert Added(map[], members) == map[] by { NoneAdded(); }
      } else {
        ObjectReads(u, members, depth, rest);
      }
  }

  lemma NoneAdded()
    ensures Added(map[], []) == map[]
  {
  }

  lemma Reassociated(a: string, b: string, c: string, d: string)
    ensures (a + (b + c)) + d == a + (b + (c + d))
  {
  }

  lemma {:induction false} ListReads(u: Unicode, items: seq<Slot>, depth: nat, rest: string)
    requires items != [] && (forall i :: 0 <= i < |items| ==> WellSlot(items[i]))
    requires Readable(u, Array(Items(items)), depth)
    ensures ReadValue(u, "[" + (SlotsText(items) + ("]" + rest)), depth) == Done(Array(Items(items)), rest)
    decreases items, 1
  {
    hide ReadValue, ReadItems, SlotsText, WellSlot, Readable, ValueOf;
    ItemsReadable(u, items, depth);
    ItemsRead(u, items, depth, [], rest);
    ListOpens(u, items, depth, rest);
    assert [] + Items(items) == Items(items);
  }

  lemma ItemsReadable(u: Unicode, items: seq<Slot>, depth: nat)
    requires Readable(u, Array(Items(items)), depth)
    ensures depth <= MAX_DEPTH && forall i :: 0 <= i < |items| ==> Readable(u, ValueOf(items[i].item), depth + 1)
  {
    hide ValueOf;
    forall i | 0 <= i < |items|
      ensures Readable(u, ValueOf(items[i].item), depth + 1)
    {
      assert Items(items)[i] == ValueOf(items[i].item);
    }
  }

  lemma {:induction false} ObjectReads(u: Unicode, members: seq<Entry>, depth: nat, rest: string)
    requires members != [] && (forall i :: 0 <= i < |members| ==> WellEntry(members[i]))
    requires forall i, j :: 0 <= i < j < |members| ==> members[i].key != members[j].key
    requires Readable(u, Object(Added(map[], members)), depth)
    ensures ReadValue(u, "{" + (EntriesText(members) + ("}" + rest)), depth) ==
            Done(Object(Added(map[], members)), rest)
    decreases members, 1
  {
    assert depth <= MAX_DEPTH;
    hide ReadValue, ReadMembers, EntriesText, WellEntry, Readable, Added;
    MembersRead(u, members, depth, map[], rest);
    ObjectOpens(u, members, depth, rest);
  }

  lemma EmptyListReads(u: Unicode, blank: string, depth: nat, rest: string)
    requires IsWhite(blank) && depth <= MAX_DEPTH
    ensures ReadValue(u, "[" + (blank + ("]" + rest)), depth) == Done(Array([]), rest)
  {
    ReadArray(u, blank + ("]" + rest), depth);
    SkipsWhite(blank, "]" + rest);
    Braces("]", rest);
  }

  lemma EmptyObjectReads(u: Unicode, blank: string, depth: nat, rest: string)
    requires IsWhite(blank) && depth <= MAX_DEPTH
    ensures ReadValue(u, "{" + (blank + ("}" + rest)), depth) == Done(Object(map[]), rest)
  {
    ReadObject(u, blank + ("}" + rest), depth);
    SkipsWhite(blank, "}" + rest);
    Braces("}", rest);
  }

  lemma ListOpens(u: Unicode, items: seq<Slot>, depth: nat, rest: string)
    requires items != [] && WellSlot(items[0]) && depth <= MAX_DEPTH
    ensures var body := SlotsText(items) + ("]" + rest);
            ReadValue(u, "[" + body, depth) == ReadItems(u, body, depth, [])
  {
    ItemsOpen(items, rest);
    TextBegins(items[0].item, items[0].after + ItemsEnd(items, rest));
    ReadArray(u, SlotsText(items) + ("]" + rest), depth);
    hide ReadValue, ReadItems, SlotsText, Text;
  }

  lemma ObjectOpens(u: Unicode, members: seq<Entry>, depth: nat, rest: string)
    requires members != [] && WellEntry(members[0]) && depth <= MAX_DEPTH
    ensures var body := EntriesText(members) + ("}" + rest);
            ReadValue(u, "{" + body, depth) == ReadMembers(u, body, depth, map[])
  {
    var e := members[0];
    var key := KeyText(e, Text(e.item) + (e.after + MembersEnd(members, rest)));
    MembersOpen(members, rest);
    SkipsWhite(e.before, key);
    assert SkipSpace(key) == key;
    ReadObject(u, EntriesText(members) + ("}" + rest), depth);
    hide ReadValue, ReadMembers, EntriesText, Text, SkipSpace;
  }

  /** One round of the item loop, for a text whose first item is read. */
  lemma ItemsStep(u: Unicode, items: seq<Slot>, depth: nat, acc: seq<Json>, rest: string)
    requires items != [] && IsWhite(items[0].after)
    requires var tail := items[0].after + ItemsEnd(items, rest);
             ReadValue(u, Text(items[0].item) + tail, depth + 1) == Done(ValueOf(items[0].item), tail)
    ensures ReadItems(u, SlotsText(items) + ("]" + rest), depth, acc) ==
            var next := acc + [ValueOf(items[0].item)];
            if |items| == 1 then Done(Array(next), rest)
            else ReadItems(u, SlotsText(items[1..]) + ("]" + rest), depth, next)
  {
    hide Text, SlotsText, ReadValue, MoreItems, IsWhite, ItemsEnd, ValueOf;
    var next := acc + [ValueOf(items[0].item)];
    ItemsOpen(items, rest);
    SpaceBeforeTokens(u, items[0].after, ItemsEnd(items, rest), depth, map[], next);
    ItemsEndReads(u, items, depth, next, rest);
  }

  lemma {:induction false} ItemsRead(u: Unicode, items: seq<Slot>, depth: nat, acc: seq<Json>, rest: string)
    requires items != [] && (forall i :: 0 <= i < |items| ==> WellSlot(items[i]))
    requires forall i :: 0 <= i < |items| ==> Readable(u, ValueOf(items[i].item), depth + 1)
    ensures ReadItems(u, SlotsText(items) + ("]" + rest), depth, acc) == Done(Array(acc + Items(items)), rest)
    decreases items, 0
  {
    assert WellSlot(items[0]);
    hide Text, SlotsText, ReadValue, ReadItems, Readable, ItemsEnd, WellSpelled;
    ItemsEndBegins(items, rest);
    EndEnds(items[0].after, ItemsEnd(items, rest));
    SpellingReads(u, items[0].item, depth + 1, items[0].after + ItemsEnd(items, rest));
    ItemsStep(u, items, depth, acc, rest);
    ItemsSnoc(items, acc);
    hide Items, WellSlot, IsWhite;
    if |items| > 1 {
      ItemsRead(u, items[1..], depth, acc + [ValueOf(items[0].item)], rest);
    }
  }

  lemma ItemsSnoc(items: seq<Slot>, acc: seq<Json>)
    requires items != []
    ensures acc + Items(items) == (acc + [ValueOf(items[0].item)]) + Items(items[1..])
    ensures |items| == 1 ==> acc + Items(items) == acc + [ValueOf(items[0].item)]
  {
    hide ValueOf;
  }

  lemma ItemsEndBegins(items: seq<Slot>, rest: string)
    requires items != []
    ensures ItemsEnd(items, rest) != "" && ItemsEnd(items, rest)[0] in ",]}"
  {
    hide SlotsText;
  }

  lemma MembersEndBegins(members: seq<Entry>, rest: string)
    requires members != []
    ensures MembersEnd(members, rest) != "" && MembersEnd(members, rest)[0] in ",]}"
  {
    hide EntriesText;
  }

  lemma EndEnds(after: string, end: string)
    requires IsWhite(after) && end != "" && end[0] in ",]}"
    ensures EndsNumber(after + end)
  {
    if after != "" { assert (after + end)[0] == after[0]; } else { assert after + end == end; }
  }

  lemma ItemsEndReads(u: Unicode, items: seq<Slot>, depth: nat, acc: seq<Json>, rest: string)
    requires items != []
    ensures MoreItems(u, ItemsEnd(items, rest), depth, acc) ==
            if |items| == 1 then Done(Array(acc), rest)
            else ReadItems(u, SlotsText(items[1..]) + ("]" + rest), depth, acc)
  {
    hide ReadItems, SlotsText;
    Braces("]", rest);
    if |items| > 1 { Braces(",", SlotsText(items[1..]) + ("]" + rest)); }
  }

  lemma MembersEndReads(u: Unicode, members: seq<Entry>, depth: nat, m: map<string, Json>, rest: string)
    requires members != []
    ensures MoreMembers(u, MembersEnd(members, rest), depth, m) ==
            if |members| == 1 then Done(Object(m), rest)
            else ReadMembers(u, EntriesText(members[1..]) + ("}" + rest), depth, m)
  {
    hide ReadMembers, EntriesText;
    Braces("}", rest);
    if |members| > 1 { Braces(",", EntriesText(members[1..]) + ("}" + rest)); }
  }

  /** Every member is in the result, and so is what was there before. */
  lemma {:induction false} AddedKeeps(m: map<string, Json>, members: seq<Entry>)
    requires forall i, j :: 0 <= i < j < |members| ==> members[i].key != members[j].key
    requires forall i :: 0 <= i < |members| ==> members[i].key !in m
    ensures var all := Added(m, members);
            && (forall k :: k in m ==> k in all && all[k] == m[k])
            && (forall i :: 0 <= i < |members| ==>
                  members[i].key in all && all[members[i].key] == ValueOf(members[i].item))
            && (forall k :: k in all ==> k in m || exists i :: 0 <= i < |members| && members[i].key == k)
    decreases |members|
  {
    hide ValueOf;
    if members != [] {
      AddedKeeps(m[members[0].key := ValueOf(members[0].item)], members[1..]);
    }
  }

  /** One round of the member loop, for a text whose first member is read. */
  lemma MembersStep(u: Unicode, members: seq<Entry>, depth: nat, m: map<string, Json>, rest: string)
    requires members != [] && WellEntry(members[0])
    requires u.marksOk(members[0].key) && IsNew(u, members[0].key, m)
    requires var e := members[0];
             var tail := e.after + MembersEnd(members, rest);
             ReadValue(u, Text(e.item) + tail, depth + 1) == Done(ValueOf(e.item), tail)
    ensures ReadMembers(u, EntriesText(members) + ("}" + rest), depth, m) ==
            var next := m[members[0].key := ValueOf(members[0].item)];
            if |members| == 1 then Done(Object(next), rest)
            else ReadMembers(u, EntriesText(members[1..]) + ("}" + rest), depth, next)
  {
    var e := members[0];
    assert IsWhite(e.before) && IsWhite(e.after);
    hide Text, EntriesText, KeyText, ReadValue, ReadMembers, MoreMembers, ReadKey;
    hide IsWhite, MembersEnd, ValueOf, WellEntry, IsNew;
    var end, next := MembersEnd(members, rest), m[e.key := ValueOf(e.item)];
    var more := Text(e.item) + (e.after + end);
    MembersOpen(members, rest);
    SpaceBeforeTokens(u, e.before, KeyText(e, more), depth, m, []);
    KeyReads(u, e, more, m);
    OneMember(u, KeyText(e, more), depth, m, e.key, more, ValueOf(e.item), e.after + end);
    SpaceBeforeTokens(u, e.after, end, depth, next, []);
    MembersEndReads(u, members, depth, next, rest);
  }

  lemma {:induction false} MembersRead(
      u: Unicode, members: seq<Entry>, depth: nat, m: map<string, Json>, rest: string)
    requires members != [] && (forall i :: 0 <= i < |members| ==> WellEntry(members[i]) && members[i].key !in m)
    requires forall i, j :: 0 <= i < j < |members| ==> members[i].key != members[j].key
    requires Readable(u, Object(Added(m, members)), depth)
    ensures ReadMembers(u, EntriesText(members) + ("}" + rest), depth, m) == Done(Object(Added(m, members)), rest)
    decreases members, 0
  {
    var e := members[0];
    var next := m[e.key := ValueOf(e.item)];
    AddedKeeps(m, members);
    KeyIsNew(u, Added(m, members), m, e.key, depth);
    assert WellEntry(e) && IsWhite(e.after) && WellSpelled(e.item);
    hide Text, EntriesText, ReadValue, ReadMembers, Readable, IsWhite, MembersEnd, WellEntry, WellSpelled, IsNew;
    MembersEndBegins(members, rest);
    EndEnds(e.after, MembersEnd(members, rest));
    SpellingReads(u, e.item, depth + 1, e.after + MembersEnd(members, rest));
    MembersStep(u, members, depth, m, rest);
    assert Added(m, members) == Added(next, members[1..]);
    if |members| > 1 {
      hide Added, ValueOf;
      OthersNew(members, m, ValueOf(e.item));
      MembersRead(u, members[1..], depth, next, rest);
    }
  }

  lemma OthersNew(members: seq<Entry>, m: map<string, Json>, v: Json)
    requires members != [] && (forall i :: 0 <= i < |members| ==> WellEntry(members[i]) && members[i].key !in m)
    requires forall i, j :: 0 <= i < j < |members| ==> members[i].key != members[j].key
    ensures var more, next := members[1..], m[members[0].key := v];
            && (forall i :: 0 <= i < |more| ==> WellEntry(more[i]) && more[i].key !in next)
            && (forall i, j :: 0 <= i < j < |more| ==> more[i].key != more[j].key)
  {
    hide WellEntry;
  }

  lemma KeyIsNew(u: Unicode, all: map<string, Json>, m: map<string, Json>, key: string, depth: nat)
    requires Readable(u, Object(all), depth) && key in all && key !in m && m.Keys <= all.Keys
    ensures u.marksOk(key) && IsNew(u, key, m) && Readable(u, all[key], depth + 1)
  {
    forall k | k in m
      ensures u.nfc(k) != u.nfc(key)
    {
      assert k in all;
    }
  }

  lemma OneMember(
      u: Unicode, s: string, depth: nat, m: map<string, Json>, key: string, after: string, v: Json, tail: string)
    requires ReadKey(u, s, m) == Done(key, after) && ReadValue(u, after, depth + 1) == Done(v, tail)
    ensures ReadMembers(u, s, depth, m) == MoreMembers(u, tail, depth, m[key := v])
  {
    hide ReadKey, ReadValue, MoreMembers;
  }

  // ----- Nothing else is read -----

  lemma KeySpelled(u: Unicode, s: string, m: map<string, Json>)
    returns (before: string, pieces: seq<string>, colon: string)
    requires ReadKey(u, s, m).Done?
    ensures var k := ReadKey(u, s, m);
            && IsWhite(before) && IsWhite(colon) && SpellsText(k.value, pieces)
            && s == before + ("\"" + (Concat(pieces) + ("\"" + (colon + (":" + k.rest)))))
  {
    hide SkipSpace, Unquote, IsWhite, SpellsText, Concat, IsNew;
    var k := ReadKey(u, s, m);
    var t := SkipSpace(s);
    var q := Unquote(t[1..]);
    var c := SkipSpace(q.rest);
    before := SpaceSkipped(s);
    pieces := TextSpelled(t[1..]);
    colon := SpaceSkipped(q.rest);
    hide ReadKey;
    assert t == "\"" + t[1..] && c == ":" + c[1..];
  }

  lemma WordSpelled(t: string) returns (text: string)
    requires ReadLiteral(t).Done?
    ensures SpellsWord(ReadLiteral(t).value, text) && t == text + ReadLiteral(t).rest
  {
    var l := ReadLiteral(t);
    text := if l.value.Null? then "null" else if l.value.b then "true" else "false";
    assert t == t[..|text|] + t[|text|..];
  }

  /** What is read is a spelling of the value, and what follows it. */
  lemma {:induction false} ValueSpelled(u: Unicode, s: string, depth: nat) returns (sp: Spelling)
    requires ReadValue(u, s, depth).Done?
    ensures WellSpelled(sp) && ValueOf(sp) == ReadValue(u, s, depth).value
    ensures s == Text(sp) + ReadValue(u, s, depth).rest
    decreases |s|, 3
  {
    hide ReadValue, SkipSpace, WellSpelled, ValueOf, Text;
    var w := SpaceSkipped(s);
    var t := SkipSpace(s);
    BareSpelled(u, s, depth);
    var bare := CoreSpelled(u, t, depth);
    sp := bare.(before := w);
    assert sp.(before := "") == bare;
    Padded(u, sp, w, t, depth);
    Grouped(w, Text(bare), ReadValue(u, s, depth).rest);
  }

  lemma BareSpelled(u: Unicode, s: string, depth: nat)
    ensures ReadValue(u, SkipSpace(s), depth) == ReadValue(u, s, depth)
    ensures SkipSpace(SkipSpace(s)) == SkipSpace(s)
  {
    var w := SpaceSkipped(s);
    var t := SkipSpace(s);
    assert s == w + t && SkipSpace(t) == t;
    SpaceBeforeValue(u, w, t, depth);
  }

  lemma Padded(u: Unicode, sp: Spelling, w: string, t: string, depth: nat)
    requires IsWhite(w) && WellSpelled(sp.(before := "")) && sp.before == w
    ensures WellSpelled(sp) && ValueOf(sp) == ValueOf(sp.(before := ""))
    ensures Text(sp) == w + Text(sp.(before := ""))
  {
    hide SlotsText, EntriesText, Concat, WellSlot, WellEntry, SpellsWord, SpellsText, Added;
    assert Text(sp.(before := "")) == "" + Core(sp) == Core(sp);
  }

  /** A spelling without white space in front of it. */
  ghost predicate Bare(sp: Spelling, v: Json, t: string, rest: string) {
    sp.before == "" && WellSpelled(sp) && ValueOf(sp) == v && t == Text(sp) + rest
  }

  lemma {:induction false} CoreSpelled(u: Unicode, t: string, depth: nat) returns (sp: Spelling)
    requires ReadValue(u, t, depth).Done? && SkipSpace(t) == t
    ensures var r := ReadValue(u, t, depth); Bare(sp, r.value, t, r.rest)
    decreases |t|, 2
  {
    var r := ReadValue(u, t, depth);
    assert t != "" && t == [t[0]] + t[1..];
    if t[0] == '"' {
      sp := QuoteSpelled(u, t, depth);
    } else if t[0] == '[' {
      sp := ListSpelled(u, t, depth);
    } else if t[0] == '{' {
      sp := ObjectSpelled(u, t, depth);
    } else {
      sp := PlainSpelled(u, t, depth);
    }
  }

  lemma PlainSpelled(u: Unicode, t: string, depth: nat) returns (sp: Spelling)
    requires ReadValue(u, t, depth).Done? && SkipSpace(t) == t && t[0] != '"' && t[0] != '[' && t[0] != '{'
    requires depth <= MAX_DEPTH
    ensures var r := ReadValue(u, t, depth); Bare(sp, r.value, t, r.rest)
  {
    hide ReadValue, ReadLiteral, ReadNumber, SpellsNumber, SkipSpace;
    var r := ReadValue(u, t, depth);
    BareValue(u, t, depth);
    if ReadLiteral(t).Done? {
      var text := WordSpelled(t);
      sp := Word("", text, r.value);
    } else {
      var text := NumberSpelled(t);
      sp := Word("", text, r.value);
    }
    assert IsWhite("");
    assert Text(sp) == "" + sp.text == sp.text;
  }

  lemma QuotedValue(u: Unicode, body: string, depth: nat)
    requires depth <= MAX_DEPTH
    ensures ReadValue(u, "\"" + body, depth) ==
            var q := Unquote(body);
            if q.Done? && u.marksOk(q.value) then Done(String(q.value), q.rest) else Fail
  {
    hide Unquote, ReadMembers, ReadItems, ReadLiteral, ReadNumber;
    Braces("\"", body);
  }

  lemma QuoteSpelled(u: Unicode, t: string, depth: nat) returns (sp: Spelling)
    requires ReadValue(u, t, depth).Done? && t != "" && t[0] == '"' && depth <= MAX_DEPTH
    ensures var r := ReadValue(u, t, depth); Bare(sp, r.value, t, r.rest)
  {
    hide ReadValue, Unquote, SpellsText, Concat;
    var body := t[1..];
    assert t == "\"" + body;
    QuotedValue(u, body, depth);
    var q := Unquote(body);
    var pieces := TextSpelled(body);
    sp := Quoted("", pieces, q.value);
    assert IsWhite("");
    assert Text(sp) == "" + Core(sp) == Core(sp);
    Reassociated("\"", Concat(pieces), "\"", q.rest);
  }

  lemma {:induction false} ListSpelled(u: Unicode, t: string, depth: nat) returns (sp: Spelling)
    requires ReadValue(u, t, depth).Done? && t != "" && t[0] == '[' && depth <= MAX_DEPTH
    ensures var r := ReadValue(u, t, depth); Bare(sp, r.value, t, r.rest)
    decreases |t|, 1
  {
    hide ReadValue, ReadItems, SkipSpace, WellSlot, SlotsText;
    var body := t[1..];
    assert t == "[" + body;
    ReadArray(u, body, depth);
    var r := ReadValue(u, t, depth);
    assert IsWhite("");
    if StartsWith(SkipSpace(body), ']') {
      var blank := SpaceSkipped(body);
      assert SkipSpace(body) == "]" + r.rest;
      sp := Listed("", [], blank);
      Reassociated("[", blank, "]", r.rest);
      assert ValueOf(sp) == Array([]);
    } else {
      var items := ItemsSpelled(u, body, depth, []);
      sp := Listed("", items, "");
      Reassociated("[", SlotsText(items), "]", r.rest);
      assert ValueOf(sp) == Array(Items(items)) && [] + Items(items) == Items(items);
    }
    assert Text(sp) == "" + Core(sp) == Core(sp);
  }

  lemma {:induction false} ObjectSpelled(u: Unicode, t: string, depth: nat) returns (sp: Spelling)
    requires ReadValue(u, t, depth).Done? && t != "" && t[0] == '{' && depth <= MAX_DEPTH
    ensures var r := ReadValue(u, t, depth); Bare(sp, r.value, t, r.rest)
    decreases |t|, 1
  {
    hide ReadValue, ReadMembers, SkipSpace, WellEntry, EntriesText;
    var body := t[1..];
    assert t == "{" + body;
    ReadObject(u, body, depth);
    var r := ReadValue(u, t, depth);
    assert IsWhite("");
    if StartsWith(SkipSpace(body), '}') {
      var blank := SpaceSkipped(body);
      assert SkipSpace(body) == "}" + r.rest;
      sp := Keyed("", [], blank);
      Reassociated("{", blank, "}", r.rest);
      NoneAdded();
    } else {
      var members := MembersSpelled(u, body, depth, map[]);
      hide Added;
      sp := Keyed("", members, "");
      Reassociated("{", EntriesText(members), "}", r.rest);
    }
    assert Text(sp) == "" + Core(sp) == Core(sp);
  }

  /** The first item, and where the text goes on. */
  lemma {:induction false} ItemSpelled(u: Unicode, s: string, depth: nat, acc: seq<Json>)
    returns (slot: Slot, t: string)
    requires ReadItems(u, s, depth, acc).Done?
    ensures WellSlot(slot) && |t| < |s| && SkipSpace(t) == t
    ensures ReadItems(u, s, depth, acc) == MoreItems(u, t, depth, acc + [ValueOf(slot.item)])
    ensures s == Text(slot.item) + (slot.after + t)
    decreases |s|, 4
  {
    hide ReadValue, SkipSpace, WellSpelled, Text, IsWhite, ValueOf, MoreItems;
    var v := ReadValue(u, s, depth + 1);
    var sp := ValueSpelled(u, s, depth + 1);
    var after := SpaceSkipped(v.rest);
    t := SkipSpace(v.rest);
    slot := Slot(sp, after);
    SpaceBeforeTokens(u, after, t, depth, map[], acc + [v.value]);
    BareSpelled(u, v.rest, depth);
    hide ReadItems;
    assert s == Text(sp) + (after + t);
  }

  lemma {:induction false} ItemsSpelled(u: Unicode, s: string, depth: nat, acc: seq<Json>) returns (items: seq<Slot>)
    requires ReadItems(u, s, depth, acc).Done?
    ensures items != [] && (forall i :: 0 <= i < |items| ==> WellSlot(items[i]))
    ensures ReadItems(u, s, depth, acc).value == Array(acc + Items(items))
    ensures s == SlotsText(items) + ("]" + ReadItems(u, s, depth, acc).rest)
    decreases |s|, 5
  {
    hide WellSlot, Text, ReadItems, SlotsText, SkipSpace, ValueOf;
    var r := ReadItems(u, s, depth, acc);
    var slot, t := ItemSpelled(u, s, depth, acc);
    if StartsWith(t, ']') {
      items := [slot];
      assert t == "]" + r.rest;
    } else {
      var more := ItemsSpelled(u, t[1..], depth, acc + [ValueOf(slot.item)]);
      items := [slot] + more;
      assert items[1..] == more && t == "," + t[1..];
    }
    ItemsOpen(items, r.rest);
    ItemsSnoc(items, acc);
  }

  /** The first member, and where the text goes on. */
  lemma {:induction false} MemberSpelled(u: Unicode, s: string, depth: nat, m: map<string, Json>)
    returns (e: Entry, t: string)
    requires ReadMembers(u, s, depth, m).Done?
    ensures WellEntry(e) && e.key !in m && |t| < |s| && SkipSpace(t) == t
    ensures ReadMembers(u, s, depth, m) == MoreMembers(u, t, depth, m[e.key := ValueOf(e.item)])
    ensures s == e.before + KeyText(e, Text(e.item) + (e.after + t))
    decreases |s|, 4
  {
    hide ReadValue, SkipSpace, Text, IsWhite, Concat, SpellsText, WellSpelled, ValueOf, MoreMembers;
    var k := ReadKey(u, s, m);
    var before, pieces, colon := KeySpelled(u, s, m);
    KeyNotThere(u, m, k.value);
    var v := ReadValue(u, k.rest, depth + 1);
    var sp := ValueSpelled(u, k.rest, depth + 1);
    var after := SpaceSkipped(v.rest);
    t := SkipSpace(v.rest);
    e := Entry(before, pieces, k.value, colon, sp, after);
    var next := m[k.value := v.value];
    SpaceBeforeTokens(u, after, t, depth, next, []);
    BareSpelled(u, v.rest, depth);
    hide ReadMembers, ReadKey;
    assert k.rest == Text(sp) + (after + t);
  }

  lemma KeyNotThere(u: Unicode, m: map<string, Json>, key: string)
    requires IsNew(u, key, m)
    ensures key !in m
  {
  }

  lemma {:induction false} MembersSpelled(u: Unicode, s: string, depth: nat, m: map<string, Json>)
    returns (members: seq<Entry>)
    requires ReadMembers(u, s, depth, m).Done?
    ensures members != [] && (forall i :: 0 <= i < |members| ==> WellEntry(members[i]) && members[i].key !in m)
    ensures forall i, j :: 0 <= i < j < |members| ==> members[i].key != members[j].key
    ensures ReadMembers(u, s, depth, m).value == Object(Added(m, members))
    ensures s == EntriesText(members) + ("}" + ReadMembers(u, s, depth, m).rest)
    decreases |s|, 5
  {
    hide WellEntry, Text, ReadMembers, KeyText, EntriesText, SkipSpace, ValueOf;
    var r := ReadMembers(u, s, depth, m);
    var e, t := MemberSpelled(u, s, depth, m);
    var next := m[e.key := ValueOf(e.item)];
    if StartsWith(t, '}') {
      members := [e];
      assert t == "}" + r.rest;
      assert Added(m, members) == next by { assert members[1..] == []; }
    } else {
      hide Added;
      var more := MembersSpelled(u, t[1..], depth, next);
      members := [e] + more;
      assert members[1..] == more && t == "," + t[1..];
      AddedFirst(m, e, more);
    }
    MembersOpen(members, r.rest);
  }

  lemma AddedFirst(m: map<string, Json>, e: Entry, more: seq<Entry>)
    ensures Added(m, [e] + more) == Added(m[e.key := ValueOf(e.item)], more)
  {
    assert ([e] + more)[1..] == more;
  }

  /**
   The texts that are read as a value are exactly its spellings, with white space behind them; and
   it must be within depth, number range and mark bound, with keys distinct in NFC.
   */
  lemma ReadTextExactly(u: Unicode, s: string, v: Json)
    ensures ReadText(u, s) == Some(v) <==>
            && Readable(u, v, 0)
            && exists sp, end :: WellSpelled(sp) && ValueOf(sp) == v && IsWhite(end) && s == Text(sp) + end
  {
    if ReadText(u, s) == Some(v) {
      var r := ReadValue(u, s, 0);
      ReadValueReadable(u, s, 0);
      var sp := ValueSpelled(u, s, 0);
      var end := SpaceSkipped(r.rest);
      assert end + "" == end;
    }
    if Readable(u, v, 0) {
      if sp, end :| WellSpelled(sp) && ValueOf(sp) == v && IsWhite(end) && s == Text(sp) + end {
        hide WellSpelled, Text, Readable, ReadValue;
        WhiteEnds(end);
        SpellingReads(u, sp, 0, end);
      }
    }
  }

  lemma WhiteEnds(end: string)
    requires IsWhite(end)
    ensures EndsNumber(end) && SkipSpace(end) == ""
  {
    SkipsWhite(end, "");
    assert end + "" == end;
    hide SkipSpace;
  }

  // ----- The limits, in numbers -----

  function Brackets(k: nat): string {
    if k == 0 then "" else "[" + (Brackets(k - 1) + "]")
  }

  function Nested(k: nat): Json {
    if k <= 1 then Array([]) else Array([Nested(k - 1)])
  }

  lemma BracketOpens(k: nat, rest: string)
    requires k > 0
    ensures Brackets(k) + rest == "[" + (Brackets(k - 1) + ("]" + rest))
  {
  }

  lemma BracketReads(u: Unicode, inner: string, depth: nat, v: Json, rest: string)
    requires inner != "" && inner[0] == '[' && depth <= 64
    requires ReadValue(u, inner, depth + 1) == Fail || ReadValue(u, inner, depth + 1) == Done(v, "]" + rest)
    ensures ReadValue(u, "[" + inner, depth) ==
            if ReadValue(u, inner, depth + 1).Fail? then Fail else Done(Array([v]), rest)
  {
    hide ReadValue;
    assert SkipSpace(inner) == inner;
    ReadArray(u, inner, depth);
    assert SkipSpace("]" + rest) == "]" + rest && ("]" + rest)[1..] == rest;
    assert [] + [v] == [v];
  }

  lemma {:induction false} NestingStep(u: Unicode, k: nat, depth: nat, rest: string)
    requires k > 0
    ensures ReadValue(u, Brackets(k) + rest, depth) == if depth + k <= 65 then Done(Nested(k), rest) else Fail
  {
    hide ReadValue;
    BracketOpens(k, rest);
    var inner := Brackets(k - 1) + ("]" + rest);
    if depth > 64 {
      TooDeep(u, Brackets(k) + rest, depth);
    } else if k == 1 {
      EmptyListReads(u, "", depth, rest);
    } else {
      BracketOpens(k - 1, "]" + rest);
      NestingStep(u, k - 1, depth + 1, "]" + rest);
      BracketReads(u, inner, depth, Nested(k - 1), rest);
    }
    hide Brackets;
  }

  lemma TooDeep(u: Unicode, s: string, depth: nat)
    requires depth > 64
    ensures ReadValue(u, s, depth) == Fail
  {
  }

  /** Sixty-five brackets nest within the depth that is read, sixty-six do not. */
  lemma NestingReads(u: Unicode, k: nat)
    requires k > 0
    ensures ReadText(u, Brackets(k)) == if k <= 65 then Some(Nested(k)) else None
  {
    assert Brackets(k) + "" == Brackets(k);
    NestingStep(u, k, 0, "");
  }

  /** The integers that are read are those that a double holds with all smaller ones. */
  lemma IntegersRead(u: Unicode, n: int)
    ensures ReadText(u, IntText(n)) ==
            if -9_007_199_254_740_991 <= n <= 9_007_199_254_740_991 then Some(Number(n)) else None
  {
    hide ReadValue, ReadLiteral, ReadNumber, SkipSpace, IntText;
    NumberStarts(n, IntText(n), "");
    assert IntText(n) + "" == IntText(n);
    BareValue(u, IntText(n), 0);
    IntegerRead(n);
    WhiteEnds("");
  }

  lemma IntegerRead(n: int)
    ensures ReadNumber(IntText(n)) ==
            if -9_007_199_254_740_991 <= n <= 9_007_199_254_740_991 then Done(n, "") else Fail
  {
    hide IntText, IntLength, IntValue;
    IntLengthPrinted(n, "");
    IntValuePrinted(n);
    var t := IntText(n);
    assert t + "" == t && t[..|t|] == t && t[|t|..] == "";
    assert t != "" by { IntTextSome(n); }
  }

  lemma IntTextSome(n: int)
    ensures IntText(n) != ""
  {
  }
}
