/**
 What the printer writes: of all spellings of a value the one without white space or
 needless escapes, whose members ascend in the bytes of their keys.
 */
module JsonPrinting {
  import opened Ordering
  import opened JsonText
  import opened JsonGrammar
  import opened JsonLiterals
  import opened JsonSpelling
  import Utf8

  // ----- What is printed -----

  /** As short as a spelling can be, with lower-case digits. */
  ghost predicate TightPiece(c: char, t: string) {
    && Spells(c, t) && (forall x :: Spells(c, x) ==> |t| <= |x|)
    && (t == [c] || forall i :: 0 <= i < |t| ==> !('A' <= t[i] <= 'F'))
  }

  ghost predicate TightText(s: string, pieces: seq<string>) {
    |pieces| == |s| && forall i :: 0 <= i < |s| ==> TightPiece(s[i], pieces[i])
  }

  /** No white space, no needless escape, no sign of zero, and members in ascending order of their keys' bytes. */
  ghost predicate Tight(sp: Spelling) {
    sp.before == "" &&
    match sp
    case Word(_, text, value) => value.Number? ==> text == IntText(value.n)
    case Quoted(_, pieces, s) => TightText(s, pieces)
    case Listed(_, items, blank) =>
      blank == "" && forall i :: 0 <= i < |items| ==> items[i].after == "" && Tight(items[i].item)
    case Keyed(_, members, blank) =>
      && blank == "" && (forall i :: 0 <= i < |members| ==> TightEntry(members[i]))
      && forall i, j :: 0 <= i < j < |members| ==>
           Utf8.BytesLess(Utf8.Encode(members[i].key), Utf8.Encode(members[j].key))
  }

  ghost predicate TightEntry(e: Entry) {
    e.before == "" && TightText(e.key, e.pieces) && e.colon == "" && Tight(e.item) && e.after == ""
  }

  lemma QuotedTight(c: char)
    ensures TightPiece(c, QuoteChar(c))
  {
    var t := QuoteChar(c);
    if c as int < 0x20 && !IsShort(c, t) {
      assert |t| == 6 && t[..4] == "\\u00";
      assert IsUnit(t, c as int);
    }
    hide IsUnit;
  }

  function Pieces(s: string): seq<string> {
    if s == "" then [] else [QuoteChar(s[0])] + Pieces(s[1..])
  }

  lemma {:induction false} PiecesTight(s: string)
    ensures TightText(s, Pieces(s)) && SpellsText(s, Pieces(s)) && Concat(Pieces(s)) == QuoteBody(s)
  {
    hide TightPiece, Spells, QuoteChar;
    if s != "" {
      var piece, more := QuoteChar(s[0]), Pieces(s[1..]);
      PiecesTight(s[1..]);
      QuotedTight(s[0]);
      QuotedSpells(s[0]);
      assert Pieces(s) == [piece] + more && ([piece] + more)[1..] == more;
    }
  }

  lemma QuotedSpells(c: char)
    ensures Spells(c, QuoteChar(c))
  {
    QuotedTight(c);
    hide Spells, QuoteChar;
  }

  /** The canonical text of a value is its tight spelling. */
  lemma {:induction false} PrintSpelled(v: Json) returns (sp: Spelling)
    ensures Tight(sp) && WellSpelled(sp) && ValueOf(sp) == v && Text(sp) == Print(v)
    decreases v, 2
  {
    assert IsWhite("");
    match v
    case Null => sp := Word("", "null", v);
    case Bool(b) => sp := Word("", if b then "true" else "false", v);
    case Number(n) => sp := Word("", IntText(n), v);
    case String(s) =>
      PiecesTight(s);
      sp := Quoted("", Pieces(s), s);
    case Array(items) =>
      if items == [] {
        sp := Listed("", [], "");
      } else {
        var slots := ItemsPrinted(items);
        sp := Listed("", slots, "");
      }
    case Object(m) =>
      if m == map[] {
        EmptyPrinted();
        sp := Keyed("", [], "");
      } else {
        sp := ObjectPrinted(m);
      }
  }

  ghost predicate SlotFor(slot: Slot, v: Json) {
    WellSlot(slot) && slot.after == "" && Tight(slot.item) && ValueOf(slot.item) == v
  }

  lemma {:induction false} ItemsPrinted(items: seq<Json>) returns (slots: seq<Slot>)
    requires items != []
    ensures |slots| == |items| && SlotsText(slots) == PrintItems(items)
    ensures forall i :: 0 <= i < |slots| ==> SlotFor(slots[i], items[i])
    decreases items, 0
  {
    var sp := PrintSpelled(items[0]);
    var slot := Slot(sp, "");
    assert SlotFor(slot, items[0]) by { assert IsWhite(""); }
    hide SlotFor, Text, Print;
    if |items| == 1 {
      slots := [slot];
      assert Print(items[0]) + ("" + "") == Print(items[0]) == Print(items[0]) + "";
    } else {
      var more := ItemsPrinted(items[1..]);
      slots := [slot] + more;
      assert slots[1..] == more;
      assert "" + ("," + SlotsText(more)) == "," + SlotsText(more);
    }
  }

  ghost predicate EntryFor(e: Entry, key: string, v: Json) {
    WellEntry(e) && TightEntry(e) && e.key == key && ValueOf(e.item) == v
  }

  lemma EntryPrinted(key: string, sp: Spelling, v: Json) returns (e: Entry)
    requires Tight(sp) && WellSpelled(sp) && ValueOf(sp) == v
    ensures EntryFor(e, key, v) && e.before == e.colon == e.after == "" && e.item == sp
    ensures "\"" + (Concat(e.pieces) + "\"") == Quote(key)
  {
    hide Tight, WellSpelled, ValueOf, SpellsText, TightText, Concat, QuoteBody, Pieces;
    PiecesTight(key);
    assert IsWhite("");
    e := Entry("", Pieces(key), key, "", sp, "");
  }

  /** The text of a member without white space, and what follows it. */
  lemma MemberPrinted(e: Entry, more: seq<Entry>, v: Json, key: string)
    requires v.Object? && key in v.members && e.before == e.colon == e.after == ""
    requires "\"" + (Concat(e.pieces) + "\"") == Quote(key) && Text(e.item) == Print(v.members[key])
    ensures EntriesText([e] + more) == PrintMember(v, key) + (if more == [] then "" else "," + EntriesText(more))
  {
    hide Text, Print, Concat, Quote;
    var all := [e] + more;
    var end := if more == [] then "" else "," + EntriesText(more);
    assert all[1..] == more && all[0] == e;
    var name, value := Concat(e.pieces), Text(e.item);
    assert EntriesText(all) == "" + ("\"" + (name + ("\"" + ("" + (":" + (value + ("" + end)))))));
    assert "\"" + (name + ("\"" + (":" + (value + end)))) == ("\"" + (name + "\"")) + (":" + (value + end));
    Grouped(Quote(key), ":" + value, end);
    Grouped(":", value, end);
    hide EntriesText;
  }

  lemma {:induction false} MembersPrinted(v: Json, keys: seq<string>) returns (members: seq<Entry>)
    requires Names(v, keys) && keys != []
    ensures |members| == |keys| && EntriesText(members) == PrintMembers(v, keys)
    ensures forall i :: 0 <= i < |members| ==> EntryFor(members[i], keys[i], v.members[keys[i]])
    decreases v, 0, |keys|
  {
    var key := keys[0];
    var sp := PrintSpelled(v.members[key]);
    hide Tight, WellSpelled, ValueOf, Text, Print, EntryFor, Concat, Quote;
    var e := EntryPrinted(key, sp, v.members[key]);
    hide EntriesText, PrintMember;
    if |keys| == 1 {
      members := [e];
      MemberPrinted(e, [], v, key);
      assert [e] + [] == [e];
    } else {
      var more := MembersPrinted(v, keys[1..]);
      members := [e] + more;
      MemberPrinted(e, more, v, key);
    }
  }

  /** The keys of the members are those of the map, in ascending order. */
  ghost predicate InKeyOrder(members: seq<Entry>, m: map<string, Json>, keys: seq<string>) {
    && |members| == |keys| && StrictlyAscending(keys) && (forall k :: k in keys <==> k in m)
    && forall i :: 0 <= i < |members| ==> keys[i] in m && EntryFor(members[i], keys[i], m[keys[i]])
  }

  lemma KeysInOrder(members: seq<Entry>, m: map<string, Json>, keys: seq<string>)
    requires InKeyOrder(members, m, keys)
    ensures forall i, j :: 0 <= i < j < |members| ==>
              members[i].key != members[j].key &&
              Utf8.BytesLess(Utf8.Encode(members[i].key), Utf8.Encode(members[j].key))
  {
    hide WellEntry, TightEntry, ValueOf, Utf8.Encode, Utf8.BytesLess, Less;
    forall i, j | 0 <= i < j < |members|
      ensures members[i].key != members[j].key
      ensures Utf8.BytesLess(Utf8.Encode(members[i].key), Utf8.Encode(members[j].key))
    {
      Utf8.ByteOrderIsScalarOrder(keys[i], keys[j]);
      LessIrreflexive(keys[i]);
    }
  }

  lemma AllAdded(members: seq<Entry>, m: map<string, Json>, keys: seq<string>)
    requires InKeyOrder(members, m, keys)
    ensures Added(map[], members) == m
  {
    KeysInOrder(members, m, keys);
    AddedKeeps(map[], members);
    assert forall i :: 0 <= i < |members| ==> members[i].key == keys[i] && ValueOf(members[i].item) == m[keys[i]];
    hide EntryFor, ValueOf, Added, StrictlyAscending, Utf8.BytesLess, Utf8.Encode;
    SameMaps(members, Added(map[], members), m, keys);
  }

  lemma SameMaps(members: seq<Entry>, all: map<string, Json>, m: map<string, Json>, keys: seq<string>)
    requires |members| == |keys| && (forall k :: k in keys <==> k in m)
    requires forall i :: 0 <= i < |members| ==>
               && keys[i] in m && members[i].key == keys[i] && keys[i] in all && all[keys[i]] == m[keys[i]]
    requires forall k :: k in all ==> exists i :: 0 <= i < |members| && members[i].key == k
    ensures all == m
  {
    forall k | k in m
      ensures k in all && all[k] == m[k]
    {
      var i :| 0 <= i < |keys| && keys[i] == k;
    }
    forall k | k in all
      ensures k in m
    {
      var i :| 0 <= i < |members| && members[i].key == k;
    }
  }

  lemma KeyedTight(members: seq<Entry>, m: map<string, Json>, keys: seq<string>)
    requires InKeyOrder(members, m, keys)
    ensures var sp := Keyed("", members, ""); Tight(sp) && WellSpelled(sp) && ValueOf(sp) == Object(m)
  {
    assert IsWhite("");
    KeysInOrder(members, m, keys);
    AllAdded(members, m, keys);
    hide WellEntry, TightEntry, StrictlyAscending, Added, IsWhite, Utf8.Encode, Utf8.BytesLess;
    assert forall i :: 0 <= i < |members| ==> WellEntry(members[i]) && TightEntry(members[i]);
  }

  lemma EmptyPrinted()
    ensures var sp := Keyed("", [], "");
            Tight(sp) && WellSpelled(sp) && ValueOf(sp) == Object(map[]) && Text(sp) == Print(Object(map[]))
  {
    assert IsWhite("");
    NoneAdded();
    assert Ascending({}) == [];
  }

  lemma KeyedText(members: seq<Entry>, m: map<string, Json>, keys: seq<string>)
    requires members != [] && keys == Ascending(m.Keys) && (forall k :: k in keys ==> k in m)
    requires EntriesText(members) == PrintMembers(Object(m), keys)
    ensures Text(Keyed("", members, "")) == Print(Object(m))
  {
    hide Ascending, PrintMembers, EntriesText;
    var body := EntriesText(members);
    assert "" + ("{" + (body + "}")) == "{" + body + "}";
  }

  lemma SomeKey(m: map<string, Json>, keys: seq<string>)
    requires m != map[] && keys == Ascending(m.Keys)
    ensures keys != [] && StrictlyAscending(keys) && (forall k :: k in keys <==> k in m) && Names(Object(m), keys)
  {
    var k :| k in m;
    assert k in keys;
    hide Ascending;
  }

  lemma {:induction false} ObjectPrinted(m: map<string, Json>) returns (sp: Spelling)
    requires m != map[]
    ensures Tight(sp) && WellSpelled(sp) && ValueOf(sp) == Object(m) && Text(sp) == Print(Object(m))
    decreases Object(m), 1
  {
    var keys := Ascending(m.Keys);
    SomeKey(m, keys);
    hide *;
    var members := MembersPrinted(Object(m), keys);
    sp := Keyed("", members, "");
    assert InKeyOrder(members, m, keys) by { Ordered(members, m, keys); }
    KeyedTight(members, m, keys);
    KeyedText(members, m, keys);
  }

  lemma Ordered(members: seq<Entry>, m: map<string, Json>, keys: seq<string>)
    requires |members| == |keys| && StrictlyAscending(keys) && (forall k :: k in keys <==> k in m)
    requires forall i :: 0 <= i < |members| ==> EntryFor(members[i], keys[i], m[keys[i]])
    ensures InKeyOrder(members, m, keys)
  {
    hide EntryFor, StrictlyAscending;
  }
}
