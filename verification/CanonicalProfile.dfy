/**
 Normalisation by a pointer profile, and the canonical form it defines:
 what the canonical text of an input is, and why it is a fixed point.
 */
module CanonicalProfile {
  import opened Wrappers
  import opened Ordering
  import opened JsonText
  import opened JsonGrammar
  import Pointer
  import Timestamps
  import Utf8

  const MAX_BYTES: nat := 0x10_0000

  datatype Profile = Profile(sets: seq<string>, timestamps: seq<string>, omit: seq<string>)

  function MemberPath(path: string, key: string): string {
    path + "/" + Pointer.Escape(key)
  }

  function ItemPath(path: string, i: nat): string {
    path + "/" + NatText(i)
  }

  // ----- Sets -----

  ghost predicate IsSetOfStrings(u: Unicode, v: Json) {
    && v.Array?
    && (forall i :: 0 <= i < |v.items| ==> v.items[i].String?)
    && (forall i, j :: 0 <= i < j < |v.items| ==> u.nfc(v.items[i].s) != u.nfc(v.items[j].s))
  }

  ghost function Elements(u: Unicode, items: seq<Json>): set<string>
    requires forall i :: 0 <= i < |items| ==> items[i].String?
  {
    set i | 0 <= i < |items| :: u.nfc(items[i].s)
  }

  function Strings(keys: seq<string>): (r: seq<Json>)
    ensures |r| == |keys| && forall i :: 0 <= i < |r| ==> r[i] == String(keys[i])
  {
    seq(|keys|, i requires 0 <= i < |keys| => String(keys[i]))
  }

  // ----- Normalisation -----

  ghost predicate Omitted(u: Unicode, key: string, path: string, p: Profile) {
    MemberPath(path, u.nfc(key)) in p.omit
  }

  /** Whether normalisation at the given path succeeds. */
  ghost predicate Accepts(u: Unicode, v: Json, path: string, p: Profile)
    decreases v
  {
    if path in p.timestamps then v.String? && Timestamps.Stamp(v.s).Some?
    else if path in p.sets then IsSetOfStrings(u, v)
    else match v
      case Array(items) => forall i :: 0 <= i < |items| ==> Accepts(u, items[i], ItemPath(path, i), p)
      case Object(m) => forall k :: k in m ==> Omitted(u, k, path, p) || Accepts(u, m[k], MemberPath(path, u.nfc(k)), p)
      case _ => true
  }

  /** The member of m whose key normalises to key. */
  ghost function RawKey(u: Unicode, m: map<string, Json>, key: string): (raw: string)
    requires exists k :: k in m && u.nfc(k) == key
    ensures raw in m && u.nfc(raw) == key
  {
    var raw :| raw in m && u.nfc(raw) == key; raw
  }

  ghost function KeptKeys(u: Unicode, m: map<string, Json>, path: string, p: Profile): set<string> {
    set k | k in m && !Omitted(u, k, path, p) :: u.nfc(k)
  }

  ghost function Normal(u: Unicode, v: Json, path: string, p: Profile): Json
    requires Accepts(u, v, path, p)
    decreases v
  {
    if path in p.timestamps then String(Timestamps.Stamp(v.s).value)
    else if path in p.sets then Array(Strings(Ascending(Elements(u, v.items))))
    else match v
      case String(s) => String(u.nfc(s))
      case Array(items) =>
        Array(seq(|items|, i requires 0 <= i < |items| => Normal(u, items[i], ItemPath(path, i), p)))
      case Object(m) =>
        Object(map k | k in KeptKeys(u, m, path, p) :: Normal(u, m[RawKey(u, m, k)], MemberPath(path, k), p))
      case _ => v
  }

  /** Every kept member survives under its normalised key: nothing is overwritten. */
  lemma NoOverwrite(u: Unicode, m: map<string, Json>, path: string, p: Profile, key: string)
    requires Accepts(u, Object(m), path, p) && path !in p.timestamps && path !in p.sets
    requires KeysDistinct(u, m) && key in m && !Omitted(u, key, path, p)
    ensures var w, k := Normal(u, Object(m), path, p), u.nfc(key);
            w.Object? && k in w.members && w.members[k] == Normal(u, m[key], MemberPath(path, k), p)
  {
    assert u.nfc(key) in KeptKeys(u, m, path, p);
  }

  /** A map filled with every kept member under its normalised key is the normal form. */
  lemma MembersDone(u: Unicode, m: map<string, Json>, path: string, p: Profile, out: map<string, Json>)
    requires path !in p.timestamps && path !in p.sets
    requires KeysDistinct(u, m)
    requires forall k :: k in m && !Omitted(u, k, path, p) ==>
      && Accepts(u, m[k], MemberPath(path, u.nfc(k)), p)
      && u.nfc(k) in out && out[u.nfc(k)] == Normal(u, m[k], MemberPath(path, u.nfc(k)), p)
    requires forall n :: n in out ==> exists k :: k in m && !Omitted(u, k, path, p) && u.nfc(k) == n
    ensures Accepts(u, Object(m), path, p) && Normal(u, Object(m), path, p) == Object(out)
  {
    var w := Normal(u, Object(m), path, p).members;
    forall n | n in out
      ensures n in w && w[n] == out[n]
    {
      var k :| k in m && !Omitted(u, k, path, p) && u.nfc(k) == n;
      NoOverwrite(u, m, path, p, k);
    }
    forall n | n in w
      ensures n in out
    {
      assert n in KeptKeys(u, m, path, p);
    }
    assert w == out;
  }

  lemma {:induction false} NormalMemberFixed(
      u: Unicode, m: map<string, Json>, path: string, p: Profile, depth: nat, k: string)
    requires u.Lawful() && Readable(u, Object(m), depth) && Accepts(u, Object(m), path, p)
    requires path !in p.timestamps && path !in p.sets && k in KeptKeys(u, m, path, p)
    ensures u.nfc(k) == k && u.marksOk(k) && !Omitted(u, k, path, p)
    ensures var w := Normal(u, Object(m), path, p).members;
            k in w && Readable(u, w[k], depth + 1) &&
            Accepts(u, w[k], MemberPath(path, k), p) && Normal(u, w[k], MemberPath(path, k), p) == w[k]
    decreases Object(m), 0
  {
    var raw := RawKey(u, m, k);
    assert raw in m && Readable(u, m[raw], depth + 1);
    NormalFixed(u, m[raw], MemberPath(path, k), p, depth + 1);
  }

  lemma {:induction false} NormalMembersFixed(u: Unicode, m: map<string, Json>, path: string, p: Profile, depth: nat)
    requires u.Lawful() && Readable(u, Object(m), depth) && Accepts(u, Object(m), path, p)
    requires path !in p.timestamps && path !in p.sets
    ensures var w := Normal(u, Object(m), path, p);
            Readable(u, w, depth) && Accepts(u, w, path, p) && Normal(u, w, path, p) == w
    decreases Object(m), 1
  {
    var w := Normal(u, Object(m), path, p).members;
    forall k | k in w
      ensures u.nfc(k) == k && u.marksOk(k) && !Omitted(u, k, path, p) && Readable(u, w[k], depth + 1)
      ensures Accepts(u, w[k], MemberPath(path, k), p) && Normal(u, w[k], MemberPath(path, k), p) == w[k]
    {
      NormalMemberFixed(u, m, path, p, depth, k);
    }
    MembersFixedPoint(u, w, path, p);
  }

  /** Members that are fixed one by one are fixed together. */
  lemma MembersFixedPoint(u: Unicode, w: map<string, Json>, path: string, p: Profile)
    requires path !in p.timestamps && path !in p.sets
    requires forall k :: k in w ==>
      && u.nfc(k) == k && !Omitted(u, k, path, p)
      && Accepts(u, w[k], MemberPath(path, k), p) && Normal(u, w[k], MemberPath(path, k), p) == w[k]
    ensures Accepts(u, Object(w), path, p) && Normal(u, Object(w), path, p) == Object(w)
  {
    assert KeptKeys(u, w, path, p) == w.Keys;
    forall k | k in w
      ensures RawKey(u, w, k) == k
    {
      assert k in w && u.nfc(k) == k;
    }
    assert Normal(u, Object(w), path, p).members == w;
  }

  /** The elements of a set are in normal form already. */
  lemma SetElementsFixed(u: Unicode, v: Json, depth: nat, x: string)
    requires u.Lawful() && Readable(u, v, depth) && IsSetOfStrings(u, v)
    requires x in Elements(u, v.items)
    ensures u.nfc(x) == x && Readable(u, String(x), depth + 1)
  {
    var j :| 0 <= j < |v.items| && u.nfc(v.items[j].s) == x;
    assert Readable(u, v.items[j], depth + 1);
  }

  /** The elements of a set, once both implementations have normalised its items. */
  lemma ElementsOf(u: Unicode, items: seq<Json>, values: seq<string>)
    requires |values| == |items|
    requires forall j :: 0 <= j < |items| ==> items[j].String? && values[j] == u.nfc(items[j].s)
    ensures Elements(u, items) == set x | x in values
  {
    forall x | x in values
      ensures x in Elements(u, items)
    {
      var j :| 0 <= j < |values| && values[j] == x;
      assert u.nfc(items[j].s) == x;
    }
  }

  lemma StringsElements(u: Unicode, sorted: seq<string>)
    requires StrictlyAscending(sorted) && forall x :: x in sorted ==> u.nfc(x) == x
    ensures Elements(u, Strings(sorted)) == (set x | x in sorted)
    ensures IsSetOfStrings(u, Array(Strings(sorted)))
  {
    var w := Strings(sorted);
    forall i | 0 <= i < |sorted|
      ensures u.nfc(w[i].s) == sorted[i]
    {
      assert sorted[i] in sorted;
    }
    forall i, j | 0 <= i < j < |sorted|
      ensures u.nfc(w[i].s) != u.nfc(w[j].s)
    {
      LessIrreflexive(sorted[i]);
    }
    forall x | x in sorted
      ensures x in Elements(u, w)
    {
      var i :| 0 <= i < |sorted| && sorted[i] == x;
      assert u.nfc(w[i].s) == x;
    }
  }

  lemma SetFixed(u: Unicode, v: Json, path: string, p: Profile, depth: nat)
    requires u.Lawful() && Readable(u, v, depth) && Accepts(u, v, path, p)
    requires path !in p.timestamps && path in p.sets
    ensures var w := Normal(u, v, path, p);
            Readable(u, w, depth) && Accepts(u, w, path, p) && Normal(u, w, path, p) == w
  {
    var sorted := Ascending(Elements(u, v.items));
    forall x | x in sorted
      ensures u.nfc(x) == x && Readable(u, String(x), depth + 1)
    {
      SetElementsFixed(u, v, depth, x);
    }
    StringsElements(u, sorted);
    AscendingUnique(Ascending(Elements(u, Strings(sorted))), sorted);
    forall i | 0 <= i < |sorted|
      ensures Readable(u, Strings(sorted)[i], depth + 1)
    {
      assert sorted[i] in sorted;
    }
  }

  lemma StampFixed(u: Unicode, s: string)
    requires u.Lawful() && Timestamps.Stamp(s).Some?
    ensures var c := Timestamps.Stamp(s).value; u.marksOk(c) && Timestamps.Stamp(c) == Some(c)
  {
    Timestamps.StampIsAscii(s);
    Timestamps.StampIdempotent(s);
    hide Timestamps.Stamp, IsAscii;
  }

  /** Normal form is readable again and normalises to itself. */
  lemma {:induction false} NormalFixed(u: Unicode, v: Json, path: string, p: Profile, depth: nat)
    requires u.Lawful() && Readable(u, v, depth) && Accepts(u, v, path, p)
    ensures var w := Normal(u, v, path, p);
            Readable(u, w, depth) && Accepts(u, w, path, p) && Normal(u, w, path, p) == w
    decreases v, 2
  {
    if path in p.timestamps {
      StampFixed(u, v.s);
    } else if path in p.sets {
      SetFixed(u, v, path, p, depth);
    } else if v.Object? {
      NormalMembersFixed(u, v.members, path, p, depth);
    } else if v.Array? {
      forall i | 0 <= i < |v.items|
        ensures var w := Normal(u, v.items[i], ItemPath(path, i), p);
                && Readable(u, w, depth + 1) && Accepts(u, w, ItemPath(path, i), p)
                && Normal(u, w, ItemPath(path, i), p) == w
      {
        NormalFixed(u, v.items[i], ItemPath(path, i), p, depth + 1);
      }
    }
  }

  // ----- The canonical text -----

  /** The normalised tree of an input text, when the input is accepted. */
  ghost function Tree(u: Unicode, s: string, p: Profile): Option<Json> {
    var v := ReadText(u, s);
    if |Utf8.Encode(s)| <= MAX_BYTES && v.Some? && Accepts(u, v.value, "", p)
    then Some(Normal(u, v.value, "", p)) else None
  }

  ghost function Canonical(u: Unicode, s: string, p: Profile): Option<string> {
    var t := Tree(u, s, p);
    if t.Some? then Some(Print(t.value)) else None
  }

  lemma ReadTextReadable(u: Unicode, s: string)
    ensures ReadText(u, s).Some? ==> Readable(u, ReadText(u, s).value, 0)
  {
    ReadValueReadable(u, s, 0);
  }

  /** The canonical text reads back as exactly the normalised tree. */
  lemma CanonicalReadsBack(u: Unicode, s: string, p: Profile)
    requires u.Lawful() && Canonical(u, s, p).Some?
    ensures ReadText(u, Canonical(u, s, p).value) == Tree(u, s, p)
  {
    ReadTextReadable(u, s);
    NormalFixed(u, ReadText(u, s).value, "", p, 0);
    PrintedTextReads(u, Tree(u, s, p).value);
  }

  /** Canonical text is a fixed point unless normalisation pushed it over the size limit. */
  lemma CanonicalIdempotent(u: Unicode, s: string, p: Profile)
    requires u.Lawful() && Canonical(u, s, p).Some?
    ensures var c := Canonical(u, s, p).value;
            Canonical(u, c, p) == (if |Utf8.Encode(c)| <= MAX_BYTES then Some(c) else None)
  {
    CanonicalReadsBack(u, s, p);
    ReadTextReadable(u, s);
    NormalFixed(u, ReadText(u, s).value, "", p, 0);
  }

  /** Canonical bytes are equal exactly when the normalised trees are. */
  lemma CanonicalBytesDetermineTree(u: Unicode, s: string, t: string, p: Profile)
    requires u.Lawful() && Canonical(u, s, p).Some? && Canonical(u, t, p).Some?
    ensures Utf8.Encode(Canonical(u, s, p).value) == Utf8.Encode(Canonical(u, t, p).value)
            <==> Tree(u, s, p) == Tree(u, t, p)
  {
    CanonicalReadsBack(u, s, p);
    CanonicalReadsBack(u, t, p);
    if Utf8.Encode(Canonical(u, s, p).value) == Utf8.Encode(Canonical(u, t, p).value) {
      Utf8.EncodeInjective(Canonical(u, s, p).value, Canonical(u, t, p).value);
    }
  }

  // ----- Paths -----

  /** One step down a value: to the member under a key as it was read, or to an item. */
  datatype Step = Member(key: string) | Item(index: nat)

  ghost predicate HasPosition(v: Json, position: seq<Step>)
    decreases |position|
  {
    position == [] ||
    match position[0]
    case Member(key) => v.Object? && key in v.members && HasPosition(v.members[key], position[1..])
    case Item(i) => v.Array? && i < |v.items| && HasPosition(v.items[i], position[1..])
  }

  /** The path with which normalisation reaches a position. */
  ghost function PathOf(u: Unicode, position: seq<Step>): string {
    if position == [] then ""
    else
      var path := PathOf(u, position[..|position| - 1]);
      match position[|position| - 1]
      case Member(key) => MemberPath(path, u.nfc(key))
      case Item(i) => ItemPath(path, i)
  }

  ghost function Token(u: Unicode, step: Step): string {
    match step
    case Member(key) => u.nfc(key)
    case Item(i) => NatText(i)
  }

  ghost function TokensOf(u: Unicode, position: seq<Step>): (tokens: seq<string>)
    ensures |tokens| == |position| && forall i :: 0 <= i < |position| ==> tokens[i] == Token(u, position[i])
  {
    seq(|position|, i requires 0 <= i < |position| => Token(u, position[i]))
  }

  lemma {:induction false} NothingReplaced(s: string, c: char, text: string)
    requires c !in s
    ensures Pointer.ReplaceAll(s, c, text) == s
  {
    if s != "" {
      NothingReplaced(s[1..], c, text);
    }
  }

  lemma NumbersUnescaped(n: nat)
    ensures Pointer.Escape(NatText(n)) == NatText(n)
  {
    NothingReplaced(NatText(n), '~', "~0");
    NothingReplaced(NatText(n), '/', "~1");
  }

  /** The path is the pointer of the normalised keys and the indices. */
  lemma {:induction false} PathIsPointer(u: Unicode, position: seq<Step>)
    ensures PathOf(u, position) == Pointer.FromTokens(TokensOf(u, position))
  {
    if position == [] {
      assert TokensOf(u, position) == [];
    } else {
      var most, last := position[..|position| - 1], position[|position| - 1];
      PathIsPointer(u, most);
      assert TokensOf(u, position) == TokensOf(u, most) + [Token(u, last)];
      Pointer.FromTokensAppend(TokensOf(u, most), Token(u, last));
      if last.Item? { NumbersUnescaped(last.index); }
    }
  }

  lemma SameText(m: nat, n: nat)
    requires NatText(m) == NatText(n)
    ensures m == n
  {
    NatTextValue(m);
    NatTextValue(n);
  }

  lemma {:induction false} TokensSelect(u: Unicode, v: Json, depth: nat, p: seq<Step>, q: seq<Step>)
    requires Readable(u, v, depth) && HasPosition(v, p) && HasPosition(v, q)
    requires TokensOf(u, p) == TokensOf(u, q)
    ensures p == q
    decreases |p|
  {
    assert |p| == |TokensOf(u, p)| == |q|;
    if p != [] {
      assert TokensOf(u, p)[0] == TokensOf(u, q)[0];
      if v.Array? { SameText(p[0].index, q[0].index); }
      assert p[0] == q[0];
      var child := if v.Object? then v.members[p[0].key] else v.items[p[0].index];
      assert TokensOf(u, p[1..]) == TokensOf(u, p)[1..] == TokensOf(u, q)[1..] == TokensOf(u, q[1..]);
      TokensSelect(u, child, depth + 1, p[1..], q[1..]);
      assert p == [p[0]] + p[1..] && q == [q[0]] + q[1..];
    }
  }

  /** In a value that was read, a path leads to one position only, through members and items alike. */
  lemma PathSelectsOnePosition(u: Unicode, v: Json, p: seq<Step>, q: seq<Step>)
    requires Readable(u, v, 0) && HasPosition(v, p) && HasPosition(v, q)
    ensures PathOf(u, p) == PathOf(u, q) <==> p == q
  {
    if PathOf(u, p) == PathOf(u, q) {
      PathIsPointer(u, p);
      PathIsPointer(u, q);
      Pointer.FromTokensInjective(TokensOf(u, p), TokensOf(u, q));
      TokensSelect(u, v, 0, p, q);
    }
  }
}
