/**
 What normalisation by a profile means, without computing it: which values a profile does not
 tell apart, which values are in normal form, and that the one in normal form is the canonical one.
 */
module NormalForm {
  import opened Wrappers
  import opened Ordering
  import opened JsonText
  import opened JsonGrammar
  import opened CanonicalProfile
  import Pointer
  import Timestamps
  import Utf8

  // ----- Meaning -----

  /** A string in the first list of items for each in the second, equal in NFC. */
  ghost predicate Covers(u: Unicode, a: seq<Json>, b: seq<Json>) {
    forall j :: 0 <= j < |b| ==>
      b[j].String? && exists i :: 0 <= i < |a| && a[i].String? && u.nfc(a[i].s) == u.nfc(b[j].s)
  }

  /** Strings of which no two are equal in NFC. */
  ghost predicate Distinct(u: Unicode, a: seq<Json>) {
    && (forall i :: 0 <= i < |a| ==> a[i].String?)
    && forall i, j :: 0 <= i < |a| && 0 <= j < |a| && i != j ==> u.nfc(a[i].s) != u.nfc(a[j].s)
  }

  /** The member stays: its path, with the key in NFC, is not among those that are left out. */
  ghost predicate Stays(u: Unicode, key: string, path: string, p: Profile) {
    path + "/" + Pointer.Escape(u.nfc(key)) !in p.omit
  }

  /** Members of two objects whose keys are equal in NFC and whose values are equivalent. */
  ghost predicate Counterparts(
      u: Unicode, m: map<string, Json>, k: string, n: map<string, Json>, l: string, path: string, p: Profile)
    requires k in m
    decreases Object(m), 0
  {
    l in n && u.nfc(k) == u.nfc(l) && Equivalent(u, m[k], n[l], path + "/" + Pointer.Escape(u.nfc(k)), p)
  }

  /**
   Two values that the profile does not tell apart, position by position: equal instants, equal sets of
   strings, equal strings and keys in NFC, items in order, and equal members but for those left out.
   */
  ghost predicate Equivalent(u: Unicode, v: Json, w: Json, path: string, p: Profile)
    decreases v, 1
  {
    if path in p.timestamps then
      && v.String? && w.String? && Timestamps.Stamp(v.s).Some? && Timestamps.Stamp(w.s).Some?
      && Timestamps.Nanoseconds(v.s) == Timestamps.Nanoseconds(w.s)
    else if path in p.sets then
      && v.Array? && w.Array? && Distinct(u, v.items) && Distinct(u, w.items)
      && Covers(u, v.items, w.items) && Covers(u, w.items, v.items)
    else match v
      case String(s) => w.String? && u.nfc(s) == u.nfc(w.s)
      case Array(items) =>
        && w.Array? && |w.items| == |items|
        && forall i :: 0 <= i < |items| ==> Equivalent(u, items[i], w.items[i], path + "/" + NatText(i), p)
      case Object(m) =>
        && w.Object?
        && (forall k :: k in m && Stays(u, k, path, p) ==> exists l :: Counterparts(u, m, k, w.members, l, path, p))
        && (forall l :: l in w.members && Stays(u, l, path, p) ==> exists k :: k in m && u.nfc(k) == u.nfc(l))
      case _ => w == v
  }

  // ----- Form -----

  /**
   Every string and key is its own NFC, every time stamp its own canonical form, every set ascends strictly
   in the bytes of its strings, and nothing is there that the profile leaves out.
   */
  ghost predicate InForm(u: Unicode, w: Json, path: string, p: Profile)
    decreases w
  {
    if path in p.timestamps then w.String? && Timestamps.Stamp(w.s) == Some(w.s)
    else if path in p.sets then
      && w.Array? && (forall i :: 0 <= i < |w.items| ==> w.items[i].String? && u.nfc(w.items[i].s) == w.items[i].s)
      && forall i, j :: 0 <= i < j < |w.items| ==>
           Utf8.BytesLess(Utf8.Encode(w.items[i].s), Utf8.Encode(w.items[j].s))
    else match w
      case String(s) => u.nfc(s) == s
      case Array(items) => forall i :: 0 <= i < |items| ==> InForm(u, items[i], path + "/" + NatText(i), p)
      case Object(m) =>
        forall k :: k in m ==>
          && u.nfc(k) == k && path + "/" + Pointer.Escape(k) !in p.omit
          && InForm(u, m[k], path + "/" + Pointer.Escape(k), p)
      case _ => true
  }

  // ----- Acceptance -----

  lemma DistinctStrings(u: Unicode, v: Json)
    ensures IsSetOfStrings(u, v) <==> v.Array? && Distinct(u, v.items)
    ensures IsSetOfStrings(u, v) ==> Covers(u, v.items, v.items)
  {
  }

  lemma {:induction false} EquivalentAccepted(u: Unicode, v: Json, w: Json, path: string, p: Profile)
    requires Equivalent(u, v, w, path, p)
    ensures Accepts(u, v, path, p)
    decreases v
  {
    if path in p.timestamps {
    } else if path in p.sets {
      DistinctStrings(u, v);
    } else if v.Array? {
      forall i | 0 <= i < |v.items|
        ensures Accepts(u, v.items[i], ItemPath(path, i), p)
      {
        EquivalentAccepted(u, v.items[i], w.items[i], ItemPath(path, i), p);
      }
    } else if v.Object? {
      forall k | k in v.members && !Omitted(u, k, path, p)
        ensures Accepts(u, v.members[k], MemberPath(path, u.nfc(k)), p)
      {
        var l :| Counterparts(u, v.members, k, w.members, l, path, p);
        EquivalentAccepted(u, v.members[k], w.members[l], MemberPath(path, u.nfc(k)), p);
      }
    }
  }

  lemma {:induction false} AcceptedEquivalent(u: Unicode, v: Json, path: string, p: Profile)
    requires Accepts(u, v, path, p)
    ensures Equivalent(u, v, v, path, p)
    decreases v
  {
    if path in p.timestamps {
    } else if path in p.sets {
      DistinctStrings(u, v);
    } else if v.Array? {
      forall i | 0 <= i < |v.items|
        ensures Equivalent(u, v.items[i], v.items[i], path + "/" + NatText(i), p)
      {
        AcceptedEquivalent(u, v.items[i], ItemPath(path, i), p);
      }
    } else if v.Object? {
      forall k | k in v.members && Stays(u, k, path, p)
        ensures exists l :: Counterparts(u, v.members, k, v.members, l, path, p)
      {
        AcceptedEquivalent(u, v.members[k], MemberPath(path, u.nfc(k)), p);
        assert Counterparts(u, v.members, k, v.members, k, path, p);
      }
    }
  }

  /** A value is accepted exactly when it is equivalent to itself. */
  lemma AcceptsExactly(u: Unicode, v: Json, path: string, p: Profile)
    ensures Accepts(u, v, path, p) <==> Equivalent(u, v, v, path, p)
  {
    if Accepts(u, v, path, p) { AcceptedEquivalent(u, v, path, p); }
    if Equivalent(u, v, v, path, p) { EquivalentAccepted(u, v, v, path, p); }
  }

  // ----- The normal form is in form -----

  lemma SetInForm(u: Unicode, v: Json, path: string, p: Profile, depth: nat)
    requires u.Lawful() && Readable(u, v, depth) && Accepts(u, v, path, p)
    requires path !in p.timestamps && path in p.sets
    ensures InForm(u, Normal(u, v, path, p), path, p)
  {
    SetNormal(u, v, path, p);
    hide *;
    var sorted := Ascending(Elements(u, v.items));
    forall x | x in sorted
      ensures u.nfc(x) == x
    {
      SetElementsFixed(u, v, depth, x);
    }
    StringsInForm(u, sorted, path, p);
  }

  lemma SetNormal(u: Unicode, v: Json, path: string, p: Profile)
    requires Accepts(u, v, path, p) && path !in p.timestamps && path in p.sets
    ensures IsSetOfStrings(u, v) && Normal(u, v, path, p) == Array(Strings(Ascending(Elements(u, v.items))))
  {
  }

  lemma StringsInForm(u: Unicode, sorted: seq<string>, path: string, p: Profile)
    requires path !in p.timestamps && path in p.sets
    requires StrictlyAscending(sorted) && forall x :: x in sorted ==> u.nfc(x) == x
    ensures InForm(u, Array(Strings(sorted)), path, p)
  {
    hide Utf8.BytesLess, Utf8.Encode, StrictlyAscending;
    AscendingBytes(sorted);
    assert forall i :: 0 <= i < |sorted| ==> sorted[i] in sorted;
  }

  lemma AscendingBytes(sorted: seq<string>)
    requires StrictlyAscending(sorted)
    ensures forall i, j :: 0 <= i < j < |sorted| ==> Utf8.BytesLess(Utf8.Encode(sorted[i]), Utf8.Encode(sorted[j]))
  {
    hide Utf8.BytesLess, Utf8.Encode, Less;
    forall i, j | 0 <= i < j < |sorted|
      ensures Utf8.BytesLess(Utf8.Encode(sorted[i]), Utf8.Encode(sorted[j]))
    {
      Utf8.ByteOrderIsScalarOrder(sorted[i], sorted[j]);
    }
  }

  lemma {:induction false} NormalInForm(u: Unicode, v: Json, path: string, p: Profile, depth: nat)
    requires u.Lawful() && Readable(u, v, depth) && Accepts(u, v, path, p)
    ensures InForm(u, Normal(u, v, path, p), path, p)
    decreases v
  {
    if path in p.timestamps {
      StampFixed(u, v.s);
    } else if path in p.sets {
      SetInForm(u, v, path, p, depth);
    } else if v.Array? {
      forall i | 0 <= i < |v.items|
        ensures InForm(u, Normal(u, v.items[i], ItemPath(path, i), p), path + "/" + NatText(i), p)
      {
        NormalInForm(u, v.items[i], ItemPath(path, i), p, depth + 1);
      }
    } else if v.Object? {
      var m := v.members;
      forall k | k in KeptKeys(u, m, path, p)
        ensures u.nfc(k) == k && path + "/" + Pointer.Escape(k) !in p.omit
        ensures var x := m[RawKey(u, m, k)];
                InForm(u, Normal(u, x, MemberPath(path, k), p), path + "/" + Pointer.Escape(k), p)
      {
        NormalMemberFixed(u, m, path, p, depth, k);
        NormalInForm(u, m[RawKey(u, m, k)], MemberPath(path, k), p, depth + 1);
      }
    }
  }

  // ----- Equal normal forms -----

  lemma SetsEqual(u: Unicode, v: Json, w: Json)
    requires IsSetOfStrings(u, v) && IsSetOfStrings(u, w)
    ensures Elements(u, v.items) == Elements(u, w.items) <==> Covers(u, v.items, w.items) && Covers(u, w.items, v.items)
  {
    if Elements(u, v.items) == Elements(u, w.items) {
      SubsetCovers(u, v.items, w.items);
      SubsetCovers(u, w.items, v.items);
    }
  }

  lemma SubsetCovers(u: Unicode, a: seq<Json>, b: seq<Json>)
    requires (forall i :: 0 <= i < |a| ==> a[i].String?) && (forall i :: 0 <= i < |b| ==> b[i].String?)
    requires Elements(u, b) <= Elements(u, a)
    ensures Covers(u, a, b)
  {
    forall j | 0 <= j < |b|
      ensures exists i :: 0 <= i < |a| && a[i].String? && u.nfc(a[i].s) == u.nfc(b[j].s)
    {
      assert u.nfc(b[j].s) in Elements(u, a);
    }
  }

  lemma SameStrings(a: seq<string>, b: seq<string>)
    requires Strings(a) == Strings(b)
    ensures a == b
  {
    forall i | 0 <= i < |a|
      ensures a[i] == b[i]
    {
      assert Strings(a)[i] == Strings(b)[i];
    }
  }

  lemma SameSet(u: Unicode, v: Json, w: Json, path: string, p: Profile)
    requires Accepts(u, v, path, p) && Accepts(u, w, path, p) && path !in p.timestamps && path in p.sets
    ensures Normal(u, v, path, p) == Normal(u, w, path, p) <==> Equivalent(u, v, w, path, p)
  {
    DistinctStrings(u, v);
    DistinctStrings(u, w);
    SetsEqual(u, v, w);
    assert Equivalent(u, v, w, path, p) <==> Elements(u, v.items) == Elements(u, w.items);
    SetNormal(u, v, path, p);
    SetNormal(u, w, path, p);
    hide *;
    var a, b := Ascending(Elements(u, v.items)), Ascending(Elements(u, w.items));
    if Strings(a) == Strings(b) {
      SameStrings(a, b);
    }
  }

  /** Two accepted values have one normal form exactly when the profile does not tell them apart. */
  lemma {:induction false} SameNormal(u: Unicode, v: Json, w: Json, path: string, p: Profile, depth: nat)
    requires Readable(u, v, depth) && Readable(u, w, depth)
    requires Accepts(u, v, path, p) && Accepts(u, w, path, p)
    ensures Normal(u, v, path, p) == Normal(u, w, path, p) <==> Equivalent(u, v, w, path, p)
    decreases v, 2
  {
    if path in p.timestamps {
      Timestamps.SameNanoseconds(v.s, w.s);
    } else if path in p.sets {
      SameSet(u, v, w, path, p);
    } else if v.Array? && w.Array? {
      if |v.items| == |w.items| {
        ItemsSame(u, v.items, w.items, path, p, depth);
      } else {
        assert |Normal(u, v, path, p).items| != |Normal(u, w, path, p).items|;
      }
    } else if v.Object? && w.Object? {
      MembersSame(u, v.members, w.members, path, p, depth);
    }
  }

  lemma {:induction false} ItemsSame(
      u: Unicode, a: seq<Json>, b: seq<Json>, path: string, p: Profile, depth: nat)
    requires Readable(u, Array(a), depth) && Readable(u, Array(b), depth) && |a| == |b|
    requires path !in p.timestamps && path !in p.sets
    requires Accepts(u, Array(a), path, p) && Accepts(u, Array(b), path, p)
    ensures Normal(u, Array(a), path, p) == Normal(u, Array(b), path, p) <==>
            Equivalent(u, Array(a), Array(b), path, p)
    decreases Array(a), 0
  {
    var x, y := Normal(u, Array(a), path, p), Normal(u, Array(b), path, p);
    forall i | 0 <= i < |a|
      ensures x.items[i] == y.items[i] <==> Equivalent(u, a[i], b[i], path + "/" + NatText(i), p)
    {
      SameNormal(u, a[i], b[i], ItemPath(path, i), p, depth + 1);
    }
    if Equivalent(u, Array(a), Array(b), path, p) {
      assert x.items == y.items;
    }
  }

  /** The keys of x are the NFC of those of m that stay. */
  ghost predicate HasKeys(u: Unicode, m: map<string, Json>, x: map<string, Json>, path: string, p: Profile) {
    forall key :: key in x <==> exists k :: k in m && Stays(u, k, path, p) && u.nfc(k) == key
  }

  /** Members of x and y are equal exactly when those of m and n that they come from are counterparts. */
  ghost predicate Agree(
      u: Unicode, m: map<string, Json>, n: map<string, Json>, x: map<string, Json>, y: map<string, Json>,
      path: string, p: Profile)
  {
    forall k, l :: k in m && l in n && u.nfc(k) == u.nfc(l) && Stays(u, k, path, p) ==>
      u.nfc(k) in x && u.nfc(k) in y && (x[u.nfc(k)] == y[u.nfc(k)] <==> Counterparts(u, m, k, n, l, path, p))
  }

  lemma {:induction false} MembersSame(
      u: Unicode, m: map<string, Json>, n: map<string, Json>, path: string, p: Profile, depth: nat)
    requires Readable(u, Object(m), depth) && Readable(u, Object(n), depth)
    requires path !in p.timestamps && path !in p.sets
    requires Accepts(u, Object(m), path, p) && Accepts(u, Object(n), path, p)
    ensures Normal(u, Object(m), path, p) == Normal(u, Object(n), path, p) <==>
            Equivalent(u, Object(m), Object(n), path, p)
    decreases Object(m), 1
  {
    hide *;
    KeysOf(u, m, path, p);
    KeysOf(u, n, path, p);
    var x, y := Normal(u, Object(m), path, p), Normal(u, Object(n), path, p);
    assert Agree(u, m, n, x.members, y.members, path, p) by {
      forall k, l | k in m && l in n && u.nfc(k) == u.nfc(l) && Stays(u, k, path, p)
        ensures u.nfc(k) in x.members && u.nfc(k) in y.members
        ensures x.members[u.nfc(k)] == y.members[u.nfc(k)] <==> Counterparts(u, m, k, n, l, path, p)
      {
        MemberSame(u, m, k, n, l, path, p, depth);
      }
      Agreed(u, m, n, x.members, y.members, path, p);
    }
    SameMembers(u, m, n, x.members, y.members, path, p);
  }

  lemma Agreed(
      u: Unicode, m: map<string, Json>, n: map<string, Json>, x: map<string, Json>, y: map<string, Json>,
      path: string, p: Profile)
    requires forall k, l :: k in m && l in n && u.nfc(k) == u.nfc(l) && Stays(u, k, path, p) ==>
               u.nfc(k) in x && u.nfc(k) in y &&
               (x[u.nfc(k)] == y[u.nfc(k)] <==> Counterparts(u, m, k, n, l, path, p))
    ensures Agree(u, m, n, x, y, path, p)
  {
    hide Counterparts, Stays;
  }

  lemma {:induction false} MemberSame(
      u: Unicode, m: map<string, Json>, k: string, n: map<string, Json>, l: string,
      path: string, p: Profile, depth: nat)
    requires Readable(u, Object(m), depth) && Readable(u, Object(n), depth)
    requires path !in p.timestamps && path !in p.sets
    requires Accepts(u, Object(m), path, p) && Accepts(u, Object(n), path, p)
    requires k in m && l in n && u.nfc(k) == u.nfc(l) && Stays(u, k, path, p)
    ensures var x, y := Normal(u, Object(m), path, p), Normal(u, Object(n), path, p);
            && x.Object? && y.Object? && u.nfc(k) in x.members && u.nfc(k) in y.members
            && (x.members[u.nfc(k)] == y.members[u.nfc(k)] <==> Counterparts(u, m, k, n, l, path, p))
    decreases Object(m), 0
  {
    assert !Omitted(u, k, path, p) && !Omitted(u, l, path, p);
    NoOverwrite(u, m, path, p, k);
    NoOverwrite(u, n, path, p, l);
    assert Readable(u, m[k], depth + 1) && Readable(u, n[l], depth + 1);
    hide Normal, Readable, Equivalent, Omitted;
    SameNormal(u, m[k], n[l], MemberPath(path, u.nfc(k)), p, depth + 1);
  }

  /** The keys of the normal form of an object. */
  lemma KeysOf(u: Unicode, m: map<string, Json>, path: string, p: Profile)
    requires path !in p.timestamps && path !in p.sets && Accepts(u, Object(m), path, p)
    ensures var x := Normal(u, Object(m), path, p); x.Object? && HasKeys(u, m, x.members, path, p)
  {
    var x := Normal(u, Object(m), path, p).members;
    assert x.Keys == KeptKeys(u, m, path, p);
    assert forall k :: Stays(u, k, path, p) <==> !Omitted(u, k, path, p);
    hide Accepts, Normal, Omitted, Stays;
  }

  lemma SameMembers(
      u: Unicode, m: map<string, Json>, n: map<string, Json>, x: map<string, Json>, y: map<string, Json>,
      path: string, p: Profile)
    requires path !in p.timestamps && path !in p.sets
    requires HasKeys(u, m, x, path, p) && HasKeys(u, n, y, path, p) && Agree(u, m, n, x, y, path, p)
    ensures x == y <==> Equivalent(u, Object(m), Object(n), path, p)
  {
    hide Equivalent, HasKeys, Agree, Counterparts, Stays;
    if x == y {
      EqualMatch(u, m, n, x, path, p);
    }
    if Equivalent(u, Object(m), Object(n), path, p) {
      forall key
        ensures key in x <==> key in y
        ensures key in x ==> x[key] == y[key]
      {
        MatchEqual(u, m, n, x, y, path, p, key);
      }
    }
  }

  lemma EqualMatch(
      u: Unicode, m: map<string, Json>, n: map<string, Json>, x: map<string, Json>, path: string, p: Profile)
    requires path !in p.timestamps && path !in p.sets
    requires HasKeys(u, m, x, path, p) && HasKeys(u, n, x, path, p) && Agree(u, m, n, x, x, path, p)
    ensures Equivalent(u, Object(m), Object(n), path, p)
  {
    hide Counterparts, Stays;
    forall k | k in m && Stays(u, k, path, p)
      ensures exists l :: Counterparts(u, m, k, n, l, path, p)
    {
      assert u.nfc(k) in x;
      var l :| l in n && Stays(u, l, path, p) && u.nfc(l) == u.nfc(k);
      assert Counterparts(u, m, k, n, l, path, p);
    }
    forall l | l in n && Stays(u, l, path, p)
      ensures exists k :: k in m && u.nfc(k) == u.nfc(l)
    {
      assert u.nfc(l) in x;
    }
  }

  lemma MatchEqual(
      u: Unicode, m: map<string, Json>, n: map<string, Json>, x: map<string, Json>, y: map<string, Json>,
      path: string, p: Profile, key: string)
    requires path !in p.timestamps && path !in p.sets && Equivalent(u, Object(m), Object(n), path, p)
    requires HasKeys(u, m, x, path, p) && HasKeys(u, n, y, path, p) && Agree(u, m, n, x, y, path, p)
    ensures key in x <==> key in y
    ensures key in x ==> x[key] == y[key]
  {
    if key in x {
      var k :| k in m && Stays(u, k, path, p) && u.nfc(k) == key;
      Found(u, m, k, n, path, p);
      var l :| l in n && u.nfc(l) == key && Counterparts(u, m, k, n, l, path, p);
    }
    if key in y {
      var l :| l in n && Stays(u, l, path, p) && u.nfc(l) == key;
      var k :| k in m && u.nfc(k) == u.nfc(l);
      assert Stays(u, k, path, p);
    }
    hide *;
  }

  lemma Found(u: Unicode, m: map<string, Json>, k: string, n: map<string, Json>, path: string, p: Profile)
    requires path !in p.timestamps && path !in p.sets && Equivalent(u, Object(m), Object(n), path, p)
    requires k in m && Stays(u, k, path, p)
    ensures exists l :: l in n && u.nfc(l) == u.nfc(k) && Counterparts(u, m, k, n, l, path, p)
  {
    var l :| Counterparts(u, m, k, n, l, path, p);
    hide Equivalent;
    assert l in n && u.nfc(l) == u.nfc(k);
  }

  // ----- The canonical value -----

  /** A value in form is the normal form of every value that it is equivalent to. */
  lemma {:induction false} FormIsNormal(u: Unicode, v: Json, w: Json, path: string, p: Profile, depth: nat)
    requires Readable(u, v, depth) && Equivalent(u, v, w, path, p) && InForm(u, w, path, p)
    ensures Accepts(u, v, path, p) && w == Normal(u, v, path, p)
    decreases v, 1
  {
    EquivalentAccepted(u, v, w, path, p);
    if path in p.timestamps {
      Timestamps.SameNanoseconds(v.s, w.s);
    } else if path in p.sets {
      SetIsNormal(u, v, w, path, p);
    } else if v.Array? {
      forall i | 0 <= i < |v.items|
        ensures w.items[i] == Normal(u, v.items[i], ItemPath(path, i), p)
      {
        FormIsNormal(u, v.items[i], w.items[i], ItemPath(path, i), p, depth + 1);
      }
      assert w.items == Normal(u, v, path, p).items;
    } else if v.Object? {
      MembersAreNormal(u, v.members, w.members, path, p, depth);
    }
  }

  lemma SetIsNormal(u: Unicode, v: Json, w: Json, path: string, p: Profile)
    requires path !in p.timestamps && path in p.sets
    requires Accepts(u, v, path, p) && Equivalent(u, v, w, path, p) && InForm(u, w, path, p)
    ensures w == Normal(u, v, path, p)
  {
    var s := seq(|w.items|, i requires 0 <= i < |w.items| => w.items[i].s);
    forall i, j | 0 <= i < j < |s|
      ensures Less(s[i], s[j])
    {
      Utf8.ByteOrderIsScalarOrder(s[i], s[j]);
    }
    hide Utf8.BytesLess, Utf8.Encode;
    SetsEqual(u, v, w);
    StringsElements(u, s);
    assert Strings(s) == w.items;
    AscendingUnique(s, Ascending(Elements(u, v.items)));
  }

  lemma {:induction false} MembersAreNormal(
      u: Unicode, m: map<string, Json>, n: map<string, Json>, path: string, p: Profile, depth: nat)
    requires path !in p.timestamps && path !in p.sets && Readable(u, Object(m), depth)
    requires Equivalent(u, Object(m), Object(n), path, p) && InForm(u, Object(n), path, p)
    ensures Accepts(u, Object(m), path, p) && Object(n) == Normal(u, Object(m), path, p)
    decreases Object(m), 0
  {
    forall k | k in m && !Omitted(u, k, path, p)
      ensures Accepts(u, m[k], MemberPath(path, u.nfc(k)), p)
      ensures u.nfc(k) in n && n[u.nfc(k)] == Normal(u, m[k], MemberPath(path, u.nfc(k)), p)
    {
      var l :| Counterparts(u, m, k, n, l, path, p);
      FormIsNormal(u, m[k], n[l], MemberPath(path, u.nfc(k)), p, depth + 1);
    }
    forall l | l in n
      ensures exists k :: k in m && !Omitted(u, k, path, p) && u.nfc(k) == l
    {
      assert Stays(u, l, path, p);
      var k :| k in m && u.nfc(k) == u.nfc(l);
      assert !Omitted(u, k, path, p);
    }
    MembersDone(u, m, path, p, n);
  }

  /**
   The normal form of a value that was read is the one value in form to which it is equivalent: strings and
   keys are the NFC of those they come from, stamps denote the same instant, sets have the same elements.
   */
  lemma NormalExactly(u: Unicode, v: Json, w: Json, path: string, p: Profile)
    requires u.Lawful() && Readable(u, v, 0)
    ensures Accepts(u, v, path, p) && w == Normal(u, v, path, p) <==>
            InForm(u, w, path, p) && Equivalent(u, v, w, path, p)
  {
    if Accepts(u, v, path, p) && w == Normal(u, v, path, p) {
      NormalInForm(u, v, path, p, 0);
      NormalFixed(u, v, path, p, 0);
      SameNormal(u, v, w, path, p, 0);
    }
    if InForm(u, w, path, p) && Equivalent(u, v, w, path, p) {
      FormIsNormal(u, v, w, path, p, 0);
    }
    hide InForm, Equivalent, Accepts, Normal, Readable;
  }

  // ----- Texts -----

  /**
   A text has a canonical text exactly when it is within one mebibyte, can be read, and reads as a value to which
   some value in form is equivalent; the canonical text is what that value prints as.
   */
  lemma CanonicalExactly(u: Unicode, s: string, p: Profile, c: string)
    requires u.Lawful()
    ensures Canonical(u, s, p) == Some(c) <==>
            && |Utf8.Encode(s)| <= 0x10_0000 && ReadText(u, s).Some?
            && exists w :: InForm(u, w, "", p) && Equivalent(u, ReadText(u, s).value, w, "", p) && c == Print(w)
  {
    var r := ReadText(u, s);
    if r.Some? {
      ReadTextReadable(u, s);
      if Accepts(u, r.value, "", p) {
        NormalExactly(u, r.value, Normal(u, r.value, "", p), "", p);
      }
      forall w | InForm(u, w, "", p) && Equivalent(u, r.value, w, "", p)
        ensures Accepts(u, r.value, "", p) && w == Normal(u, r.value, "", p)
      {
        NormalExactly(u, r.value, w, "", p);
      }
    }
    hide InForm, Equivalent, Accepts, Normal, ReadText, Print, Utf8.Encode, Readable;
  }

  /** Two canonical texts have equal bytes exactly when the profile does not tell apart what was read. */
  lemma EqualBytesExactly(u: Unicode, s: string, t: string, p: Profile)
    requires u.Lawful() && Canonical(u, s, p).Some? && Canonical(u, t, p).Some?
    ensures Utf8.Encode(Canonical(u, s, p).value) == Utf8.Encode(Canonical(u, t, p).value) <==>
            Equivalent(u, ReadText(u, s).value, ReadText(u, t).value, "", p)
  {
    ReadTextReadable(u, s);
    ReadTextReadable(u, t);
    CanonicalBytesDetermineTree(u, s, t, p);
    SameNormal(u, ReadText(u, s).value, ReadText(u, t).value, "", p, 0);
    hide Equivalent, Accepts, Normal, ReadText, Print, Utf8.Encode;
  }
}
