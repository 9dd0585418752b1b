/**
 What composition means for the contributions as they are given, with their paths in any order:
 when it denies and with which code, what it publishes, and what the order of paths can change.
 */
module CompositionMeaning {
  import opened Wrappers
  import opened Ordering
  import opened Obligations
  import opened Composition
  import opened CompositionLaws
  import Pointer
  import Utf8

  // ----- One obligation, however its paths are ordered -----

  /** Equal in every member but for the order in which the paths are listed. */
  ghost predicate SameMeaning(a: Obligation, b: Obligation) {
    && a.schemaVersion == b.schemaVersion && a.id == b.id && a.kind == b.kind && a.limit == b.limit
    && a.destination == b.destination && a.reviewer == b.reviewer && a.checkRef == b.checkRef
    && a.extensions == b.extensions && (a.paths.Some? <==> b.paths.Some?)
    && (a.paths.Some? ==> forall x :: x in a.paths.value <==> x in b.paths.value)
  }

  ghost predicate BytesAscend(s: seq<string>) {
    forall i, j :: 0 <= i < j < |s| ==> Utf8.BytesLess(Utf8.Encode(s[i]), Utf8.Encode(s[j]))
  }

  lemma AscendInBytes(s: seq<string>)
    ensures BytesAscend(s) <==> StrictlyAscending(s)
  {
    hide Utf8.BytesLess, Utf8.Encode, Less;
    forall i, j | 0 <= i < j < |s|
      ensures Utf8.BytesLess(Utf8.Encode(s[i]), Utf8.Encode(s[j])) <==> Less(s[i], s[j])
    {
      Utf8.ByteOrderIsScalarOrder(s[i], s[j]);
    }
  }

  /** Sorting the paths yields the one obligation of this meaning whose paths ascend in their bytes. */
  lemma SortedExactly(a: Obligation, b: Obligation)
    ensures b == Sorted(a) <==> SameMeaning(a, b) && (b.paths.Some? ==> BytesAscend(b.paths.value))
  {
    if a.paths.Some? && b.paths.Some? {
      var all := set x | x in a.paths.value;
      AscendInBytes(Ascending(all));
      AscendInBytes(b.paths.value);
      if SameMeaning(a, b) && BytesAscend(b.paths.value) {
        AscendingUnique(Ascending(all), b.paths.value);
      }
    }
    hide BytesAscend, StrictlyAscending, Ascending;
  }

  lemma SortedEqual(a: Obligation, b: Obligation)
    ensures Sorted(a) == Sorted(b) <==> SameMeaning(a, b)
  {
    SortedExactly(a, Sorted(a));
    SortedExactly(b, Sorted(b));
    SortedExactly(b, Sorted(a));
    hide Sorted, BytesAscend;
  }

  // ----- When composition denies -----

  /** Two parts define one obligation id differently. */
  ghost predicate Differ(p: Contribution, q: Contribution) {
    exists i, j :: 0 <= i < |p.List()| && 0 <= j < |q.List()| &&
      p.List()[i].id == q.List()[j].id && !SameMeaning(p.List()[i], q.List()[j])
  }

  lemma ClashMeans(p: Contribution, q: Contribution)
    ensures Clash(p, q) <==> Differ(p, q)
  {
    hide Sorted, SameMeaning;
    if Clash(p, q) {
      var o, o' :| o in Carried(p) && o' in Carried(q) && o.id == o'.id && o != o';
      var i :| 0 <= i < |p.List()| && Sorted(p.List()[i]) == o;
      var j :| 0 <= j < |q.List()| && Sorted(q.List()[j]) == o';
      SortedEqual(p.List()[i], q.List()[j]);
      SortedId(p.List()[i]);
      SortedId(q.List()[j]);
    }
    if Differ(p, q) {
      var i, j :| 0 <= i < |p.List()| && 0 <= j < |q.List()| &&
        p.List()[i].id == q.List()[j].id && !SameMeaning(p.List()[i], q.List()[j]);
      SortedEqual(p.List()[i], q.List()[j]);
      SortedId(p.List()[i]);
      SortedId(q.List()[j]);
      assert Sorted(p.List()[i]) in Carried(p) && Sorted(q.List()[j]) in Carried(q);
    }
  }

  lemma SortedId(a: Obligation)
    ensures Sorted(a).id == a.id && Sorted(a).kind == a.kind
  {
  }

  /** Some part carries the obligation, with its paths as given. */
  ghost predicate Contributed(parts: set<Contribution>, o: Obligation) {
    exists p, i :: p in parts && 0 <= i < |p.List()| && p.List()[i] == o
  }

  ghost predicate Nested(a: seq<string>, b: seq<string>)
    requires ValidPaths(a) && ValidPaths(b)
  {
    exists x, y :: x in a && y in b &&
      (Pointer.Tokens(x) <= Pointer.Tokens(y) || Pointer.Tokens(y) <= Pointer.Tokens(x))
  }

  /**
   Obligations that cannot both be met: different destinations; a retained set beside another field operation
   or another set; or two field operations on nested positions, unless both remove.
   */
  ghost predicate Opposed(a: Obligation, b: Obligation)
    requires ValidObligation(a) && ValidObligation(b)
  {
    || (a.kind == b.kind == "restrict_destination" && a.destination != b.destination)
    || (a.paths.Some? && b.paths.Some? &&
        if a.kind == "retain_paths" || b.kind == "retain_paths"
        then a.kind != b.kind || exists x :: (x in a.paths.value) != (x in b.paths.value)
        else !(a.kind == b.kind == "remove_paths") && Nested(a.paths.value, b.paths.value))
  }

  /** Two contributed obligations of different ids are opposed. */
  ghost predicate SomeOpposed(parts: set<Contribution>) {
    exists a, b :: Contributed(parts, a) && Contributed(parts, b) && a.id != b.id
      && ValidObligation(a) && ValidObligation(b) && Opposed(a, b)
  }

  lemma PathsNested(a: seq<string>, b: seq<string>, c: seq<string>, d: seq<string>)
    requires ValidPaths(a) && ValidPaths(b) && ValidPaths(c) && ValidPaths(d)
    requires (forall x :: x in a <==> x in c) && (forall x :: x in b <==> x in d)
    ensures SharesPosition(c, d) <==> Nested(a, b)
  {
    hide Pointer.Tokens, Pointer.IsPointer, Distinct;
    if Nested(a, b) {
      var x, y :| x in a && y in b &&
        (Pointer.Tokens(x) <= Pointer.Tokens(y) || Pointer.Tokens(y) <= Pointer.Tokens(x));
      var i :| 0 <= i < |c| && c[i] == x;
      var j :| 0 <= j < |d| && d[j] == y;
    }
    if SharesPosition(c, d) {
      var i, j :| 0 <= i < |c| && 0 <= j < |d| &&
        (Pointer.Tokens(c[i]) <= Pointer.Tokens(d[j]) || Pointer.Tokens(d[j]) <= Pointer.Tokens(c[i]));
      assert c[i] in a && d[j] in b;
    }
  }

  lemma ConflictMeans(a: Obligation, b: Obligation)
    requires ValidObligation(a) && ValidObligation(b)
    ensures Grounded(Sorted(a)) && Grounded(Sorted(b))
    ensures Conflict(Sorted(a), Sorted(b)) <==> Opposed(a, b)
  {
    SortedValid(a);
    SortedValid(b);
    SortedExactly(a, Sorted(a));
    SortedExactly(b, Sorted(b));
    ConflictMeaning(Sorted(a), Sorted(b));
    if a.paths.Some? && b.paths.Some? {
      var p, q := a.paths.value, b.paths.value;
      PathsNested(p, q, Sorted(a).paths.value, Sorted(b).paths.value);
      SameSets(p, q);
    }
    hide Nested, SharesPosition, Pointer.IsPointer, Ascending, BytesAscend, Conflict;
  }

  lemma SameSets(p: seq<string>, q: seq<string>)
    ensures Ascending(set x | x in p) == Ascending(set x | x in q) <==> forall x :: x in p <==> x in q
  {
    var a, b := set x | x in p, set x | x in q;
    hide Ascending;
    if a == b {
      assert forall x :: x in p <==> x in a;
    }
    if Ascending(a) == Ascending(b) {
      assert forall x :: x in p <==> x in Ascending(a);
    }
    if forall x :: x in p <==> x in q {
      assert a == b;
    }
  }

  /** What the schema admits as an obligation, form by form: each kind with the one member it carries. */
  lemma ObligationForms(o: Obligation)
    ensures ValidObligation(o) <==>
      o.id != "" &&
      match o {
        case Obligation(_, _, kind, Some(paths), None, None, None, None, _) =>
          kind in {"remove_paths", "retain_paths", "tokenize", "mask"} && paths != []
          && (forall x :: x in paths ==> Pointer.IsPointer(x)) && multiset(paths) == multiset(set x | x in paths)
        case Obligation(_, _, kind, None, Some(limit), None, None, None, _) =>
          kind in {"cap_records", "cap_bytes"} && 0 <= limit <= 9007199254740991
        case Obligation(_, _, kind, None, None, Some(_), None, None, _) => kind == "restrict_destination"
        case Obligation(_, _, kind, None, None, None, Some(_), None, _) => kind == "require_approval"
        case Obligation(_, _, kind, None, None, None, None, Some(_), _) => kind == "response_check"
        case Obligation(_, _, kind, None, None, None, None, None, _) =>
          kind in {"require_confirmation", "prohibit_retention"}
        case _ => false
      }
  {
    if o.paths.Some? { DistinctOnce(o.paths.value); }
  }

  lemma DistinctOnce(s: seq<string>)
    ensures Distinct(s) <==> multiset(s) == multiset(set x | x in s)
  {
    if Distinct(s) {
      forall x
        ensures multiset(s)[x] == multiset(set y | y in s)[x]
      {
        if multiset(s)[x] > 1 { TwoPositions(s, x); }
        assert x in s <==> x in multiset(s);
      }
    } else {
      var i, j :| 0 <= i < j < |s| && s[i] == s[j];
      CountAtLeastTwo(s, i, j);
      assert multiset(set x | x in s)[s[i]] <= 1;
    }
  }

  /** What the schema admits as a contribution, outcome by outcome. */
  lemma UsableForms(c: Codec, p: Contribution)
    ensures !Unusable(c, p) <==>
      && p.layer in {"baseline", "organization", "tenant", "application", "local_override"} && p.ruleId != ""
      && c.otherClauses(p) && p.reasons != [] && multiset(p.reasons) == multiset(set x | x in p.reasons)
      && p.obligations.Some? && (forall o :: o in p.obligations.value ==> ValidObligation(o))
      && var kinds := set o | o in p.obligations.value :: o.kind;
         || (p.outcome == "deny" && p.obligations.value == [])
         || (p.outcome == "require_approval" && "require_approval" in kinds)
         || (p.outcome == "transform" && "require_approval" !in kinds &&
             kinds * {"remove_paths", "retain_paths", "tokenize", "mask", "cap_records", "cap_bytes"} != {})
         || (p.outcome == "allow" &&
             kinds <= {"restrict_destination", "require_confirmation", "prohibit_retention", "response_check"})
  {
    DistinctOnce(p.reasons);
    hide ValidObligation, Distinct, IsTransformKind, IsAllowKind;
    if p.obligations.Some? {
      KindsOf(p.obligations.value);
    }
  }

  lemma KindsOf(list: seq<Obligation>)
    ensures var kinds := set o | o in list :: o.kind;
            && (HasKind(list, "require_approval") <==> "require_approval" in kinds)
            && ((exists i :: 0 <= i < |list| && IsTransformKind(list[i].kind)) <==>
                  kinds * {"remove_paths", "retain_paths", "tokenize", "mask", "cap_records", "cap_bytes"} != {})
            && ((forall i :: 0 <= i < |list| ==> IsAllowKind(list[i].kind)) <==>
                  kinds <= {"restrict_destination", "require_confirmation", "prohibit_retention", "response_check"})
    ensures (forall o :: o in list ==> ValidObligation(o)) <==>
            forall i :: 0 <= i < |list| ==> ValidObligation(list[i])
    ensures list == [] ==> !HasKind(list, "require_approval")
  {
    hide ValidObligation, IsTransformKind, IsAllowKind, HasKind;
    var kinds := set o | o in list :: o.kind;
    assert forall i :: 0 <= i < |list| ==> list[i] in list && list[i].kind in kinds;
    ApprovalKinds(list, kinds);
    TransformKinds(list, kinds);
    AllowKinds(list, kinds);
  }

  lemma ApprovalKinds(list: seq<Obligation>, kinds: set<string>)
    requires kinds == set o | o in list :: o.kind
    ensures HasKind(list, "require_approval") <==> "require_approval" in kinds
    ensures list == [] ==> !HasKind(list, "require_approval")
  {
  }

  lemma TransformKinds(list: seq<Obligation>, kinds: set<string>)
    requires kinds == set o | o in list :: o.kind
    ensures (exists i :: 0 <= i < |list| && IsTransformKind(list[i].kind)) <==>
            kinds * {"remove_paths", "retain_paths", "tokenize", "mask", "cap_records", "cap_bytes"} != {}
  {
    var transforms := {"remove_paths", "retain_paths", "tokenize", "mask", "cap_records", "cap_bytes"};
    assert forall k :: IsTransformKind(k) <==> k in transforms;
    hide IsTransformKind;
    if k :| k in kinds * transforms {
      var i :| 0 <= i < |list| && list[i].kind == k;
    }
    if i :| 0 <= i < |list| && IsTransformKind(list[i].kind) {
      assert list[i].kind in kinds * transforms;
    }
  }

  lemma AllowKinds(list: seq<Obligation>, kinds: set<string>)
    requires kinds == set o | o in list :: o.kind
    ensures (forall i :: 0 <= i < |list| ==> IsAllowKind(list[i].kind)) <==>
            kinds <= {"restrict_destination", "require_confirmation", "prohibit_retention", "response_check"}
  {
    var allowed := {"restrict_destination", "require_confirmation", "prohibit_retention", "response_check"};
    assert forall k :: IsAllowKind(k) <==> k in allowed;
    hide IsAllowKind;
    assert forall i :: 0 <= i < |list| ==> list[i].kind in kinds;
  }

  /** A part that composition cannot use. */
  ghost predicate Unusable(c: Codec, p: Contribution) {
    p.outcome == "" || !ValidPart(c, p)
  }

  /**
   The reasons to deny, on the contributions as given: none at all; an unusable one or a deny; one obligation id
   with two meanings; two obligations of different ids that are opposed.
   */
  ghost predicate Denied(c: Codec, parts: set<Contribution>) {
    || parts == {}
    || (exists p :: p in parts && (Unusable(c, p) || p.outcome == "deny"))
    || (exists p, q :: p in parts && q in parts && Differ(p, q))
    || SomeOpposed(parts)
  }

  lemma UsableValid(c: Codec, parts: set<Contribution>, a: Obligation)
    requires Contributed(parts, a) && forall p :: p in parts ==> !Unusable(c, p)
    ensures ValidObligation(a)
  {
    var p, i :| p in parts && 0 <= i < |p.List()| && p.List()[i] == a;
    assert ValidPart(c, p);
  }

  lemma MergedMeans(parts: set<Contribution>, o: Obligation)
    ensures o in Merged(parts) <==> exists a :: Contributed(parts, a) && o == Sorted(a)
  {
    hide Sorted;
    if o in Merged(parts) {
      var p :| p in parts && o in Carried(p);
      var i :| 0 <= i < |p.List()| && Sorted(p.List()[i]) == o;
      assert Contributed(parts, p.List()[i]);
    }
    if a :| Contributed(parts, a) && o == Sorted(a) {
      var p, i :| p in parts && 0 <= i < |p.List()| && p.List()[i] == a;
      assert o in Carried(p);
    }
  }

  lemma WithinMeans(c: Codec, parts: set<Contribution>)
    requires forall p :: p in parts ==> !Unusable(c, p)
    ensures ConflictWithin(Merged(parts)) <==> SomeOpposed(parts)
  {
    hide Merged, Sorted, Conflict, Opposed, ValidObligation, Unusable, Contributed, Grounded;
    if ConflictWithin(Merged(parts)) {
      var o, o' :| o in Merged(parts) && o' in Merged(parts) && o.id != o'.id
                   && Grounded(o) && Grounded(o') && Conflict(o, o');
      MergedMeans(parts, o);
      MergedMeans(parts, o');
      var a :| Contributed(parts, a) && o == Sorted(a);
      var b :| Contributed(parts, b) && o' == Sorted(b);
      UsableValid(c, parts, a);
      UsableValid(c, parts, b);
      SortedId(a);
      SortedId(b);
      ConflictMeans(a, b);
    }
    if a, b :| Contributed(parts, a) && Contributed(parts, b) && a.id != b.id
               && ValidObligation(a) && ValidObligation(b) && Opposed(a, b) {
      MergedMeans(parts, Sorted(a));
      MergedMeans(parts, Sorted(b));
      SortedId(a);
      SortedId(b);
      ConflictMeans(a, b);
    }
  }

  /** The outcome is deny exactly when one of the reasons to deny is present in what was contributed. */
  lemma DeniesAsGiven(c: Codec, parts: set<Contribution>, r: Decision)
    requires c.Separates(parts) && Decides(c, parts, r)
    ensures r.outcome == "deny" <==> Denied(c, parts)
  {
    DeniesExactly(c, parts, r);
    SomeClashMeans(parts);
    hide Clash, Differ, Decides, ValidPart, ConflictWithin, SomeOpposed;
    if forall p :: p in parts ==> !Unusable(c, p) {
      WithinMeans(c, parts);
    }
  }

  lemma SomeClashMeans(parts: set<Contribution>)
    ensures SomeClash(parts) <==> exists p, q :: p in parts && q in parts && Differ(p, q)
  {
    forall p, q | p in parts && q in parts
      ensures Clash(p, q) <==> Differ(p, q)
    {
      ClashMeans(p, q);
    }
    hide Clash, Differ;
  }

  // ----- What composition decides -----

  /** Composition ends at p: it is unusable, or a part up to it, in the order of their JSON texts, differs from it. */
  ghost predicate Stops(c: Codec, parts: set<Contribution>, p: Contribution) {
    p in parts &&
    (Unusable(c, p) ||
     exists q :: q in parts && (q == p || Less(c.marshal(q), c.marshal(p))) && Differ(p, q))
  }

  ghost predicate FirstStop(c: Codec, parts: set<Contribution>, p: Contribution) {
    Stops(c, parts, p) && forall q :: Stops(c, parts, q) ==> q == p || Less(c.marshal(p), c.marshal(q))
  }

  ghost predicate IsDenial(r: Decision, code: string) {
    r.outcome == "deny" && r.reasons == [code] && r.obligations == []
  }

  /** The strictest outcome among the parts, and all their reasons and obligations, each in the order of its bytes. */
  ghost predicate Publishes(parts: set<Contribution>, r: Decision) {
    && (r.outcome == "deny" <==> exists p :: p in parts && p.outcome == "deny")
    && (r.outcome == "require_approval" <==>
          r.outcome != "deny" && exists p :: p in parts && p.outcome == "require_approval")
    && (r.outcome == "transform" <==>
          r.outcome !in {"deny", "require_approval"} && exists p :: p in parts && p.outcome == "transform")
    && r.outcome in {"deny", "require_approval", "transform", "allow"}
    && BytesAscend(r.reasons) && (forall x :: x in r.reasons <==> exists p :: p in parts && x in p.reasons)
    && if r.outcome == "deny" then r.obligations == [] else Lists(parts, r.obligations)
  }

  /** Every contributed obligation once, by ascending id, with its paths in ascending order. */
  ghost predicate Lists(parts: set<Contribution>, list: seq<Obligation>) {
    && (forall i, j :: 0 <= i < j < |list| ==> Utf8.BytesLess(Utf8.Encode(list[i].id), Utf8.Encode(list[j].id)))
    && (forall o :: o in list ==>
          && (o.paths.Some? ==> BytesAscend(o.paths.value))
          && exists a :: Contributed(parts, a) && SameMeaning(a, o))
    && (forall a :: Contributed(parts, a) ==> exists o :: o in list && SameMeaning(a, o))
  }

  /** The reason for ending at p. */
  ghost function CodeOf(c: Codec, p: Contribution): string {
    if p.outcome == "" then "ng.policy.no_decision"
    else if !ValidPart(c, p) then "ng.policy.invalid_decision"
    else "ng.policy.obligation_conflict"
  }

  /** The decision on what was contributed. */
  ghost predicate Decided(c: Codec, parts: set<Contribution>, r: Decision) {
    if parts == {} then IsDenial(r, "ng.policy.no_decision")
    else if exists p :: Stops(c, parts, p) then
      exists p :: FirstStop(c, parts, p) && IsDenial(r, CodeOf(c, p))
    else if SomeOpposed(parts) then IsDenial(r, "ng.policy.obligation_conflict")
    else Publishes(parts, r)
  }

  lemma StopsMeans(c: Codec, parts: set<Contribution>)
    ensures forall p :: Failing(c, parts, p) <==> Stops(c, parts, p)
    ensures forall p :: IsFirstFailing(c, parts, p) <==> FirstStop(c, parts, p)
  {
    forall p, q
      ensures Clash(p, q) <==> Differ(p, q)
    {
      ClashMeans(p, q);
    }
    hide Clash, Differ, ValidPart, Less;
    assert forall p :: Failing(c, parts, p) <==> Stops(c, parts, p);
  }

  lemma IdsAscend(list: seq<Obligation>)
    ensures (forall i, j :: 0 <= i < j < |list| ==> Less(list[i].id, list[j].id)) <==>
            (forall i, j :: 0 <= i < j < |list| ==> Utf8.BytesLess(Utf8.Encode(list[i].id), Utf8.Encode(list[j].id)))
  {
    hide Utf8.BytesLess, Utf8.Encode, Less;
    forall i, j | 0 <= i < j < |list|
      ensures Less(list[i].id, list[j].id) <==> Utf8.BytesLess(Utf8.Encode(list[i].id), Utf8.Encode(list[j].id))
    {
      Utf8.ByteOrderIsScalarOrder(list[i].id, list[j].id);
    }
  }

  lemma ListsMeans(parts: set<Contribution>, list: seq<Obligation>)
    ensures IsMergedList(parts, list) <==> Lists(parts, list)
  {
    hide *;
    if IsMergedList(parts, list) { MergedLists(parts, list); }
    if Lists(parts, list) { ListsMerged(parts, list); }
  }

  lemma MergedLists(parts: set<Contribution>, list: seq<Obligation>)
    requires IsMergedList(parts, list)
    ensures Lists(parts, list)
  {
    IdsAscend(list);
    hide Utf8.BytesLess, Utf8.Encode, Less, Sorted, SameMeaning, BytesAscend, Merged, Contributed;
    forall o | o in list
      ensures (o.paths.Some? ==> BytesAscend(o.paths.value)) && exists a :: Contributed(parts, a) && SameMeaning(a, o)
    {
      MergedMeans(parts, o);
      var a :| Contributed(parts, a) && o == Sorted(a);
      SortedExactly(a, o);
    }
    forall a | Contributed(parts, a)
      ensures exists o :: o in list && SameMeaning(a, o)
    {
      MergedMeans(parts, Sorted(a));
      SortedExactly(a, Sorted(a));
      assert Sorted(a) in list;
    }
  }

  lemma SourceOf(parts: set<Contribution>, list: seq<Obligation>, o: Obligation)
    requires Lists(parts, list) && o in list
    ensures o in Merged(parts)
  {
    var a :| Contributed(parts, a) && SameMeaning(a, o);
    assert o.paths.Some? ==> BytesAscend(o.paths.value);
    hide *;
    SortedExactly(a, o);
    MergedMeans(parts, o);
  }

  lemma ListedFor(parts: set<Contribution>, list: seq<Obligation>, a: Obligation)
    requires Lists(parts, list) && Contributed(parts, a)
    ensures Sorted(a) in list
  {
    var x :| x in list && SameMeaning(a, x);
    assert x.paths.Some? ==> BytesAscend(x.paths.value);
    hide *;
    SortedExactly(a, x);
  }

  lemma ListIds(parts: set<Contribution>, list: seq<Obligation>)
    requires Lists(parts, list)
    ensures forall i, j :: 0 <= i < j < |list| ==> Less(list[i].id, list[j].id)
  {
    IdsAscend(list);
    hide Less, Utf8.Encode, Utf8.BytesLess, Contributed, SameMeaning, BytesAscend;
  }

  lemma ListedExactly(parts: set<Contribution>, list: seq<Obligation>, o: Obligation)
    requires Lists(parts, list)
    ensures o in list <==> o in Merged(parts)
  {
    hide *;
    if o in list { SourceOf(parts, list, o); }
    if o in Merged(parts) {
      MergedMeans(parts, o);
      var a :| Contributed(parts, a) && o == Sorted(a);
      ListedFor(parts, list, a);
    }
  }

  lemma ListsMerged(parts: set<Contribution>, list: seq<Obligation>)
    requires Lists(parts, list)
    ensures IsMergedList(parts, list)
  {
    hide Less, Merged, Lists;
    ListIds(parts, list);
    forall o
      ensures o in list <==> o in Merged(parts)
    {
      ListedExactly(parts, list, o);
    }
  }

  lemma ReasonsMean(parts: set<Contribution>, reasons: seq<string>)
    ensures reasons == Ascending(ReasonSet(parts)) <==>
            BytesAscend(reasons) && forall x :: x in reasons <==> exists p :: p in parts && x in p.reasons
  {
    var all := Ascending(ReasonSet(parts));
    assert forall x :: x in all <==> exists p :: p in parts && x in p.reasons;
    AscendInBytes(all);
    AscendInBytes(reasons);
    hide BytesAscend, Ascending, StrictlyAscending;
    if BytesAscend(reasons) && forall x :: x in reasons <==> exists p :: p in parts && x in p.reasons {
      AscendingUnique(reasons, all);
    }
  }

  /** A combination without a conflict publishes what was contributed. */
  lemma CombinedMeans(parts: set<Contribution>, list: seq<Obligation>, r: Decision)
    requires IsMergedList(parts, list) && r == Combined(parts, list) && !PairConflicts(list)
    ensures Publishes(parts, r)
  {
    ReasonsMean(parts, r.reasons);
    ListsMeans(parts, list);
    hide IsMergedList, PairConflicts, Lists, ReasonSet, BytesAscend, Ascending;
  }

  /** Every decision is the one decided on what was contributed. */
  lemma DecidesAsGiven(c: Codec, parts: set<Contribution>, r: Decision)
    requires c.Separates(parts) && Decides(c, parts, r)
    ensures Decided(c, parts, r)
  {
    StopsMeans(c, parts);
    hide *;
    if parts == {} {
      NothingGiven(c, r);
    } else if Fails(c, parts) {
      StopDecides(c, parts, r);
    } else {
      MergeDecides(c, parts, r);
    }
  }

  lemma NothingGiven(c: Codec, r: Decision)
    requires Decides(c, {}, r)
    ensures Decided(c, {}, r)
  {
    Codes();
    hide Stops, SomeOpposed, Publishes;
  }

  lemma Codes()
    ensures "ng.policy." + "no_decision" == "ng.policy.no_decision"
    ensures "ng.policy." + "invalid_decision" == "ng.policy.invalid_decision"
    ensures "ng.policy." + "obligation_conflict" == "ng.policy.obligation_conflict"
  {
  }

  lemma StopDecides(c: Codec, parts: set<Contribution>, r: Decision)
    requires parts != {} && Fails(c, parts) && Decides(c, parts, r)
    requires forall p :: IsFirstFailing(c, parts, p) <==> FirstStop(c, parts, p)
    ensures Decided(c, parts, r)
  {
    Codes();
    hide Failing, Stops, ValidPart, SomeOpposed, Publishes;
    var p :| IsFirstFailing(c, parts, p) && r == Deny(FailureCode(c, p));
    assert FirstStop(c, parts, p);
    assert Stops(c, parts, p);
  }

  lemma MergeDecides(c: Codec, parts: set<Contribution>, r: Decision)
    requires parts != {} && !Fails(c, parts) && Decides(c, parts, r)
    requires forall p :: Failing(c, parts, p) <==> Stops(c, parts, p)
    ensures Decided(c, parts, r)
  {
    NoneUnusable(c, parts);
    assert !exists p :: Stops(c, parts, p);
    WithinMeans(c, parts);
    var list :| IsMergedList(parts, list) && r == Combined(parts, list);
    hide *;
    ListConflicts(parts, list);
    if PairConflicts(list) {
      OpposedDenial(c, parts, list, r);
    } else {
      CombinedMeans(parts, list, r);
      PublishedDecides(c, parts, r);
    }
  }

  lemma OpposedDenial(c: Codec, parts: set<Contribution>, list: seq<Obligation>, r: Decision)
    requires parts != {} && (!exists p :: Stops(c, parts, p)) && SomeOpposed(parts)
    requires PairConflicts(list) && r == Combined(parts, list)
    ensures Decided(c, parts, r)
  {
    Codes();
    hide Stops, SomeOpposed, Publishes, PairConflicts;
  }

  lemma PublishedDecides(c: Codec, parts: set<Contribution>, r: Decision)
    requires parts != {} && (!exists p :: Stops(c, parts, p)) && !SomeOpposed(parts) && Publishes(parts, r)
    ensures Decided(c, parts, r)
  {
    hide Stops, SomeOpposed, Publishes;
  }

  lemma NoneUnusable(c: Codec, parts: set<Contribution>)
    requires !Fails(c, parts)
    ensures forall p :: p in parts ==> !Unusable(c, p)
  {
    forall p | p in parts
      ensures !Unusable(c, p)
    {
      assert !Failing(c, parts, p);
    }
  }

  /** What was contributed admits one decision. */
  lemma DecidedOnce(c: Codec, parts: set<Contribution>, r: Decision, s: Decision)
    requires c.Separates(parts) && Decided(c, parts, r) && Decided(c, parts, s)
    ensures r == s
  {
    hide Stops, SomeOpposed, Publishes, ValidPart, Less;
    if parts == {} {
    } else if exists p :: Stops(c, parts, p) {
      var p :| FirstStop(c, parts, p) && IsDenial(r, CodeOf(c, p));
      var q :| FirstStop(c, parts, q) && IsDenial(s, CodeOf(c, q));
      if p != q { LessAsymmetric(c.marshal(p), c.marshal(q)); }
    } else if !SomeOpposed(parts) {
      PublishedOnce(parts, r, s);
    }
  }

  lemma PublishedOnce(parts: set<Contribution>, r: Decision, s: Decision)
    requires Publishes(parts, r) && Publishes(parts, s)
    ensures r == s
  {
    ReasonsMean(parts, r.reasons);
    ReasonsMean(parts, s.reasons);
    hide BytesAscend, Ascending, ReasonSet, Lists;
    if r.outcome != "deny" {
      ListsMeans(parts, r.obligations);
      ListsMeans(parts, s.obligations);
      MergedListUnique(parts, r.obligations, s.obligations);
    }
    hide IsMergedList;
  }

  // ----- What the order of paths can change -----

  ghost predicate Reordered(a: Obligation, b: Obligation) {
    SameMeaning(a, b) && (a.paths.Some? && b.paths.Some? ==> multiset(a.paths.value) == multiset(b.paths.value))
  }

  /** One part, but for the order of the paths in its obligations. */
  ghost predicate SamePart(c: Codec, p: Contribution, q: Contribution) {
    && p.layer == q.layer && p.ruleId == q.ruleId && p.outcome == q.outcome && p.reasons == q.reasons
    && (p.obligations.Some? <==> q.obligations.Some?) && |p.List()| == |q.List()|
    && (forall k :: 0 <= k < |p.List()| ==> Reordered(p.List()[k], q.List()[k]))
    && c.otherClauses(p) == c.otherClauses(q)
  }

  ghost predicate Within(c: Codec, parts: set<Contribution>, more: set<Contribution>) {
    forall p :: p in parts ==> exists q :: q in more && SamePart(c, p, q)
  }

  /** The same parts, but for the order of paths. */
  ghost predicate Respelled(c: Codec, parts: set<Contribution>, more: set<Contribution>) {
    Within(c, parts, more) && Within(c, more, parts)
  }

  lemma DistinctReordered(a: seq<string>, b: seq<string>)
    requires multiset(a) == multiset(b) && Distinct(a)
    ensures Distinct(b)
  {
    forall i, j | 0 <= i < j < |b|
      ensures b[i] != b[j]
    {
      if b[i] == b[j] {
        CountAtLeastTwo(b, i, j);
        TwoPositions(a, b[i]);
      }
    }
  }

  lemma PathsReordered(a: seq<string>, b: seq<string>)
    requires multiset(a) == multiset(b) && ValidPaths(a)
    ensures ValidPaths(b)
  {
    DistinctReordered(a, b);
    SameElements(a, b);
    assert a[0] in b;
    forall i | 0 <= i < |b|
      ensures Pointer.IsPointer(b[i])
    {
      assert b[i] in a;
    }
  }

  lemma ObligationReordered(a: Obligation, b: Obligation)
    requires Reordered(a, b)
    ensures ValidObligation(a) <==> ValidObligation(b)
  {
    if a.paths.Some? {
      if ValidPaths(a.paths.value) { PathsReordered(a.paths.value, b.paths.value); }
      if ValidPaths(b.paths.value) { PathsReordered(b.paths.value, a.paths.value); }
    }
    hide ValidPaths;
  }

  lemma SameUse(c: Codec, p: Contribution, q: Contribution)
    requires SamePart(c, p, q)
    ensures Unusable(c, p) <==> Unusable(c, q)
  {
    forall k | 0 <= k < |p.List()|
      ensures ValidObligation(p.List()[k]) <==> ValidObligation(q.List()[k])
      ensures p.List()[k].kind == q.List()[k].kind
    {
      ObligationReordered(p.List()[k], q.List()[k]);
    }
    hide ValidObligation, Reordered;
  }

  lemma CarriedInto(c: Codec, parts: set<Contribution>, more: set<Contribution>, o: Obligation)
    requires o in Merged(parts) && Within(c, parts, more)
    ensures o in Merged(more)
  {
    var p :| p in parts && o in Carried(p);
    var q :| q in more && SamePart(c, p, q);
    var i :| 0 <= i < |p.List()| && Sorted(p.List()[i]) == o;
    assert Reordered(p.List()[i], q.List()[i]);
    hide Sorted;
    SortedEqual(p.List()[i], q.List()[i]);
    assert o in Carried(q);
  }

  lemma SameOutcomes(c: Codec, parts: set<Contribution>, more: set<Contribution>)
    requires Within(c, parts, more)
    ensures forall outcome :: AnyOutcome(parts, outcome) ==> AnyOutcome(more, outcome)
    ensures ReasonSet(parts) <= ReasonSet(more) && (parts != {} ==> more != {})
    ensures (exists p :: p in parts && Unusable(c, p)) ==> exists q :: q in more && Unusable(c, q)
  {
    forall p | p in parts
      ensures exists q :: q in more && q.outcome == p.outcome && q.reasons == p.reasons &&
                          (Unusable(c, p) <==> Unusable(c, q))
    {
      var q :| q in more && SamePart(c, p, q);
      SameUse(c, p, q);
    }
    hide SamePart, Unusable;
  }

  /** An obligation id with two definitions shows in what is merged. */
  lemma ClashShows(parts: set<Contribution>)
    ensures SomeClash(parts) <==> exists o, o' :: o in Merged(parts) && o' in Merged(parts) && o.id == o'.id && o != o'
  {
    hide CarriedUpTo;
  }

  lemma MergedInto(c: Codec, parts: set<Contribution>, more: set<Contribution>)
    requires Within(c, parts, more)
    ensures Merged(parts) <= Merged(more)
  {
    hide *;
    forall o | o in Merged(parts)
      ensures o in Merged(more)
    {
      CarriedInto(c, parts, more, o);
    }
  }

  lemma SameClash(parts: set<Contribution>, more: set<Contribution>)
    requires Merged(parts) == Merged(more)
    ensures SomeClash(parts) <==> SomeClash(more)
  {
    hide *;
    ClashShows(parts);
    ClashShows(more);
  }

  lemma SameMerge(c: Codec, parts: set<Contribution>, more: set<Contribution>)
    requires Respelled(c, parts, more)
    ensures Merged(parts) == Merged(more) && ReasonSet(parts) == ReasonSet(more)
    ensures MergedOutcome(parts) == MergedOutcome(more) && (SomeClash(parts) <==> SomeClash(more))
    ensures (exists p :: p in parts && Unusable(c, p)) <==> exists q :: q in more && Unusable(c, q)
    ensures forall outcome :: AnyOutcome(parts, outcome) <==> AnyOutcome(more, outcome)
    ensures parts == {} <==> more == {}
  {
    hide SamePart, Merged, ReasonSet, AnyOutcome, Unusable, SomeClash, Within;
    SameOutcomes(c, parts, more);
    SameOutcomes(c, more, parts);
    MergedInto(c, parts, more);
    MergedInto(c, more, parts);
    SameClash(parts, more);
  }

  lemma SameDenial(c: Codec, parts: set<Contribution>, more: set<Contribution>)
    requires Respelled(c, parts, more)
    ensures MustDeny(c, parts) <==> MustDeny(c, more)
  {
    hide Respelled, Merged, AnyOutcome, SomeClash, ConflictWithin, ValidPart;
    SameMerge(c, parts, more);
    assert SomeUnusable(c, parts) <==> exists p :: p in parts && Unusable(c, p);
    assert SomeUnusable(c, more) <==> exists p :: p in more && Unusable(c, p);
  }

  /** What is decided when every part can be used. */
  lemma UsableDecision(c: Codec, parts: set<Contribution>, r: Decision)
    requires c.Separates(parts) && Decides(c, parts, r) && parts != {} && forall p :: p in parts ==> !Unusable(c, p)
    ensures if SomeClash(parts) || ConflictWithin(Merged(parts)) then r == Deny("obligation_conflict")
            else r.outcome == MergedOutcome(parts) && r.reasons == Ascending(ReasonSet(parts)) &&
                 if r.outcome == "deny" then r.obligations == [] else IsMergedList(parts, r.obligations)
  {
    FailsExactly(c, parts);
    hide Less, Conflict, Grounded, ValidPart, Clash, Merged, ConflictWithin, IsMergedList, PairConflicts, MergedOutcome;
    if Fails(c, parts) {
      var p :| IsFirstFailing(c, parts, p) && r == Deny(FailureCode(c, p));
      assert p in parts && !Unusable(c, p);
    } else {
      var list :| IsMergedList(parts, list) && r == Combined(parts, list);
      ListConflicts(parts, list);
    }
  }

  /**
   The order of paths changes neither the outcome nor the obligations of a decision, and if every part can be
   used it changes nothing.
   */
  lemma ReorderingKeeps(c: Codec, parts: set<Contribution>, more: set<Contribution>, r: Decision, s: Decision)
    requires c.Separates(parts) && c.Separates(more) && Respelled(c, parts, more)
    requires Decides(c, parts, r) && Decides(c, more, s)
    ensures r.outcome == s.outcome && r.obligations == s.obligations
    ensures (forall p :: p in parts ==> !Unusable(c, p)) ==> r == s
  {
    hide *;
    SameDenial(c, parts, more);
    if MustDeny(c, parts) {
      DenialConforms(c, parts, r);
      DenialConforms(c, more, s);
    } else {
      SameDecision(c, parts, more, r, s);
    }
    if forall p :: p in parts ==> !Unusable(c, p) { SameUsable(c, parts, more, r, s); }
  }

  lemma SameDecision(c: Codec, parts: set<Contribution>, more: set<Contribution>, r: Decision, s: Decision)
    requires c.Separates(parts) && c.Separates(more) && Respelled(c, parts, more)
    requires Decides(c, parts, r) && Decides(c, more, s) && !MustDeny(c, parts) && !MustDeny(c, more)
    ensures r == s
  {
    hide *;
    SameMerge(c, parts, more);
    MergesUnlessDenied(c, parts, r);
    MergesUnlessDenied(c, more, s);
    SameList(parts, more, r.obligations, s.obligations);
  }

  lemma SameUsable(c: Codec, parts: set<Contribution>, more: set<Contribution>, r: Decision, s: Decision)
    requires c.Separates(parts) && c.Separates(more) && Respelled(c, parts, more)
    requires Decides(c, parts, r) && Decides(c, more, s) && forall p :: p in parts ==> !Unusable(c, p)
    ensures r == s
  {
    hide *;
    SameMerge(c, parts, more);
    if parts == {} {
      DecisionUnique(c, parts, r, s);
    } else {
      UsableDecision(c, parts, r);
      UsableDecision(c, more, s);
      if IsMergedList(parts, r.obligations) && IsMergedList(more, s.obligations) {
        SameList(parts, more, r.obligations, s.obligations);
      }
    }
  }

  lemma SameList(parts: set<Contribution>, more: set<Contribution>, a: seq<Obligation>, b: seq<Obligation>)
    requires Merged(parts) == Merged(more) && IsMergedList(parts, a) && IsMergedList(more, b)
    ensures a == b
  {
    hide Merged;
    assert IsMergedList(parts, b);
    MergedListUnique(parts, a, b);
  }

  /** With a part that cannot be used, the decisions are equal exactly when both end for the same reason. */
  lemma ReorderingExactly(c: Codec, parts: set<Contribution>, more: set<Contribution>, r: Decision, s: Decision)
    requires c.Separates(parts) && c.Separates(more) && Respelled(c, parts, more)
    requires Decides(c, parts, r) && Decides(c, more, s) && exists p :: p in parts && Unusable(c, p)
    ensures r == s <==>
            exists p, q :: FirstStop(c, parts, p) && FirstStop(c, more, q) && CodeOf(c, p) == CodeOf(c, q)
  {
    hide *;
    SameMerge(c, parts, more);
    var p := StopReason(c, parts, r);
    var q := StopReason(c, more, s);
    SameReason(r, s, CodeOf(c, p), CodeOf(c, q));
    if a, b :| FirstStop(c, parts, a) && FirstStop(c, more, b) && CodeOf(c, a) == CodeOf(c, b) {
      OneFirst(c, parts, a, p);
      OneFirst(c, more, b, q);
    }
  }

  lemma SameReason(r: Decision, s: Decision, a: string, b: string)
    requires IsDenial(r, a) && IsDenial(s, b)
    ensures r == s <==> a == b
  {
    assert [a][0] == a && [b][0] == b;
  }

  /** With a part that cannot be used, composition ends at the first stop and says why. */
  lemma StopReason(c: Codec, parts: set<Contribution>, r: Decision) returns (p: Contribution)
    requires c.Separates(parts) && Decides(c, parts, r) && exists x :: x in parts && Unusable(c, x)
    ensures FirstStop(c, parts, p) && IsDenial(r, CodeOf(c, p))
  {
    DecidesAsGiven(c, parts, r);
    hide Decides, Unusable, CodeOf, Differ, Less, SomeOpposed, Publishes, Codec.Separates, FirstStop, IsDenial;
    var x :| x in parts && Unusable(c, x);
    assert Stops(c, parts, x);
    p :| FirstStop(c, parts, p) && IsDenial(r, CodeOf(c, p));
  }

  lemma OneFirst(c: Codec, parts: set<Contribution>, p: Contribution, q: Contribution)
    requires FirstStop(c, parts, p) && FirstStop(c, parts, q)
    ensures p == q
  {
    hide Stops, Less;
    if p != q { LessAsymmetric(c.marshal(p), c.marshal(q)); }
  }

  function Removing(id: string, paths: seq<string>): Obligation {
    Obligation("1.0", id, "remove_paths", Some(paths), None, None, None, None, None)
  }

  function Transforming(layer: string, list: seq<Obligation>): Contribution {
    Contribution(layer, "rule", "transform", ["ng.policy.removed"], Some(list))
  }

  function Baseline(): Contribution {
    Transforming("baseline", [Removing("ob", ["/z"])])
  }

  function Tenant(): Contribution {
    Transforming("tenant", [Removing("ob", ["/a", "/c"])])
  }

  function Broken(): Contribution {
    Transforming("tenant", [Removing("ob", ["/a", "/b"]), Removing("", ["/x"])])
  }

  function Turned(): Contribution {
    Transforming("tenant", [Removing("ob", ["/b", "/a"]), Removing("", ["/x"])])
  }

  lemma PartsAre(c: Codec)
    requires c.otherClauses(Baseline()) && c.otherClauses(Tenant())
    ensures !Unusable(c, Baseline()) && !Unusable(c, Tenant()) && Unusable(c, Broken()) && Unusable(c, Turned())
    ensures !Differ(Baseline(), Baseline()) && Differ(Tenant(), Baseline())
    ensures CodeOf(c, Broken()) == "ng.policy.invalid_decision"
    ensures CodeOf(c, Tenant()) == "ng.policy.obligation_conflict"
  {
    hide Pointer.IsPointer;
    PlainPaths();
    assert Broken().List()[1].id == "" && Turned().List()[1].id == "";
    assert !ValidObligation(Broken().List()[1]) && !ValidObligation(Turned().List()[1]);
    assert "/z" in Baseline().List()[0].paths.value && "/z" !in Tenant().List()[0].paths.value;
    assert !SameMeaning(Tenant().List()[0], Baseline().List()[0]);
  }

  lemma PlainPaths()
    ensures Pointer.IsPointer("/z") && Pointer.IsPointer("/a") && Pointer.IsPointer("/c")
  {
  }

  /**
   The order of paths can change the reason given for a denial: two parts of one layer and rule, one with an
   obligation without an id and one that differs from the baseline, whose texts the order of paths ranks.
   */
  lemma ReorderingChangesReason(c: Codec, r: Decision, s: Decision)
    requires c.Separates({Baseline(), Tenant(), Broken()}) && c.Separates({Baseline(), Tenant(), Turned()})
    requires c.otherClauses(Baseline()) && c.otherClauses(Tenant())
    requires c.otherClauses(Broken()) == c.otherClauses(Turned())
    requires Less(c.marshal(Baseline()), c.marshal(Broken())) && Less(c.marshal(Broken()), c.marshal(Tenant()))
    requires Less(c.marshal(Tenant()), c.marshal(Turned()))
    requires Decides(c, {Baseline(), Tenant(), Broken()}, r) && Decides(c, {Baseline(), Tenant(), Turned()}, s)
    ensures Respelled(c, {Baseline(), Tenant(), Broken()}, {Baseline(), Tenant(), Turned()})
    ensures r.reasons == ["ng.policy.invalid_decision"] && s.reasons == ["ng.policy.obligation_conflict"]
  {
    hide *;
    PartsAre(c);
    TurnedSame(c);
    assert {Baseline(), Broken(), Tenant()} == {Baseline(), Tenant(), Broken()};
    StopsBecause(c, Baseline(), Broken(), Tenant(), r);
    LessTransitive(c.marshal(Baseline()), c.marshal(Broken()), c.marshal(Tenant()));
    StopsBecause(c, Baseline(), Tenant(), Turned(), s);
  }

  lemma StopsBecause(c: Codec, f: Contribution, p: Contribution, q: Contribution, r: Decision)
    requires c.Separates({f, p, q}) && Decides(c, {f, p, q}, r)
    requires Less(c.marshal(f), c.marshal(p)) && Less(c.marshal(p), c.marshal(q))
    requires !Unusable(c, f) && !Differ(f, f) && (Unusable(c, p) || (Differ(p, f) && Unusable(c, q)))
    ensures r.reasons == [CodeOf(c, p)]
  {
    hide *;
    var parts := {f, p, q};
    StopsFirst(c, parts, f, p, q);
    var first := StopReason(c, parts, r);
    OneFirst(c, parts, first, p);
    ReasonOf(r, CodeOf(c, p));
  }

  lemma ReasonOf(r: Decision, code: string)
    requires IsDenial(r, code)
    ensures r.reasons == [code]
  {
  }

  lemma TurnedSame(c: Codec)
    requires c.otherClauses(Broken()) == c.otherClauses(Turned())
    ensures Respelled(c, {Baseline(), Tenant(), Broken()}, {Baseline(), Tenant(), Turned()})
  {
    assert forall p :: SamePart(c, p, p);
    assert Broken().List()[0].paths.value == ["/a", "/b"] && Turned().List()[0].paths.value == ["/b", "/a"];
    assert SamePart(c, Broken(), Turned()) && SamePart(c, Turned(), Broken());
    hide SamePart;
  }

  /** Behind a baseline that passes, the first of two parts that stop is the one that counts. */
  lemma StopsFirst(c: Codec, parts: set<Contribution>, f: Contribution, p: Contribution, q: Contribution)
    requires parts == {f, p, q} && Less(c.marshal(f), c.marshal(p)) && Less(c.marshal(p), c.marshal(q))
    requires !Unusable(c, f) && !Differ(f, f) && (Unusable(c, p) || Differ(p, f))
    ensures FirstStop(c, parts, p)
  {
    hide Unusable, Differ, Less;
    LessTransitive(c.marshal(f), c.marshal(p), c.marshal(q));
    LessAsymmetric(c.marshal(f), c.marshal(p));
    LessAsymmetric(c.marshal(f), c.marshal(q));
    assert !Stops(c, parts, f);
    assert Stops(c, parts, p);
  }
}
