/** Obligations, the decision schema's conditionals, and when two obligations conflict. */
module Obligations {
  import opened Wrappers
  import opened Ordering
  import Pointer

  const MAX_LIMIT: int := 9007199254740991

  const RESTRICT_DESTINATION := "restrict_destination"
  const RETAIN_PATHS := "retain_paths"
  const REMOVE_PATHS := "remove_paths"
  const TOKENIZE := "tokenize"
  const MASK := "mask"
  const REQUIRE_APPROVAL := "require_approval"

  /** Kinds that carry paths. */
  predicate IsFieldKind(kind: string) {
    kind == REMOVE_PATHS || kind == RETAIN_PATHS || kind == TOKENIZE || kind == MASK
  }

  predicate IsCapKind(kind: string) {
    kind == "cap_records" || kind == "cap_bytes"
  }

  predicate IsTransformKind(kind: string) {
    IsFieldKind(kind) || IsCapKind(kind)
  }

  /** Kinds a decision that allows may carry. */
  predicate IsAllowKind(kind: string) {
    || kind == RESTRICT_DESTINATION || kind == "require_confirmation"
    || kind == "prohibit_retention" || kind == "response_check"
  }

  /** Absent JSON members are None; extensions stand for their JSON text. */
  datatype Obligation = Obligation(
    schemaVersion: string,
    id: string,
    kind: string,
    paths: Option<seq<string>>,
    limit: Option<int>,
    destination: Option<string>,
    reviewer: Option<string>,
    checkRef: Option<string>,
    extensions: Option<string>)

  predicate Distinct(s: seq<string>) {
    forall i, j :: 0 <= i < j < |s| ==> s[i] != s[j]
  }

  /** The obligation schema: which members a kind requires and which kinds may carry them. */
  predicate ValidObligation(o: Obligation) {
    && o.id != ""
    && (IsTransformKind(o.kind) || IsAllowKind(o.kind) || o.kind == REQUIRE_APPROVAL)
    && (o.paths.Some? <==> IsFieldKind(o.kind))
    && (o.paths.Some? ==> ValidPaths(o.paths.value))
    && (o.limit.Some? <==> IsCapKind(o.kind))
    && (o.limit.Some? ==> 0 <= o.limit.value <= MAX_LIMIT)
    && (o.destination.Some? <==> o.kind == RESTRICT_DESTINATION)
    && (o.reviewer.Some? <==> o.kind == REQUIRE_APPROVAL)
    && (o.checkRef.Some? <==> o.kind == "response_check")
  }

  predicate ValidPaths(paths: seq<string>) {
    paths != [] && Distinct(paths) && forall i :: 0 <= i < |paths| ==> Pointer.IsPointer(paths[i])
  }

  predicate HasKind(obligations: seq<Obligation>, kind: string) {
    exists i :: 0 <= i < |obligations| && obligations[i].kind == kind
  }

  /** The decision schema's conditionals between outcome and obligations, without size caps. */
  predicate MeetsSchema(outcome: string, reasons: seq<string>, obligations: seq<Obligation>) {
    && (outcome == "allow" || outcome == "deny" || outcome == "transform" || outcome == "require_approval")
    && reasons != [] && Distinct(reasons)
    && (forall i :: 0 <= i < |obligations| ==> ValidObligation(obligations[i]))
    && (outcome == "deny" ==> obligations == [])
    && (outcome == "transform" ==> exists i :: 0 <= i < |obligations| && IsTransformKind(obligations[i].kind))
    && (outcome == "require_approval" <==> HasKind(obligations, REQUIRE_APPROVAL))
    && (outcome == "allow" ==> forall i :: 0 <= i < |obligations| ==> IsAllowKind(obligations[i].kind))
  }

  /** An obligation with its path set in ascending order. */
  ghost function Sorted(o: Obligation): Obligation {
    if o.paths.None? then o else o.(paths := Some(Ascending(set x | x in o.paths.value)))
  }

  lemma SortedValid(o: Obligation)
    requires ValidObligation(o)
    ensures ValidObligation(Sorted(o))
  {
    if o.paths.Some? {
      var paths, sorted := o.paths.value, Sorted(o).paths.value;
      assert paths[0] in sorted;
      forall i | 0 <= i < |sorted|
        ensures Pointer.IsPointer(sorted[i])
      {
        assert sorted[i] in sorted;
      }
      forall i, j | 0 <= i < j < |sorted|
        ensures sorted[i] != sorted[j]
      {
        LessIrreflexive(sorted[i]);
      }
    }
  }

  /** A destination restriction names its destination. */
  predicate Grounded(o: Obligation) {
    o.kind == RESTRICT_DESTINATION ==> o.destination.Some?
  }

  predicate PathsOverlap(a: seq<string>, b: seq<string>) {
    exists i, j :: 0 <= i < |a| && 0 <= j < |b| && Pointer.Overlaps(a[i], b[j])
  }

  predicate Conflict(a: Obligation, b: Obligation)
    requires Grounded(a) && Grounded(b)
  {
    if a.kind == RESTRICT_DESTINATION && b.kind == a.kind then
      a.destination.value != b.destination.value
    else if a.paths.None? || b.paths.None? then false
    else if a.kind == RETAIN_PATHS || b.kind == RETAIN_PATHS then
      a.kind != b.kind || a.paths.value != b.paths.value
    else
      (a.kind != b.kind || a.kind == TOKENIZE || a.kind == MASK) && PathsOverlap(a.paths.value, b.paths.value)
  }

  /** Testing each pair once is enough. */
  lemma ConflictSymmetric(a: Obligation, b: Obligation)
    requires Grounded(a) && Grounded(b)
    ensures Conflict(a, b) <==> Conflict(b, a)
  {
  }

  ghost predicate SharesPosition(a: seq<string>, b: seq<string>)
    requires ValidPaths(a) && ValidPaths(b)
  {
    exists i, j :: 0 <= i < |a| && 0 <= j < |b| &&
      (Pointer.Tokens(a[i]) <= Pointer.Tokens(b[j]) || Pointer.Tokens(b[j]) <= Pointer.Tokens(a[i]))
  }

  /**
   What a conflict is, on the positions the paths name: different destinations; a
   retained set beside any other field operation; or two field operations on nested
   positions, unless both remove.
   */
  lemma ConflictMeaning(a: Obligation, b: Obligation)
    requires ValidObligation(a) && ValidObligation(b)
    ensures Conflict(a, b) <==>
            || (a.kind == b.kind == RESTRICT_DESTINATION && a.destination != b.destination)
            || (IsFieldKind(a.kind) && IsFieldKind(b.kind) &&
                if a.kind == RETAIN_PATHS || b.kind == RETAIN_PATHS
                then a.kind != b.kind || a.paths != b.paths
                else !(a.kind == b.kind == REMOVE_PATHS) && SharesPosition(a.paths.value, b.paths.value))
  {
    if a.paths.Some? && b.paths.Some? {
      var p, q := a.paths.value, b.paths.value;
      forall i, j | 0 <= i < |p| && 0 <= j < |q|
        ensures Pointer.Overlaps(p[i], q[j]) <==>
                Pointer.Tokens(p[i]) <= Pointer.Tokens(q[j]) || Pointer.Tokens(q[j]) <= Pointer.Tokens(p[i])
      {
        Pointer.OverlapsIsPrefix(p[i], q[j]);
      }
    }
  }
}
