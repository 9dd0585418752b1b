/** What callers rely on: fail-closed, monotone, and always a schema-conforming decision. */
module CompositionLaws {
  import opened Ordering
  import opened Obligations
  import opened Composition

  // ----- When composition denies -----

  ghost predicate SomeUnusable(c: Codec, parts: set<Contribution>) {
    exists p :: p in parts && (Undecided(p) || !ValidPart(c, p))
  }

  ghost predicate SomeClash(parts: set<Contribution>) {
    exists p, q :: p in parts && q in parts && Clash(p, q)
  }

  ghost predicate ConflictWithin(all: set<Obligation>) {
    exists o, o' :: o in all && o' in all && o.id != o'.id && Grounded(o) && Grounded(o') && Conflict(o, o')
  }

  /**
   The reasons to deny: no contribution, one that is undecided, invalid or a deny, an
   obligation id with two definitions, or two merged obligations in conflict.
   */
  ghost predicate MustDeny(c: Codec, parts: set<Contribution>) {
    || parts == {} || SomeUnusable(c, parts) || AnyOutcome(parts, "deny")
    || SomeClash(parts) || ConflictWithin(Merged(parts))
  }

  lemma ClashFails(c: Codec, parts: set<Contribution>, p: Contribution, q: Contribution)
    requires p in parts && q in parts && Clash(p, q) && c.Separates(parts)
    ensures Fails(c, parts)
  {
    LessTotal(c.marshal(p), c.marshal(q));
    if NotAfter(c, q, p) {
      assert Failing(c, parts, p);
    } else {
      assert Clash(q, p);
      assert NotAfter(c, p, q);
      assert Failing(c, parts, q);
    }
  }

  lemma ListConflicts(parts: set<Contribution>, list: seq<Obligation>)
    requires IsMergedList(parts, list)
    ensures PairConflicts(list) <==> ConflictWithin(Merged(parts))
  {
    if PairConflicts(list) {
      var i, j :| 0 <= i < j < |list| && Grounded(list[i]) && Grounded(list[j]) && Conflict(list[i], list[j]);
      LessIrreflexive(list[i].id);
      assert list[i] in list && list[j] in list;
    }
    if ConflictWithin(Merged(parts)) {
      var o, o' :| o in Merged(parts) && o' in Merged(parts) && o.id != o'.id
                   && Grounded(o) && Grounded(o') && Conflict(o, o');
      assert o in list && o' in list;
      var i :| 0 <= i < |list| && list[i] == o;
      var j :| 0 <= j < |list| && list[j] == o';
      ConflictSymmetric(o, o');
      if i < j {
        assert Conflict(list[i], list[j]);
      } else {
        assert Conflict(list[j], list[i]);
      }
    }
  }

  lemma FailsExactly(c: Codec, parts: set<Contribution>)
    requires c.Separates(parts)
    ensures Fails(c, parts) <==> SomeUnusable(c, parts) || SomeClash(parts)
  {
    if p :| p in parts && (Undecided(p) || !ValidPart(c, p)) {
      assert Failing(c, parts, p);
    }
    if p, q :| p in parts && q in parts && Clash(p, q) {
      ClashFails(c, parts, p, q);
    }
  }

  /** The outcome is deny exactly when one of the reasons to deny is present. */
  lemma DeniesExactly(c: Codec, parts: set<Contribution>, r: Decision)
    requires c.Separates(parts) && Decides(c, parts, r)
    ensures r.outcome == "deny" <==> MustDeny(c, parts)
  {
    FailsExactly(c, parts);
    if parts != {} && !Fails(c, parts) {
      var list :| IsMergedList(parts, list) && r == Combined(parts, list);
      ListConflicts(parts, list);
    }
  }

  // ----- Monotonicity -----

  /** allow < transform < require_approval < deny */
  function Rank(outcome: string): nat {
    if outcome == "deny" then 3
    else if outcome == "require_approval" then 2
    else if outcome == "transform" then 1
    else 0
  }

  lemma MustDenyMonotone(c: Codec, parts: set<Contribution>, more: set<Contribution>)
    requires parts <= more && parts != {} && MustDeny(c, parts)
    ensures MustDeny(c, more)
  {
    assert SomeUnusable(c, parts) ==> SomeUnusable(c, more);
    assert SomeClash(parts) ==> SomeClash(more);
    if AnyOutcome(parts, "deny") { OutcomeMonotone(parts, more, "deny"); }
    ConflictMonotone(Merged(parts), Merged(more));
  }

  lemma ConflictMonotone(some: set<Obligation>, more: set<Obligation>)
    requires some <= more
    ensures ConflictWithin(some) ==> ConflictWithin(more)
  {
  }

  /** Without a reason to deny, the decision is the merge. */
  lemma MergesUnlessDenied(c: Codec, parts: set<Contribution>, r: Decision)
    requires c.Separates(parts) && Decides(c, parts, r) && !MustDeny(c, parts)
    ensures r.outcome == MergedOutcome(parts) && r.reasons == Ascending(ReasonSet(parts))
    ensures IsMergedList(parts, r.obligations)
  {
    FailsExactly(c, parts);
    var list :| IsMergedList(parts, list) && r == Combined(parts, list);
    ListConflicts(parts, list);
    DeniesExactly(c, parts, r);
  }

  lemma OutcomeMonotone(parts: set<Contribution>, more: set<Contribution>, outcome: string)
    requires parts <= more && AnyOutcome(parts, outcome)
    ensures AnyOutcome(more, outcome)
  {
    var p :| p in parts && p.outcome == outcome;
    assert p in more;
  }

  /** No contribution lowers the outcome or erases what another one demands. */
  lemma Monotone(c: Codec, parts: set<Contribution>, more: set<Contribution>, r: Decision, s: Decision)
    requires parts <= more && parts != {} && c.Separates(more)
    requires Decides(c, parts, r) && Decides(c, more, s)
    ensures Rank(r.outcome) <= Rank(s.outcome)
    ensures s.outcome != "deny" ==>
      && (forall code :: code in r.reasons ==> code in s.reasons)
      && (forall o :: o in r.obligations ==> o in s.obligations)
  {
    DeniesExactly(c, more, s);
    DeniesExactly(c, parts, r);
    hide Decides, MustDeny;
    if !MustDeny(c, more) {
      if MustDeny(c, parts) { MustDenyMonotone(c, parts, more); }
      MergesUnlessDenied(c, parts, r);
      MergesUnlessDenied(c, more, s);
      forall outcome | AnyOutcome(parts, outcome)
        ensures AnyOutcome(more, outcome)
      {
        OutcomeMonotone(parts, more, outcome);
      }
      assert ReasonSet(parts) <= ReasonSet(more) && Merged(parts) <= Merged(more);
    }
  }

  // ----- Every decision conforms to the schema -----

  ghost predicate ConflictFree(list: seq<Obligation>) {
    forall i, j :: 0 <= i < |list| && 0 <= j < |list| && i != j ==>
      Grounded(list[i]) && Grounded(list[j]) && !Conflict(list[i], list[j])
  }

  lemma MergedValid(c: Codec, parts: set<Contribution>, list: seq<Obligation>)
    requires c.Separates(parts) && !MustDeny(c, parts) && IsMergedList(parts, list)
    ensures forall i :: 0 <= i < |list| ==> ValidObligation(list[i])
    ensures ConflictFree(list)
  {
    MergedGrounded(c, parts, list);
    ListConflicts(parts, list);
    forall i, j | 0 <= i < |list| && 0 <= j < |list| && i != j
      ensures !Conflict(list[i], list[j])
    {
      ConflictSymmetric(list[i], list[j]);
      assert i < j || j < i;
    }
  }

  /** A merged obligation comes from some contribution. */
  lemma MergedKind(c: Codec, parts: set<Contribution>, list: seq<Obligation>, i: nat) returns (p: Contribution, k: nat)
    requires IsMergedList(parts, list) && i < |list|
    ensures p in parts && k < |p.List()| && p.List()[k].kind == list[i].kind
  {
    assert list[i] in list;
    p :| p in parts && list[i] in Carried(p);
    k :| 0 <= k < |p.List()| && Sorted(p.List()[k]) == list[i];
  }

  lemma KindMerged(parts: set<Contribution>, list: seq<Obligation>, p: Contribution, k: nat) returns (i: nat)
    requires IsMergedList(parts, list) && p in parts && k < |p.List()|
    ensures i < |list| && list[i].kind == p.List()[k].kind
  {
    assert Sorted(p.List()[k]) in Carried(p);
    assert Sorted(p.List()[k]) in list;
    i :| 0 <= i < |list| && list[i] == Sorted(p.List()[k]);
  }

  lemma MergedApproval(c: Codec, parts: set<Contribution>, list: seq<Obligation>)
    requires !MustDeny(c, parts) && IsMergedList(parts, list)
    ensures HasKind(list, REQUIRE_APPROVAL) <==> AnyOutcome(parts, "require_approval")
  {
    if HasKind(list, REQUIRE_APPROVAL) {
      var i :| 0 <= i < |list| && list[i].kind == REQUIRE_APPROVAL;
      var p, k := MergedKind(c, parts, list, i);
      assert HasKind(p.List(), REQUIRE_APPROVAL) && ValidPart(c, p);
    }
    if AnyOutcome(parts, "require_approval") {
      var p :| p in parts && p.outcome == "require_approval";
      assert ValidPart(c, p) && HasKind(p.List(), REQUIRE_APPROVAL);
      var k :| 0 <= k < |p.List()| && p.List()[k].kind == REQUIRE_APPROVAL;
      var i := KindMerged(parts, list, p, k);
    }
  }

  lemma MergedTransform(c: Codec, parts: set<Contribution>, list: seq<Obligation>)
    requires !MustDeny(c, parts) && IsMergedList(parts, list) && AnyOutcome(parts, "transform")
    ensures exists i :: 0 <= i < |list| && IsTransformKind(list[i].kind)
  {
    var p :| p in parts && p.outcome == "transform";
    assert ValidPart(c, p);
    var k :| 0 <= k < |p.List()| && IsTransformKind(p.List()[k].kind);
    var i := KindMerged(parts, list, p, k);
    assert IsTransformKind(list[i].kind);
  }

  lemma MergedAllow(c: Codec, parts: set<Contribution>, list: seq<Obligation>)
    requires !MustDeny(c, parts) && IsMergedList(parts, list) && MergedOutcome(parts) == "allow"
    ensures forall i :: 0 <= i < |list| ==> IsAllowKind(list[i].kind)
  {
    forall i | 0 <= i < |list|
      ensures IsAllowKind(list[i].kind)
    {
      var p, k := MergedKind(c, parts, list, i);
      assert ValidPart(c, p) && !AnyOutcome(parts, "require_approval") && !AnyOutcome(parts, "transform");
      assert p.outcome == "allow";
    }
  }

  lemma AscendingDistinct(s: seq<string>)
    requires StrictlyAscending(s)
    ensures Distinct(s)
  {
    forall i, j | 0 <= i < j < |s|
      ensures s[i] != s[j]
    {
      LessIrreflexive(s[i]);
    }
  }

  lemma UsableHasReason(c: Codec, p: Contribution)
    requires ValidPart(c, p)
    ensures p.reasons != []
  {
  }

  lemma ReasonsGiven(c: Codec, parts: set<Contribution>)
    requires parts != {} && !SomeUnusable(c, parts)
    ensures Ascending(ReasonSet(parts)) != [] && Distinct(Ascending(ReasonSet(parts)))
  {
    var p :| p in parts;
    UsableHasReason(c, p);
    assert p.reasons[0] in p.reasons && p.reasons[0] in ReasonSet(parts);
    assert p.reasons[0] in Ascending(ReasonSet(parts));
    AscendingDistinct(Ascending(ReasonSet(parts)));
  }

  /** A merge that does not deny: sorted, conflict-free in both directions, and schema-conforming. */
  lemma MergeConforms(c: Codec, parts: set<Contribution>, r: Decision)
    requires c.Separates(parts) && Decides(c, parts, r) && !MustDeny(c, parts)
    ensures StrictlyAscending(r.reasons) && ConflictFree(r.obligations)
    ensures forall i, j :: 0 <= i < j < |r.obligations| ==> Less(r.obligations[i].id, r.obligations[j].id)
    ensures MeetsSchema(r.outcome, r.reasons, r.obligations)
  {
    MergesUnlessDenied(c, parts, r);
    MergedValid(c, parts, r.obligations);
    ReasonsGiven(c, parts);
    MergedApproval(c, parts, r.obligations);
    if r.outcome == "transform" { MergedTransform(c, parts, r.obligations); }
    if r.outcome == "allow" { MergedAllow(c, parts, r.obligations); }
  }

  /** A denial carries at least one reason and nothing to execute. */
  lemma DenialConforms(c: Codec, parts: set<Contribution>, r: Decision)
    requires c.Separates(parts) && Decides(c, parts, r) && MustDeny(c, parts)
    ensures MeetsSchema(r.outcome, r.reasons, r.obligations) && r.outcome == "deny" && r.obligations == []
    ensures StrictlyAscending(r.reasons)
  {
    DeniesExactly(c, parts, r);
    FailsExactly(c, parts);
    if parts != {} && !Fails(c, parts) {
      ReasonsGiven(c, parts);
    }
  }

  /** Whatever the contributions, the decision meets the decision schema's conditionals. */
  lemma DecisionConforms(c: Codec, parts: set<Contribution>, r: Decision)
    requires c.Separates(parts) && Decides(c, parts, r)
    ensures MeetsSchema(r.outcome, r.reasons, r.obligations)
  {
    if MustDeny(c, parts) {
      DenialConforms(c, parts, r);
    } else {
      MergeConforms(c, parts, r);
    }
  }
}
