/** Merging layer contributions into one decision. */
module Composition {
  import opened Wrappers
  import opened Ordering
  import opened ByteOrder
  import opened Obligations

  /** What one layer's rule contributes. Absent obligations (JSON null) are None. */
  datatype Contribution = Contribution(
    layer: string,
    ruleId: string,
    outcome: string,
    reasons: seq<string>,
    obligations: Option<seq<Obligation>>)
  {
    function List(): seq<Obligation> {
      if obligations.Some? then obligations.value else []
    }
  }

  datatype Decision = Decision(outcome: string, reasons: seq<string>, obligations: seq<Obligation>)

  /**
   json.Marshal of a contribution, and the schema clauses that are not modelled
   (lengths, patterns, versions, extension names), which may be any predicate.
   */
  datatype Codec = Codec(marshal: Contribution -> string, otherClauses: Contribution -> bool) {
    ghost predicate Separates(parts: set<Contribution>) {
      forall p, q :: p in parts && q in parts && marshal(p) == marshal(q) ==> p == q
    }
  }

  predicate IsLayer(name: string) {
    name in ["baseline", "organization", "tenant", "application", "local_override"]
  }

  function Deny(code: string): Decision {
    Decision("deny", ["ng.policy." + code], [])
  }

  // ----- The declarative result -----

  predicate Undecided(p: Contribution) {
    p.outcome == ""
  }

  predicate ValidPart(c: Codec, p: Contribution) {
    && IsLayer(p.layer) && p.ruleId != ""
    && p.obligations.Some? && MeetsSchema(p.outcome, p.reasons, p.obligations.value)
    && c.otherClauses(p)
  }

  /** The first n obligations of a contribution, each with its paths sorted. */
  ghost function CarriedUpTo(p: Contribution, n: nat): set<Obligation>
    requires n <= |p.List()|
  {
    set i | 0 <= i < n :: Sorted(p.List()[i])
  }

  ghost function Carried(p: Contribution): set<Obligation> {
    CarriedUpTo(p, |p.List()|)
  }

  /** Two contributions define one obligation id differently. */
  ghost predicate Clash(p: Contribution, q: Contribution) {
    exists o, o' :: o in Carried(p) && o' in Carried(q) && o.id == o'.id && o != o'
  }

  ghost predicate NotAfter(c: Codec, q: Contribution, p: Contribution) {
    q == p || Less(c.marshal(q), c.marshal(p))
  }

  /** Processing p ends composition: p is undecided, invalid, or clashes with a part up to it. */
  ghost predicate Failing(c: Codec, parts: set<Contribution>, p: Contribution) {
    p in parts &&
    (Undecided(p) || !ValidPart(c, p) || exists q :: q in parts && NotAfter(c, q, p) && Clash(p, q))
  }

  ghost predicate IsFirstFailing(c: Codec, parts: set<Contribution>, p: Contribution) {
    Failing(c, parts, p) && forall q :: Failing(c, parts, q) ==> NotAfter(c, p, q)
  }

  ghost function FailureCode(c: Codec, p: Contribution): string {
    if Undecided(p) then "no_decision"
    else if !ValidPart(c, p) then "invalid_decision"
    else "obligation_conflict"
  }

  ghost function Merged(parts: set<Contribution>): set<Obligation> {
    set p, o | p in parts && o in Carried(p) :: o
  }

  /** The merged obligations, in ascending order of id. */
  ghost predicate IsMergedList(parts: set<Contribution>, list: seq<Obligation>) {
    && (forall i, j :: 0 <= i < j < |list| ==> Less(list[i].id, list[j].id))
    && (forall o :: o in list <==> o in Merged(parts))
  }

  ghost predicate PairConflicts(list: seq<Obligation>) {
    exists i, j :: 0 <= i < j < |list| && Grounded(list[i]) && Grounded(list[j]) && Conflict(list[i], list[j])
  }

  ghost predicate AnyOutcome(parts: set<Contribution>, outcome: string) {
    exists p :: p in parts && p.outcome == outcome
  }

  ghost function MergedOutcome(parts: set<Contribution>): string {
    if AnyOutcome(parts, "deny") then "deny"
    else if AnyOutcome(parts, "require_approval") then "require_approval"
    else if AnyOutcome(parts, "transform") then "transform"
    else "allow"
  }

  ghost function ReasonSet(parts: set<Contribution>): set<string> {
    set p, r | p in parts && r in p.reasons :: r
  }

  /** The decision once every part is valid and no obligation id is defined twice. */
  ghost function Combined(parts: set<Contribution>, list: seq<Obligation>): Decision {
    if PairConflicts(list) then Deny("obligation_conflict")
    else
      var outcome := MergedOutcome(parts);
      Decision(outcome, Ascending(ReasonSet(parts)), if outcome == "deny" then [] else list)
  }

  ghost predicate Fails(c: Codec, parts: set<Contribution>) {
    exists p :: Failing(c, parts, p)
  }

  /** What composition of a set of contributions decides. */
  ghost predicate Decides(c: Codec, parts: set<Contribution>, r: Decision) {
    if parts == {} then r == Deny("no_decision")
    else if Fails(c, parts) then exists p :: IsFirstFailing(c, parts, p) && r == Deny(FailureCode(c, p))
    else exists list :: IsMergedList(parts, list) && r == Combined(parts, list)
  }

  lemma MergedListUnique(parts: set<Contribution>, a: seq<Obligation>, b: seq<Obligation>)
    requires IsMergedList(parts, a) && IsMergedList(parts, b)
    ensures a == b
  {
    var x := seq(|a|, i requires 0 <= i < |a| => a[i].id);
    var y := seq(|b|, i requires 0 <= i < |b| => b[i].id);
    forall k
      ensures k in x <==> k in y
    {
      if k in x {
        var i :| 0 <= i < |x| && x[i] == k;
        assert a[i] in a;
        var j :| 0 <= j < |b| && b[j] == a[i];
        assert y[j] == k;
      }
      if k in y {
        var i :| 0 <= i < |y| && y[i] == k;
        assert b[i] in b;
        var j :| 0 <= j < |a| && a[j] == b[i];
        assert x[j] == k;
      }
    }
    AscendingUnique(x, y);
    forall i | 0 <= i < |a|
      ensures a[i] == b[i]
    {
      assert a[i] in a;
      var j :| 0 <= j < |b| && b[j] == a[i];
      assert y[i] == x[i] == y[j];
      LessIrreflexive(y[i]);
    }
  }

  /** The decision depends on the set of contributions only: order and duplicates are irrelevant. */
  lemma DecisionUnique(c: Codec, parts: set<Contribution>, r: Decision, s: Decision)
    requires c.Separates(parts) && Decides(c, parts, r) && Decides(c, parts, s)
    ensures r == s
  {
    if parts == {} {
    } else if Fails(c, parts) {
      var p :| IsFirstFailing(c, parts, p) && r == Deny(FailureCode(c, p));
      var q :| IsFirstFailing(c, parts, q) && s == Deny(FailureCode(c, q));
      if p != q { LessAsymmetric(c.marshal(p), c.marshal(q)); }
    } else {
      var a :| IsMergedList(parts, a) && r == Combined(parts, a);
      var b :| IsMergedList(parts, b) && s == Combined(parts, b);
      MergedListUnique(parts, a, b);
    }
  }

  // ----- Compose -----

  ghost function PartSet(parts: seq<Contribution>): set<Contribution> {
    set p | p in parts
  }

  /** byID holds exactly the given obligations, each under its id. */
  ghost predicate Indexes(byId: map<string, Obligation>, all: set<Obligation>) {
    && (forall o :: o in all ==> o.id in byId && byId[o.id] == o)
    && (forall id :: id in byId ==> byId[id].id == id && byId[id] in all)
  }

  /** Copy of an obligation with its paths sorted. */
  method SortPaths(o: Obligation) returns (r: Obligation)
    requires ValidObligation(o)
    ensures r == Sorted(o)
  {
    r := o;
    if o.paths.Some? {
      var paths := SortFunc((x: string) => x, o.paths.value);
      SortedDistinct(o.paths.value, paths);
      r := o.(paths := Some(paths));
    }
  }

  /** Adds the obligations of one part; None when an id already has another definition. */
  method AddObligations(byId: map<string, Obligation>, ghost done: set<Contribution>, p: Contribution)
    returns (r: Option<map<string, Obligation>>)
    requires Indexes(byId, Merged(done))
    requires forall i :: 0 <= i < |p.List()| ==> ValidObligation(p.List()[i])
    ensures r.None? ==> exists q :: (q == p || q in done) && Clash(p, q)
    ensures r.Some? ==> Indexes(r.value, Merged(done + {p}))
  {
    hide CarriedUpTo, Merged, Clash, Sorted, ValidObligation;
    var index := byId;
    var list := p.List();
    ghost var all := Merged(done);
    NoneCarried(p);
    for i := 0 to |list|
      invariant all == Merged(done) + CarriedUpTo(p, i)
      invariant Indexes(index, all)
    {
      var o := SortPaths(list[i]);
      CarriedStep(p, i);
      if o.id in index {
        if index[o.id] != o {
          ClashFound(done, p, i, o, index[o.id]);
          return None;
        }
      } else {
        index := index[o.id := o];
      }
      all := all + {o};
    }
    MergedStep(done, p);
    return Some(index);
  }

  lemma NoneCarried(p: Contribution)
    ensures CarriedUpTo(p, 0) == {}
  {
  }

  lemma CarriedStep(p: Contribution, i: nat)
    requires i < |p.List()|
    ensures CarriedUpTo(p, i + 1) == CarriedUpTo(p, i) + {Sorted(p.List()[i])}
    ensures Sorted(p.List()[i]) in Carried(p)
  {
  }

  lemma MergedStep(done: set<Contribution>, p: Contribution)
    ensures Merged(done + {p}) == Merged(done) + Carried(p)
  {
  }

  lemma ClashFound(done: set<Contribution>, p: Contribution, n: nat, o: Obligation, o': Obligation)
    requires n <= |p.List()| && o in Carried(p) && o' in Merged(done) + CarriedUpTo(p, n)
    requires o.id == o'.id && o != o'
    ensures exists q :: (q == p || q in done) && Clash(p, q)
  {
    if o' in CarriedUpTo(p, n) {
      assert o' in Carried(p);
      assert Clash(p, p);
    } else {
      var q :| q in done && o' in Carried(q);
      assert Clash(p, q);
    }
  }

  /** The first part that fails in processing order decides. */
  lemma FirstFailure(c: Codec, parts: seq<Contribution>, i: nat)
    requires c.Separates(PartSet(parts)) && SortedBy(c.marshal, parts)
    requires i < |parts| && Failing(c, PartSet(parts), parts[i])
    requires forall j :: 0 <= j < i ==> !Failing(c, PartSet(parts), parts[j])
    ensures Decides(c, PartSet(parts), Deny(FailureCode(c, parts[i])))
  {
    forall q | Failing(c, PartSet(parts), q)
      ensures NotAfter(c, parts[i], q)
    {
      var j :| 0 <= j < |parts| && parts[j] == q;
      LessTotal(c.marshal(parts[i]), c.marshal(q));
    }
    assert IsFirstFailing(c, PartSet(parts), parts[i]);
  }

  lemma NoFailure(c: Codec, parts: seq<Contribution>, i: nat, byId: map<string, Obligation>)
    requires SortedBy(c.marshal, parts) && i < |parts|
    requires !Undecided(parts[i]) && ValidPart(c, parts[i])
    requires Indexes(byId, Merged(PartSet(parts[..i]) + {parts[i]}))
    ensures !Failing(c, PartSet(parts), parts[i])
  {
    var p := parts[i];
    var upTo := PartSet(parts[..i]) + {p};
    forall q | q in PartSet(parts) && NotAfter(c, q, p)
      ensures !Clash(p, q)
    {
      var j :| 0 <= j < |parts| && parts[j] == q;
      assert q in upTo by {
        if j < i { assert parts[..i][j] == q; }
        LessIrreflexive(c.marshal(p));
      }
      forall o, o' | o in Carried(p) && o' in Carried(q) && o.id == o'.id
        ensures o == o'
      {
        assert o in Merged(upTo) && o' in Merged(upTo);
      }
    }
  }

  lemma PartSetStep(parts: seq<Contribution>, i: nat)
    requires i < |parts|
    ensures PartSet(parts[..i + 1]) == PartSet(parts[..i]) + {parts[i]}
  {
    assert parts[..i + 1] == parts[..i] + [parts[i]];
  }

  /** The flags and reasons collected so far describe the parts in done. */
  ghost predicate Tally(done: set<Contribution>, deny: bool, approval: bool, transform: bool, reasons: seq<string>) {
    && (deny <==> AnyOutcome(done, "deny"))
    && (approval <==> AnyOutcome(done, "require_approval"))
    && (transform <==> AnyOutcome(done, "transform"))
    && (set s | s in reasons) == ReasonSet(done)
  }

  lemma TallyStep(
      done: set<Contribution>, p: Contribution, deny: bool, approval: bool, transform: bool, reasons: seq<string>)
    requires Tally(done, deny, approval, transform, reasons)
    ensures Tally(
      done + {p}, deny || p.outcome == "deny", approval || p.outcome == "require_approval",
      transform || p.outcome == "transform", reasons + p.reasons)
  {
    OutcomeStep(done, p, "deny");
    OutcomeStep(done, p, "require_approval");
    OutcomeStep(done, p, "transform");
    forall r
      ensures r in reasons + p.reasons <==> r in ReasonSet(done + {p})
    {
      if r in reasons { assert r in (set s | s in reasons); }
      if r in ReasonSet(done) { assert r in (set s | s in reasons); }
    }
  }

  lemma OutcomeStep(done: set<Contribution>, p: Contribution, outcome: string)
    ensures AnyOutcome(done + {p}, outcome) <==> AnyOutcome(done, outcome) || p.outcome == outcome
  {
    if AnyOutcome(done, outcome) {
      var q :| q in done && q.outcome == outcome;
      assert q in done + {p};
    }
    if p.outcome == outcome { assert p in done + {p}; }
  }

  /** The values of the index, sorted by id. */
  method SortById(byId: map<string, Obligation>, ghost parts: set<Contribution>) returns (list: seq<Obligation>)
    requires Indexes(byId, Merged(parts))
    ensures IsMergedList(parts, list)
  {
    var values: seq<Obligation> := [];
    var todo := byId.Keys;
    while todo != {}
      invariant todo <= byId.Keys
      invariant forall o :: o in values <==> o in Merged(parts) && o.id !in todo
      invariant forall i, j :: 0 <= i < j < |values| ==> values[i].id != values[j].id
    {
      var id :| id in todo;
      todo := todo - {id};
      values := values + [byId[id]];
    }
    list := SortFunc((o: Obligation) => o.id, values);
    SameElements(list, values);
    DistinctIds(values, list);
  }

  lemma DistinctIds(values: seq<Obligation>, list: seq<Obligation>)
    requires multiset(list) == multiset(values) && SortedBy((o: Obligation) => o.id, list)
    requires forall i, j :: 0 <= i < j < |values| ==> values[i].id != values[j].id
    ensures forall i, j :: 0 <= i < j < |list| ==> Less(list[i].id, list[j].id)
  {
    SameElements(list, values);
    forall i, j | 0 <= i < j < |list|
      ensures Less(list[i].id, list[j].id)
    {
      if list[i] == list[j] {
        CountAtLeastTwo(list, i, j);
        TwoPositions(values, list[i]);
      }
      assert list[i] in values && list[j] in values;
      LessTotal(list[i].id, list[j].id);
    }
  }

  /** The pairwise test in the order of the nested loops. */
  method FindConflict(list: seq<Obligation>) returns (found: bool)
    requires forall i :: 0 <= i < |list| ==> Grounded(list[i])
    ensures found <==> PairConflicts(list)
  {
    for i := 0 to |list|
      invariant forall a, b :: 0 <= a < i && a < b < |list| ==> !Conflict(list[a], list[b])
    {
      for j := i + 1 to |list|
        invariant forall b :: i < b < j ==> !Conflict(list[i], list[b])
      {
        if Conflict(list[i], list[j]) {
          return true;
        }
      }
    }
    return false;
  }

  lemma MergedGrounded(c: Codec, parts: set<Contribution>, list: seq<Obligation>)
    requires IsMergedList(parts, list) && forall p :: p in parts ==> ValidPart(c, p)
    ensures forall i :: 0 <= i < |list| ==> ValidObligation(list[i]) && Grounded(list[i])
  {
    forall i | 0 <= i < |list|
      ensures ValidObligation(list[i])
    {
      assert list[i] in list;
      var p :| p in parts && list[i] in Carried(p);
      var k :| 0 <= k < |p.List()| && Sorted(p.List()[k]) == list[i];
      SortedValid(p.List()[k]);
    }
  }

  /** The first n parts are valid and none of them ends composition. */
  ghost predicate Passed(c: Codec, parts: seq<Contribution>, n: nat) {
    n <= |parts| && forall j :: 0 <= j < n ==> ValidPart(c, parts[j]) && !Failing(c, PartSet(parts), parts[j])
  }

  /** Checks one part and merges its obligations, or ends composition. */
  method Step(
      c: Codec, sorted: seq<Contribution>, i: nat, byId: map<string, Obligation>)
    returns (r: Result<map<string, Obligation>, Decision>)
    requires c.Separates(PartSet(sorted)) && SortedBy(c.marshal, sorted) && i < |sorted|
    requires Passed(c, sorted, i)
    requires Indexes(byId, Merged(PartSet(sorted[..i])))
    ensures r.Err? ==> Decides(c, PartSet(sorted), r.error)
    ensures r.Ok? ==> Passed(c, sorted, i + 1)
    ensures r.Ok? ==> Indexes(r.value, Merged(PartSet(sorted[..i + 1])))
  {
    var p := sorted[i];
    ghost var done := PartSet(sorted[..i]);
    PartSetStep(sorted, i);
    if p.outcome == "" {
      FirstFailure(c, sorted, i);
      return Err(Deny("no_decision"));
    }
    if !ValidPart(c, p) {
      FirstFailure(c, sorted, i);
      return Err(Deny("invalid_decision"));
    }
    var index := AddObligations(byId, done, p);
    if index.None? {
      ClashFails(c, sorted, i);
      FirstFailure(c, sorted, i);
      return Err(Deny("obligation_conflict"));
    }
    NoFailure(c, sorted, i, index.value);
    return Ok(index.value);
  }

  method Compose(c: Codec, parts: seq<Contribution>) returns (r: Decision)
    requires c.Separates(PartSet(parts))
    ensures Decides(c, PartSet(parts), r)
  {
    var sorted := SortFunc(c.marshal, parts);
    SameElements(sorted, parts);
    assert PartSet(sorted) == PartSet(parts);
    if |sorted| == 0 {
      return Deny("no_decision");
    }
    var deny, approval, transform := false, false, false;
    var reasons: seq<string> := [];
    var byId: map<string, Obligation> := map[];
    for i := 0 to |sorted|
      invariant Passed(c, sorted, i)
      invariant Tally(PartSet(sorted[..i]), deny, approval, transform, reasons)
      invariant Indexes(byId, Merged(PartSet(sorted[..i])))
    {
      var p := sorted[i];
      var index := Step(c, sorted, i, byId);
      if index.Err? {
        return index.error;
      }
      PartSetStep(sorted, i);
      TallyStep(PartSet(sorted[..i]), p, deny, approval, transform, reasons);
      byId := index.value;
      deny := deny || p.outcome == "deny";
      approval := approval || p.outcome == "require_approval";
      transform := transform || p.outcome == "transform";
      reasons := reasons + p.reasons;
    }
    assert sorted[..|sorted|] == sorted;
    r := Finish(c, sorted, deny, approval, transform, reasons, byId);
  }

  lemma ClashFails(c: Codec, parts: seq<Contribution>, i: nat)
    requires SortedBy(c.marshal, parts) && c.Separates(PartSet(parts)) && i < |parts|
    requires exists q :: (q == parts[i] || q in PartSet(parts[..i])) && Clash(parts[i], q)
    ensures Failing(c, PartSet(parts), parts[i])
  {
    var q :| (q == parts[i] || q in PartSet(parts[..i])) && Clash(parts[i], q);
    if q != parts[i] {
      var j :| 0 <= j < i && parts[j] == q;
      LessTotal(c.marshal(q), c.marshal(parts[i]));
    }
    assert NotAfter(c, q, parts[i]);
  }

  /** The end of composition: order, test for conflicts, and choose the outcome. */
  method Finish(
      c: Codec, ghost sorted: seq<Contribution>, deny: bool, approval: bool, transform: bool,
      reasons: seq<string>, byId: map<string, Obligation>)
    returns (r: Decision)
    requires sorted != [] && Passed(c, sorted, |sorted|)
    requires Tally(PartSet(sorted), deny, approval, transform, reasons)
    requires Indexes(byId, Merged(PartSet(sorted)))
    ensures Decides(c, PartSet(sorted), r)
  {
    ghost var parts := PartSet(sorted);
    assert sorted[0] in parts;
    var list := SortById(byId, parts);
    MergedGrounded(c, parts, list);
    var conflict := FindConflict(list);
    if conflict {
      return Deny("obligation_conflict");
    }
    var codes := SortCompact(reasons);
    if deny {
      return Decision("deny", codes, []);
    }
    if approval {
      return Decision("require_approval", codes, list);
    }
    if transform {
      return Decision("transform", codes, list);
    }
    return Decision("allow", codes, list);
  }
}
