/** Which events are refused, what undeclared facts can change, and what an answer means. */
module Interference {
  import opened Wrappers
  import opened Ordering
  import opened Obligations
  import opened Composition
  import opened Explain
  import CompositionLaws
  import JsonText
  import Timestamps

  // ----- When an event is refused -----

  /** The codes a query, or what it yields, is refused with. */
  predicate IsQueryCode(code: string) {
    code == EVALUATION_FAILED || code == INVALID_DECISION || code == UNKNOWN_REASON
  }

  lemma {:induction false} CheckedCodes(p: Policy, layer: string, parts: seq<Contribution>, n: nat)
    requires n <= |parts| && Checked(p, layer, parts, n).Err?
    ensures IsQueryCode(Checked(p, layer, parts, n).error)
  {
    if Checked(p, layer, parts, n - 1).Err? {
      CheckedCodes(p, layer, parts, n - 1);
    }
  }

  lemma {:induction false} QueryCodes(p: Policy, input: Event, n: nat)
    requires n <= |p.layers| && |p.queries| == |p.layers| && PartsOf(p, input, n).Err?
    ensures IsQueryCode(PartsOf(p, input, n).error)
  {
    if PartsOf(p, input, n - 1).Err? {
      QueryCodes(p, input, n - 1);
    } else {
      var reply := p.queries[n - 1](input);
      if reply.Parts? && 0 < |reply.parts| <= MAX_PARTS {
        CheckedCodes(p, p.layers[n - 1], reply.parts, |reply.parts|);
      }
    }
  }

  lemma QueryCodesDiffer(code: string)
    requires IsQueryCode(code)
    ensures code != INVALID_EVENT
  {
    assert INVALID_EVENT[10] == 'i' && INVALID_EVENT[18] == 'e';
    assert EVALUATION_FAILED[10] == 'e' && UNKNOWN_REASON[10] == 'u' && INVALID_DECISION[18] == 'd';
  }

  /** No query fails on what it is shown of the canonical event. */
  predicate Queried(p: Policy, c: Event)
    requires |p.queries| == |p.layers|
  {
    PartsOf(p, Shown(p, c), |p.layers|).Ok?
  }

  /** The event is not admitted, or its canonical form is not and no query fails before that shows. */
  ghost predicate Refused(p: Policy, e: Event)
    requires |p.queries| == |p.layers|
  {
    var c := Canonical(p, e);
    !Admitted(p, e) || (!Admitted(p, c) && (FactsInForce(p, c) ==> Queried(p, c)))
  }

  lemma RefusedExactly(p: Policy, e: Event, r: Result<Explanation, string>)
    requires p.Lawful() && Answers(p, e, r)
    ensures r == Err(INVALID_EVENT) <==> Refused(p, e)
  {
    hide Admitted, Canonical, FactsInForce, Explained, MissingFact;
    var c := Canonical(p, e);
    assert INVALID_EVENT != INVALID_DECISION by { QueryCodesDiffer(INVALID_DECISION); }
    var parts := PartsOf(p, Shown(p, c), |p.layers|);
    if parts.Err? {
      QueryCodes(p, Shown(p, c), |p.layers|);
      QueryCodesDiffer(parts.error);
    }
  }

  /** The decision carries the time of the event, which the second canonical form keeps. */
  lemma EvaluatedAtEvent(p: Policy, e: Event, r: Result<Explanation, string>)
    requires p.Lawful() && Answers(p, e, r) && r.Ok?
    ensures Some(r.value.evaluatedAt) == Timestamps.Stamp(e.occurredAt)
  {
    TimeFormTwice(e.occurredAt);
    hide FactsInForce, PartsOf, Timestamps.Stamp;
  }

  // ----- Non-interference -----

  /** The facts whose source is declared, once it is in NFC. */
  function Declared(p: Policy, facts: seq<Fact>): seq<Fact> {
    if facts == [] then [] else
      Declared(p, facts[..|facts| - 1]) +
      if p.unicode.nfc(facts[|facts| - 1].source) in p.sources then [facts[|facts| - 1]] else []
  }

  lemma FormsAppend(p: Policy, facts: seq<Fact>, f: Fact)
    ensures FactForms(p, facts + [f]) == FactForms(p, facts) + [FactForm(p, f)]
  {
    hide FactForm;
  }

  /** Hiding undeclared facts from queries is dropping them from the event. */
  lemma {:induction false} VisibleForms(p: Policy, facts: seq<Fact>)
    ensures Visible(p.sources, FactForms(p, facts)) == FactForms(p, Declared(p, facts))
  {
    if facts != [] {
      var most, last := facts[..|facts| - 1], facts[|facts| - 1];
      VisibleForms(p, most);
      assert facts == most + [last];
      FormsAppend(p, most, last);
      hide FactForms, FactForm;
      VisibleLast(p.sources, FactForms(p, most), FactForm(p, last));
      FormSource(p, last);
      if p.unicode.nfc(last.source) in p.sources { FormsAppend(p, Declared(p, most), last); }
    }
  }

  lemma FormSource(p: Policy, f: Fact)
    ensures FactForm(p, f).source == p.unicode.nfc(f.source)
  {
  }

  lemma VisibleLast(sources: seq<string>, most: seq<Fact>, last: Fact)
    ensures Visible(sources, most + [last]) ==
            if last.source in sources then Visible(sources, most) + [last] else Visible(sources, most)
  {
    var all := most + [last];
    assert all[..|all| - 1] == most && all[|all| - 1] == last;
    var v := Visible(sources, most);
    assert Visible(sources, all) == v + if last.source in sources then [last] else [];
    hide Visible;
    assert v + [] == v;
  }

  /** Two events that differ at most in facts from undeclared sources. */
  ghost predicate Alike(p: Policy, a: Event, b: Event) {
    && a.occurredAt == b.occurredAt && a.rest == b.rest
    && Declared(p, a.facts) == Declared(p, b.facts)
  }

  lemma AlikeShown(p: Policy, a: Event, b: Event)
    requires Alike(p, a, b)
    ensures Shown(p, Canonical(p, a)) == Shown(p, Canonical(p, b))
    ensures Canonical(p, a).occurredAt == Canonical(p, b).occurredAt
  {
    hide FactForms, TimeForm;
    VisibleForms(p, a.facts);
    VisibleForms(p, b.facts);
  }

  lemma SupplyIsVisible(sources: seq<string>, facts: seq<Fact>, source: string, at: int)
    requires source in sources
    ensures Supplies(facts, source, at) <==> Supplies(Visible(sources, facts), source, at)
  {
    hide InForce;
    var visible := Visible(sources, facts);
    forall f
      ensures f in visible <==> f in facts && f.source in sources
    {
      VisibleMeans(sources, facts, f);
    }
    if i :| 0 <= i < |facts| && facts[i].source == source && InForce(facts[i], at) {
      assert facts[i] in visible;
    }
    if i :| 0 <= i < |visible| && visible[i].source == source && InForce(visible[i], at) {
      assert visible[i] in facts;
    }
  }

  /** Whether the declared facts are in force does not depend on undeclared ones. */
  lemma ShownInForce(p: Policy, c: Event)
    ensures DeclaredInForce(p, c) <==> DeclaredInForce(p, Shown(p, c))
  {
    hide Supplies, Timestamps.Nanoseconds;
    if Timestamps.Nanoseconds(c.occurredAt).Some? {
      forall s | s in p.sources
        ensures Supplies(c.facts, s, Timestamps.Nanoseconds(c.occurredAt).value) <==>
                Supplies(Visible(p.sources, c.facts), s, Timestamps.Nanoseconds(c.occurredAt).value)
      {
        SupplyIsVisible(p.sources, c.facts, s, Timestamps.Nanoseconds(c.occurredAt).value);
      }
    }
  }

  /**
   Facts from undeclared sources never influence an answer but in two ways: time, outcome,
   reasons, obligations, rules and provenance are equal, and so are errors, for events that
   agree on repeating a fact id and on being refused.
   */
  lemma NonInterference(
      p: Policy, a: Event, b: Event, r: Result<Explanation, string>, s: Result<Explanation, string>)
    requires p.Lawful() && Alike(p, a, b) && (Refused(p, a) <==> Refused(p, b))
    requires UniqueIds(Canonical(p, a).facts) <==> UniqueIds(Canonical(p, b).facts)
    requires Answers(p, a, r) && Answers(p, b, s)
    ensures r == s
  {
    RefusedExactly(p, a, r);
    RefusedExactly(p, b, s);
    AlikeShown(p, a, b);
    var c, d := Canonical(p, a), Canonical(p, b);
    ShownInForce(p, c);
    ShownInForce(p, d);
    hide Canonical, UniqueIds, DeclaredInForce, Shown, PartsOf, TimeForm, Alike;
    if !Refused(p, a) {
      SameAnswers(p, c, d, r, s);
    }
  }

  lemma SameAnswers(p: Policy, c: Event, d: Event, r: Result<Explanation, string>, s: Result<Explanation, string>)
    requires p.Lawful() && AnswersCanonical(p, c, r) && AnswersCanonical(p, d, s)
    requires r != Err(INVALID_EVENT) && s != Err(INVALID_EVENT)
    requires c.occurredAt == d.occurredAt && Shown(p, c) == Shown(p, d)
    requires FactsInForce(p, c) <==> FactsInForce(p, d)
    ensures r == s
  {
    hide Admitted, FactsInForce, Shown, TimeForm, Traces, Decides, SortedBy;
    var parts := PartsOf(p, Shown(p, c), |p.layers|);
    if FactsInForce(p, c) && parts.Ok? {
      var x :| Explained(p, c, parts.value, x) && r == Published(p, c, x);
      var y :| Explained(p, d, parts.value, y) && s == Published(p, d, y);
      ExplainedOnce(p, c, parts.value, x, y);
    }
  }

  /** A policy with a layer never explains a decision by no rule at all. */
  lemma LayersAnswer(p: Policy, input: Event, n: nat)
    requires |p.queries| == |p.layers| && 0 < n <= |p.layers| && PartsOf(p, input, n).Ok?
    ensures PartsOf(p, input, n).value != []
  {
    var reply := p.queries[n - 1](input);
    if reply.Parts? && reply.parts != [] {
      CheckedMeans(p, p.layers[n - 1], reply.parts, |reply.parts|);
    }
  }

  /** What is answered when facts are in force is not the denial for a missing fact. */
  lemma AnswersBeyondFacts(p: Policy, c: Event, r: Result<Explanation, string>)
    requires p.Lawful() && |p.layers| > 0 && FactsInForce(p, c) && AnswersCanonical(p, c, r) && r.Ok?
    ensures r.value.rules != []
  {
    hide Admitted, FactsInForce;
    LayersAnswer(p, Shown(p, c), |p.layers|);
    var parts := PartsOf(p, Shown(p, c), |p.layers|).value;
    var x :| Explained(p, c, parts, x) && r == Published(p, c, x);
    assert |multiset(x.rules)| == |x.rules| && |multiset(parts)| == |parts|;
  }

  /**
   Exactly when undeclared facts do influence the answer: they make one of two events refused, or
   neither is and they make one of them repeat a fact id while the declared facts are in force.
   */
  lemma InterferenceExactly(
      p: Policy, a: Event, b: Event, r: Result<Explanation, string>, s: Result<Explanation, string>)
    requires p.Lawful() && |p.layers| > 0 && p.publishable(Deny(MISSING_FACT))
    requires Alike(p, a, b) && Answers(p, a, r) && Answers(p, b, s)
    ensures var c, d := Canonical(p, a), Canonical(p, b);
            r != s <==>
            || (Refused(p, a) <==> !Refused(p, b))
            || (!Refused(p, a) && DeclaredInForce(p, c) && (UniqueIds(c.facts) <==> !UniqueIds(d.facts)))
  {
    var c, d := Canonical(p, a), Canonical(p, b);
    RefusedExactly(p, a, r);
    RefusedExactly(p, b, s);
    AlikeShown(p, a, b);
    ShownInForce(p, c);
    ShownInForce(p, d);
    hide Canonical, UniqueIds, DeclaredInForce, Shown, PartsOf, TimeForm, Alike, Policy.Lawful;
    if !Refused(p, a) && !Refused(p, b) {
      if FactsInForce(p, c) <==> FactsInForce(p, d) {
        SameAnswers(p, c, d, r, s);
      } else {
        Denied(p, c, r);
        Denied(p, d, s);
      }
    }
  }

  /** Without the facts the answer is a denial by no rule, and with them it is not. */
  lemma Denied(p: Policy, c: Event, r: Result<Explanation, string>)
    requires p.Lawful() && |p.layers| > 0 && p.publishable(Deny(MISSING_FACT))
    requires AnswersCanonical(p, c, r) && r != Err(INVALID_EVENT)
    ensures if FactsInForce(p, c) then r.Ok? ==> r.value.rules != [] else r == Ok(MissingFact(c))
  {
    if FactsInForce(p, c) && r.Ok? { AnswersBeyondFacts(p, c, r); }
    hide Admitted, FactsInForce, TimeForm, PartsOf;
  }

  /** An event with one more fact from an undeclared source. */
  ghost predicate Adds(p: Policy, e: Event, f: Fact, more: Event) {
    more == e.(facts := e.facts + [f]) && p.unicode.nfc(f.source) !in p.sources
  }

  lemma AddedAlike(p: Policy, e: Event, f: Fact, more: Event)
    requires Adds(p, e, f, more)
    ensures Alike(p, e, more)
  {
    assert more.facts[..|more.facts| - 1] == e.facts;
  }

  /** So one such fact that repeats an id, as NFC writes it, turns the answer into a denial. */
  lemma RepeatedIdDenies(
      p: Policy, e: Event, i: nat, f: Fact, more: Event, r: Result<Explanation, string>, s: Result<Explanation, string>)
    requires p.Lawful() && |p.layers| > 0 && p.publishable(Deny(MISSING_FACT))
    requires Adds(p, e, f, more) && i < |e.facts| && p.unicode.nfc(f.id) == p.unicode.nfc(e.facts[i].id)
    requires FactsInForce(p, Canonical(p, e)) && Admitted(p, more) && Admitted(p, Canonical(p, more))
    requires Answers(p, e, r) && Answers(p, more, s)
    ensures Alike(p, e, more) && r != s && s == Ok(MissingFact(Canonical(p, more)))
  {
    AddedAlike(p, e, f, more);
    var c, d := Canonical(p, e), Canonical(p, more);
    assert d.facts[i].id == d.facts[|e.facts|].id;
    hide Admitted, Canonical, DeclaredInForce, Answers, Alike;
    assert !Refused(p, more) && !FactsInForce(p, d);
    InterferenceExactly(p, e, more, r, s);
    AnswersAdmitted(p, more, s);
    RefusedExactly(p, more, s);
    Denied(p, d, s);
  }

  lemma AnswersAdmitted(p: Policy, e: Event, r: Result<Explanation, string>)
    requires |p.queries| == |p.layers| && Answers(p, e, r) && Admitted(p, e)
    ensures AnswersCanonical(p, Canonical(p, e), r)
  {
  }

  /**
   And one such fact with a unique id, whose text the schema admits as it is but not in NFC,
   makes the event refused wherever queries do not fail.
   */
  lemma LongerInNfcRefused(
      p: Policy, e: Event, f: Fact, more: Event, r: Result<Explanation, string>, s: Result<Explanation, string>)
    requires p.Lawful() && Adds(p, e, f, more) && Admitted(p, more) && !FormFits(p, f)
    requires !Refused(p, e) && Queried(p, Canonical(p, e))
    requires Answers(p, e, r) && Answers(p, more, s)
    ensures Alike(p, e, more) && r != s && s == Err(INVALID_EVENT)
  {
    AddedAlike(p, e, f, more);
    AlikeShown(p, e, more);
    AdmittedAgain(p, more);
    assert more.facts[|e.facts|] == f;
    hide Admitted, Canonical, FormFits, Answers, FactsInForce, Shown;
    assert Refused(p, more);
    RefusedExactly(p, e, r);
    RefusedExactly(p, more, s);
  }

  /** Such a text: two hundred letters QA, within the 256 characters of the schema, are 400 in NFC. */
  lemma LetterQaRefused(
      p: Policy, e: Event, f: Fact, more: Event, r: Result<Explanation, string>, s: Result<Explanation, string>)
    requires p.Lawful() && Adds(p, e, f, more) && Admitted(p, more) && f.valueRef == JsonText.QAS
    requires !Refused(p, e) && Queried(p, Canonical(p, e))
    requires Answers(p, e, r) && Answers(p, more, s)
    ensures |f.valueRef| <= MAX_TEXT < |p.unicode.nfc(f.valueRef)|
    ensures r != s && s == Err(INVALID_EVENT)
  {
    assert p.unicode.Lawful();
    hide Admitted, Refused, Queried, Answers, Policy.Lawful;
    assert !FormFits(p, f);
    LongerInNfcRefused(p, e, f, more, r, s);
  }

  // ----- What an answer means -----

  lemma {:induction false} LayersContribute(p: Policy, input: Event, n: nat, k: nat)
    requires k < n <= |p.layers| && |p.queries| == |p.layers| && PartsOf(p, input, n).Ok?
    ensures LayerParts(p, p.layers[k], p.queries[k](input)).Ok?
    ensures forall part :: part in LayerParts(p, p.layers[k], p.queries[k](input)).value ==>
              part in PartsOf(p, input, n).value
  {
    if k < n - 1 {
      LayersContribute(p, input, n - 1, k);
    }
  }

  /** What is published when facts are in force explains the contributions of the layers. */
  lemma AnswerExplains(p: Policy, e: Event, r: Result<Explanation, string>) returns (parts: seq<Contribution>)
    requires p.Lawful() && FactsInForce(p, Canonical(p, e)) && Answers(p, e, r) && r.Ok?
    ensures PartsOf(p, Shown(p, Canonical(p, e)), |p.layers|) == Ok(parts)
    ensures Explained(p, Canonical(p, e), parts, r.value)
  {
    hide Admitted, Canonical, FactsInForce, Explained;
    parts := PartsOf(p, Shown(p, Canonical(p, e)), |p.layers|).value;
  }

  /** A layer that says nothing denies: no layer can be skipped. */
  lemma SilentLayerDenies(p: Policy, e: Event, k: nat, r: Result<Explanation, string>)
    requires p.Lawful() && FactsInForce(p, Canonical(p, e)) && Answers(p, e, r) && r.Ok?
    requires k < |p.layers| && p.queries[k](Shown(p, Canonical(p, e))) == Parts([])
    ensures r.value.decision.outcome == "deny"
  {
    var parts := AnswerExplains(p, e, r);
    hide Admitted, Canonical, FactsInForce, Answers, PartsOf;
    LayersContribute(p, Shown(p, Canonical(p, e)), |p.layers|, k);
    assert Silent(p.layers[k]) in PartSet(parts);
    assert Undecided(Silent(p.layers[k]));
    assert CompositionLaws.SomeUnusable(p.codec, PartSet(parts));
    CompositionLaws.DeniesExactly(p.codec, PartSet(parts), r.value.decision);
  }

  /** Every published obligation is traced to the rules that carry it, named by layer and rule id, in order. */
  lemma ObligationsTraced(p: Policy, e: Event, r: Result<Explanation, string>, i: nat)
    requires p.Lawful() && FactsInForce(p, Canonical(p, e)) && Answers(p, e, r) && r.Ok?
    requires i < |r.value.decision.obligations|
    ensures var o := r.value.decision.obligations[i];
            && o.id in r.value.provenance && r.value.provenance[o.id] != []
            && StrictlyAscending(r.value.provenance[o.id])
            && forall s :: s in r.value.provenance[o.id] <==>
                 exists part, k :: part in r.value.rules && 0 <= k < |part.List()| && part.List()[k].id == o.id
                   && s == part.layer + (":" + part.ruleId)
  {
    hide Admitted, Canonical, FactsInForce, Answers, PartsOf, Decides, Carries, Reference, StrictlyAscending;
    var parts := AnswerExplains(p, e, r);
    var x := r.value;
    SameElements(x.rules, parts);
    var o := x.decision.obligations[i];
    var part := MergedFrom(p.codec, PartSet(parts), x.decision, o);
    assert Reference(part) in References(PartSet(parts), o.id);
    forall s
      ensures s in x.provenance[o.id] <==>
              exists part, k :: part in x.rules && 0 <= k < |part.List()| && part.List()[k].id == o.id
                && s == part.layer + (":" + part.ruleId)
    {
      assert s in x.provenance[o.id] <==> s in References(PartSet(parts), o.id);
      ReferencesMean(x.rules, parts, o.id, s);
    }
  }

  lemma ReferencesMean(rules: seq<Contribution>, parts: seq<Contribution>, id: string, s: string)
    requires forall part :: part in rules <==> part in parts
    ensures s in References(PartSet(parts), id) <==>
            exists part, k :: part in rules && 0 <= k < |part.List()| && part.List()[k].id == id
              && s == part.layer + (":" + part.ruleId)
  {
    if s in References(PartSet(parts), id) {
      var part :| part in PartSet(parts) && Carries(part, id) && Reference(part) == s;
      var k :| 0 <= k < |part.List()| && part.List()[k].id == id;
      assert part in rules && s == part.layer + (":" + part.ruleId);
    }
    if part, k :| part in rules && 0 <= k < |part.List()| && part.List()[k].id == id
                  && s == part.layer + (":" + part.ruleId) {
      assert part in PartSet(parts) && Carries(part, id) && Reference(part) == s;
    }
  }

  lemma MergedFrom(c: Codec, parts: set<Contribution>, d: Decision, o: Obligation) returns (part: Contribution)
    requires c.Separates(parts) && Decides(c, parts, d) && o in d.obligations
    ensures part in parts && Carries(part, o.id)
  {
    var list :| IsMergedList(parts, list) && d == Combined(parts, list);
    assert o in Merged(parts);
    part :| part in parts && o in Carried(part);
    var i :| 0 <= i < |part.List()| && Sorted(part.List()[i]) == o;
    assert part.List()[i].id == o.id;
  }
}
