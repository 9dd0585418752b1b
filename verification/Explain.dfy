/** Evaluation of one event: declared facts, layer by layer queries, and the merged explanation. */
module Explain {
  import opened Wrappers
  import opened Ordering
  import opened ByteOrder
  import opened Obligations
  import opened Composition
  import CompositionLaws
  import JsonText
  import Timestamps

  const MISSING_FACT := "missing_fact"
  const INVALID_EVENT := "ng.policy.invalid_event"
  const EVALUATION_FAILED := "ng.policy.evaluation_failed"
  const INVALID_DECISION := "ng.policy.invalid_decision"
  const UNKNOWN_REASON := "ng.policy.unknown_reason"
  const MAX_PARTS: nat := 1024
  const MAX_TEXT: nat := 256

  /** rest stands for the version, the digest of the value and the extensions. */
  datatype Fact = Fact(
    id: string,
    source: string,
    revision: string,
    valueRef: string,
    resolvedAt: string,
    expiresAt: string,
    rest: string)

  /** rest stands for everything but the time and the facts. */
  datatype Event = Event(occurredAt: string, facts: seq<Fact>, rest: string)

  /** What a layer's query yields: an engine error, a malformed result, or contributions. */
  datatype Reply = Failed | Malformed | Parts(parts: seq<Contribution>)

  /**
   A compiled policy. Each query is any function of the event it is shown, form is the canonical
   form of what rest stands for, admits stands for the schema clauses of an event that read more
   than the time and the texts of facts and for the size limit, and publishable for the schema
   clauses a final decision must meet.
   */
  datatype Policy = Policy(
    sources: seq<string>,
    reasons: set<string>,
    layers: seq<string>,
    queries: seq<Event -> Reply>,
    codec: Codec,
    unicode: JsonText.Unicode,
    form: string -> string,
    admits: Event -> bool,
    publishable: Decision -> bool)
  {
    /** Layers are distinct and in their fixed order, each with a query; texts tell contributions apart. */
    ghost predicate Lawful() {
      && |queries| == |layers|
      && (forall i :: 0 <= i < |layers| ==> IsLayer(layers[i]))
      && (forall i, j :: 0 <= i < j < |layers| ==> LayerIndex(layers[i]) < LayerIndex(layers[j]))
      && (forall parts :: codec.Separates(parts))
      && unicode.Lawful()
    }
  }

  /** evaluatedAt is the time that the decision carries. */
  datatype Explanation = Explanation(
    decision: Decision,
    evaluatedAt: string,
    rules: seq<Contribution>,
    provenance: map<string, seq<string>>)

  // ----- The canonical event -----

  /** A text of a fact that the schema and the decoder admit. */
  predicate TextOk(p: Policy, t: string) {
    1 <= |t| <= MAX_TEXT && p.unicode.marksOk(t)
  }

  predicate FactOk(p: Policy, f: Fact) {
    && TextOk(p, f.id) && TextOk(p, f.source) && TextOk(p, f.revision) && TextOk(p, f.valueRef)
    && Timestamps.Stamp(f.resolvedAt).Some? && Timestamps.Stamp(f.expiresAt).Some?
  }

  /** The event is valid and can be brought into canonical form. */
  predicate Admitted(p: Policy, e: Event) {
    && Timestamps.Stamp(e.occurredAt).Some? && p.admits(e)
    && forall i :: 0 <= i < |e.facts| ==> FactOk(p, e.facts[i])
  }

  function TimeForm(t: string): string {
    if Timestamps.Stamp(t).Some? then Timestamps.Stamp(t).value else t
  }

  function FactForm(p: Policy, f: Fact): Fact {
    Fact(p.unicode.nfc(f.id), p.unicode.nfc(f.source), p.unicode.nfc(f.revision), p.unicode.nfc(f.valueRef),
         TimeForm(f.resolvedAt), TimeForm(f.expiresAt), p.form(f.rest))
  }

  function FactForms(p: Policy, facts: seq<Fact>): seq<Fact> {
    seq(|facts|, i requires 0 <= i < |facts| => FactForm(p, facts[i]))
  }

  /** Texts in NFC, times in UTC. */
  function Canonical(p: Policy, e: Event): Event {
    Event(TimeForm(e.occurredAt), FactForms(p, e.facts), p.form(e.rest))
  }

  /** Validation, then the canonical form. */
  method CanonicalEvent(p: Policy, e: Event) returns (r: Result<Event, string>)
    ensures r == if Admitted(p, e) then Ok(Canonical(p, e)) else Err(INVALID_EVENT)
  {
    hide FactOk, FactForm, TimeForm, Timestamps.Stamp;
    if Timestamps.Stamp(e.occurredAt).None? || !p.admits(e) {
      return Err(INVALID_EVENT);
    }
    for i := 0 to |e.facts|
      invariant forall j :: 0 <= j < i ==> FactOk(p, e.facts[j])
    {
      if !FactOk(p, e.facts[i]) {
        return Err(INVALID_EVENT);
      }
    }
    var facts := e.facts;
    for i := 0 to |facts|
      invariant |facts| == |e.facts|
      invariant forall j :: 0 <= j < |facts| ==> facts[j] == if j < i then FactForm(p, e.facts[j]) else e.facts[j]
    {
      facts := facts[i := FactForm(p, facts[i])];
    }
    assert facts == FactForms(p, e.facts);
    return Ok(Event(TimeForm(e.occurredAt), facts, p.form(e.rest)));
  }

  lemma TimeFormTwice(t: string)
    ensures TimeForm(TimeForm(t)) == TimeForm(t)
    ensures Timestamps.Stamp(t).Some? ==> Timestamps.Stamp(TimeForm(t)).Some?
  {
    if Timestamps.Stamp(t).Some? { Timestamps.StampIdempotent(t); }
    hide Timestamps.Stamp;
  }

  /** The texts of a fact stay within the schema when NFC makes them longer or shorter. */
  predicate FormFits(p: Policy, f: Fact) {
    && 1 <= |p.unicode.nfc(f.id)| <= MAX_TEXT && 1 <= |p.unicode.nfc(f.source)| <= MAX_TEXT
    && 1 <= |p.unicode.nfc(f.revision)| <= MAX_TEXT && 1 <= |p.unicode.nfc(f.valueRef)| <= MAX_TEXT
  }

  lemma FormOk(p: Policy, f: Fact)
    requires p.Lawful() && FactOk(p, f)
    ensures FactOk(p, FactForm(p, f)) <==> FormFits(p, f)
  {
    TimeFormTwice(f.resolvedAt);
    TimeFormTwice(f.expiresAt);
    hide TimeForm, Timestamps.Stamp;
  }

  /**
   A valid event need not be valid in canonical form: it is exactly when each text of its facts
   is within the length limits in NFC too, and the clauses that are not spelled out admit it.
   */
  lemma AdmittedAgain(p: Policy, e: Event)
    requires p.Lawful() && Admitted(p, e)
    ensures Admitted(p, Canonical(p, e)) <==>
            p.admits(Canonical(p, e)) && forall i :: 0 <= i < |e.facts| ==> FormFits(p, e.facts[i])
  {
    TimeFormTwice(e.occurredAt);
    hide FactOk, FactForm, FormFits, TimeForm, Timestamps.Stamp;
    var c := Canonical(p, e);
    forall i | 0 <= i < |e.facts|
      ensures FactOk(p, c.facts[i]) <==> FormFits(p, e.facts[i])
    {
      FormOk(p, e.facts[i]);
    }
  }

  // ----- Facts -----

  ghost predicate UniqueIds(facts: seq<Fact>) {
    forall i, j :: 0 <= i < j < |facts| ==> facts[i].id != facts[j].id
  }

  /** The fact is in force at the given instant: from its resolution until before its expiry. */
  predicate InForce(f: Fact, at: int) {
    var start, end := Timestamps.Nanoseconds(f.resolvedAt), Timestamps.Nanoseconds(f.expiresAt);
    start.Some? && end.Some? && start.value <= at < end.value
  }

  ghost predicate Supplies(facts: seq<Fact>, source: string, at: int) {
    exists i :: 0 <= i < |facts| && facts[i].source == source && InForce(facts[i], at)
  }

  /** Every declared source has a fact in force. */
  ghost predicate DeclaredInForce(p: Policy, e: Event) {
    && Timestamps.Nanoseconds(e.occurredAt).Some?
    && forall s :: s in p.sources ==> Supplies(e.facts, s, Timestamps.Nanoseconds(e.occurredAt).value)
  }

  /** Every declared source has a fact in force, and no fact id is repeated. */
  ghost predicate FactsInForce(p: Policy, e: Event) {
    UniqueIds(e.facts) && DeclaredInForce(p, e)
  }

  method FactsPresent(p: Policy, e: Event) returns (ok: bool)
    ensures ok <==> FactsInForce(p, e)
  {
    hide InForce, Timestamps.Nanoseconds;
    if Timestamps.Nanoseconds(e.occurredAt).None? {
      return false;
    }
    var at := Timestamps.Nanoseconds(e.occurredAt).value;
    var valid: set<string> := {};
    var seen: set<string> := {};
    for i := 0 to |e.facts|
      invariant UniqueIds(e.facts[..i])
      invariant forall id :: id in seen <==> exists j :: 0 <= j < i && e.facts[j].id == id
      invariant forall s :: s in valid <==>
        exists j :: 0 <= j < i && e.facts[j].source == s && InForce(e.facts[j], at)
    {
      var f := e.facts[i];
      if f.id in seen {
        return false;
      }
      seen := seen + {f.id};
      if InForce(f, at) {
        valid := valid + {f.source};
      }
    }
    assert e.facts[..|e.facts|] == e.facts;
    for i := 0 to |p.sources|
      invariant forall k :: 0 <= k < i ==> p.sources[k] in valid
    {
      if p.sources[i] !in valid {
        assert !Supplies(e.facts, p.sources[i], at);
        return false;
      }
    }
    assert forall s :: s in p.sources ==> Supplies(e.facts, s, at);
    return true;
  }

  /** The facts from declared sources, in order. */
  function Visible(sources: seq<string>, facts: seq<Fact>): seq<Fact> {
    if facts == [] then [] else
      Visible(sources, facts[..|facts| - 1]) +
      if facts[|facts| - 1].source in sources then [facts[|facts| - 1]] else []
  }

  lemma {:induction false} VisibleMeans(sources: seq<string>, facts: seq<Fact>, f: Fact)
    ensures f in Visible(sources, facts) <==> f in facts && f.source in sources
  {
    if facts != [] {
      VisibleMeans(sources, facts[..|facts| - 1], f);
      assert facts == facts[..|facts| - 1] + [facts[|facts| - 1]];
    }
  }

  /** What a query is shown: undeclared facts are removed from the input. */
  function Shown(p: Policy, e: Event): Event {
    e.(facts := Visible(p.sources, e.facts))
  }

  method Filter(p: Policy, e: Event) returns (input: Event)
    ensures input == Shown(p, e)
  {
    var visible: seq<Fact> := [];
    for i := 0 to |e.facts|
      invariant visible == Visible(p.sources, e.facts[..i])
    {
      assert e.facts[..i + 1][..i] == e.facts[..i];
      if e.facts[i].source in p.sources {
        visible := visible + [e.facts[i]];
      }
    }
    assert e.facts[..|e.facts|] == e.facts;
    return e.(facts := visible);
  }

  // ----- Layers -----

  function LayerIndex(layer: string): nat {
    if layer == "baseline" then 0
    else if layer == "organization" then 1
    else if layer == "tenant" then 2
    else if layer == "application" then 3
    else 4
  }

  /** A layer without contributions contributes an undecided part. */
  function Silent(layer: string): Contribution {
    Contribution(layer, "", "", [], None)
  }

  predicate KnownReasons(p: Policy, item: Contribution) {
    forall i :: 0 <= i < |item.reasons| ==> item.reasons[i] in p.reasons
  }

  predicate NewRule(parts: seq<Contribution>, n: nat)
    requires n < |parts|
  {
    forall k :: 0 <= k < n ==> parts[k].ruleId != parts[n].ruleId
  }

  /** The first n contributions of a layer, checked in order and marked with the layer. */
  function Checked(p: Policy, layer: string, parts: seq<Contribution>, n: nat): Result<seq<Contribution>, string>
    requires n <= |parts|
  {
    if n == 0 then Ok([]) else
      match Checked(p, layer, parts, n - 1)
      case Err(code) => Err(code)
      case Ok(done) =>
        var item := parts[n - 1];
        if item.layer != "" || !NewRule(parts, n - 1) then Err(INVALID_DECISION)
        else if !KnownReasons(p, item) then Err(UNKNOWN_REASON)
        else Ok(done + [item.(layer := layer)])
  }

  /** A layer is accepted when no contribution names a layer, rule ids are distinct and reasons are known. */
  lemma {:induction false} CheckedMeans(p: Policy, layer: string, parts: seq<Contribution>, n: nat)
    requires n <= |parts|
    ensures Checked(p, layer, parts, n).Ok? <==>
            forall i :: 0 <= i < n ==> parts[i].layer == "" && NewRule(parts, i) && KnownReasons(p, parts[i])
    ensures Checked(p, layer, parts, n).Ok? ==>
            var done := Checked(p, layer, parts, n).value;
            |done| == n && forall i :: 0 <= i < n ==> done[i] == parts[i].(layer := layer)
  {
    if n > 0 {
      CheckedMeans(p, layer, parts, n - 1);
    }
  }

  function LayerParts(p: Policy, layer: string, reply: Reply): Result<seq<Contribution>, string> {
    match reply
    case Failed => Err(EVALUATION_FAILED)
    case Malformed => Err(INVALID_DECISION)
    case Parts(parts) =>
      if |parts| > MAX_PARTS then Err(INVALID_DECISION)
      else if parts == [] then Ok([Silent(layer)])
      else Checked(p, layer, parts, |parts|)
  }

  /** The contributions of the first n layers to the given input, or the first failure. */
  function PartsOf(p: Policy, input: Event, n: nat): Result<seq<Contribution>, string>
    requires n <= |p.layers| && |p.queries| == |p.layers|
  {
    if n == 0 then Ok([]) else
      match PartsOf(p, input, n - 1)
      case Err(code) => Err(code)
      case Ok(done) =>
        match LayerParts(p, p.layers[n - 1], p.queries[n - 1](input))
        case Err(code) => Err(code)
        case Ok(more) => Ok(done + more)
  }

  method CheckLayer(p: Policy, layer: string, reply: Reply) returns (r: Result<seq<Contribution>, string>)
    ensures r == LayerParts(p, layer, reply)
  {
    if reply.Failed? {
      return Err(EVALUATION_FAILED);
    }
    if reply.Malformed? || |reply.parts| > MAX_PARTS {
      return Err(INVALID_DECISION);
    }
    var parts := reply.parts;
    if |parts| == 0 {
      return Ok([Silent(layer)]);
    }
    var done: seq<Contribution> := [];
    var seen: set<string> := {};
    for j := 0 to |parts|
      invariant Checked(p, layer, parts, j) == Ok(done)
      invariant forall id :: id in seen <==> exists k :: 0 <= k < j && parts[k].ruleId == id
    {
      if parts[j].layer != "" || parts[j].ruleId in seen {
        FailureStays(p, layer, parts, j + 1);
        return Err(INVALID_DECISION);
      }
      seen := seen + {parts[j].ruleId};
      var known := KnowsReasons(p, parts[j]);
      if !known {
        FailureStays(p, layer, parts, j + 1);
        return Err(UNKNOWN_REASON);
      }
      done := done + [parts[j].(layer := layer)];
    }
    return Ok(done);
  }

  method KnowsReasons(p: Policy, item: Contribution) returns (known: bool)
    ensures known <==> KnownReasons(p, item)
  {
    for i := 0 to |item.reasons|
      invariant forall k :: 0 <= k < i ==> item.reasons[k] in p.reasons
    {
      if item.reasons[i] !in p.reasons {
        return false;
      }
    }
    return true;
  }

  lemma {:induction false} FailureStays(p: Policy, layer: string, parts: seq<Contribution>, n: nat)
    requires n <= |parts| && Checked(p, layer, parts, n).Err?
    ensures Checked(p, layer, parts, |parts|) == Checked(p, layer, parts, n)
    decreases |parts| - n
  {
    if n < |parts| {
      FailureStays(p, layer, parts, n + 1);
    }
  }

  lemma {:induction false} FailingLayer(p: Policy, input: Event, n: nat)
    requires n <= |p.layers| && |p.queries| == |p.layers| && PartsOf(p, input, n).Err?
    ensures PartsOf(p, input, |p.layers|) == PartsOf(p, input, n)
    decreases |p.layers| - n
  {
    if n < |p.layers| {
      FailingLayer(p, input, n + 1);
    }
  }

  method QueryLayers(p: Policy, input: Event) returns (r: Result<seq<Contribution>, string>)
    requires |p.queries| == |p.layers|
    ensures r == PartsOf(p, input, |p.layers|)
  {
    var parts: seq<Contribution> := [];
    for i := 0 to |p.layers|
      invariant PartsOf(p, input, i) == Ok(parts)
    {
      var reply := p.queries[i](input);
      var more := CheckLayer(p, p.layers[i], reply);
      if more.Err? {
        FailingLayer(p, input, i + 1);
        return Err(more.error);
      }
      parts := parts + more.value;
    }
    return Ok(parts);
  }

  // ----- The explanation -----

  /** Orders rules by layer, then by rule id. */
  function RuleKey(part: Contribution): string {
    [('0' as int + LayerIndex(part.layer)) as char] + part.ruleId
  }

  function Reference(part: Contribution): string {
    part.layer + (":" + part.ruleId)
  }

  ghost predicate Carries(part: Contribution, id: string) {
    exists i :: 0 <= i < |part.List()| && part.List()[i].id == id
  }

  ghost function References(parts: set<Contribution>, id: string): set<string> {
    set part | part in parts && Carries(part, id) :: Reference(part)
  }

  /** Each carried obligation id is traced to exactly the rules that carry it. */
  ghost predicate Traces(parts: set<Contribution>, provenance: map<string, seq<string>>) {
    && (forall id :: id in provenance <==> exists part :: part in parts && Carries(part, id))
    && (forall id :: id in provenance ==> provenance[id] == Ascending(References(parts, id)))
  }

  ghost predicate Explained(p: Policy, c: Event, parts: seq<Contribution>, x: Explanation) {
    && Decides(p.codec, PartSet(parts), x.decision)
    && x.evaluatedAt == TimeForm(c.occurredAt)
    && multiset(x.rules) == multiset(parts) && SortedBy(RuleKey, x.rules)
    && Traces(PartSet(parts), x.provenance)
  }

  /**
   A decision is built from the canonical event, which is validated and brought into canonical
   form once more, and must meet its own schema.
   */
  function Published(p: Policy, c: Event, x: Explanation): Result<Explanation, string> {
    if !Admitted(p, c) then Err(INVALID_EVENT)
    else if p.publishable(x.decision) then Ok(x)
    else Err(INVALID_DECISION)
  }

  function MissingFact(c: Event): Explanation {
    Explanation(Deny(MISSING_FACT), TimeForm(c.occurredAt), [], map[])
  }

  /** What the evaluation of a canonical event answers. */
  ghost predicate AnswersCanonical(p: Policy, c: Event, r: Result<Explanation, string>)
    requires |p.queries| == |p.layers|
  {
    if !FactsInForce(p, c) then r == Published(p, c, MissingFact(c))
    else match PartsOf(p, Shown(p, c), |p.layers|)
      case Err(code) => r == Err(code)
      case Ok(parts) => exists x :: Explained(p, c, parts, x) && r == Published(p, c, x)
  }

  /** What an evaluation answers. */
  ghost predicate Answers(p: Policy, e: Event, r: Result<Explanation, string>)
    requires |p.queries| == |p.layers|
  {
    if Admitted(p, e) then AnswersCanonical(p, Canonical(p, e), r) else r == Err(INVALID_EVENT)
  }

  /** Collected references, before they are sorted. */
  ghost predicate Collected(parts: set<Contribution>, refs: map<string, seq<string>>) {
    && (forall id :: id in refs <==> exists part :: part in parts && Carries(part, id))
    && (forall id :: id in refs ==> (set s | s in refs[id]) == References(parts, id))
  }

  ghost predicate CarriesUpTo(part: Contribution, n: nat, id: string)
    requires n <= |part.List()|
  {
    exists i :: 0 <= i < n && part.List()[i].id == id
  }

  ghost predicate CollectedUpTo(parts: set<Contribution>, part: Contribution, n: nat, refs: map<string, seq<string>>)
    requires n <= |part.List()|
  {
    && (forall id :: id in refs <==> CarriesUpTo(part, n, id) || exists q :: q in parts && Carries(q, id))
    && (forall id :: id in refs ==>
          (set s | s in refs[id]) == References(parts, id) + if CarriesUpTo(part, n, id) then {Reference(part)} else {})
  }

  method AddReferences(ghost parts: set<Contribution>, part: Contribution, refs: map<string, seq<string>>)
    returns (r: map<string, seq<string>>)
    requires Collected(parts, refs)
    ensures Collected(parts + {part}, r)
  {
    r := refs;
    var list := part.List();
    for i := 0 to |list|
      invariant CollectedUpTo(parts, part, i, r)
    {
      var id := list[i].id;
      ReferenceStep(parts, part, i, r);
      r := r[id := (if id in r then r[id] else []) + [Reference(part)]];
    }
    ReferencesOver(parts, part, r);
  }

  lemma ReferenceStep(parts: set<Contribution>, part: Contribution, i: nat, refs: map<string, seq<string>>)
    requires i < |part.List()| && CollectedUpTo(parts, part, i, refs)
    ensures var id := part.List()[i].id;
            CollectedUpTo(parts, part, i + 1, refs[id := (if id in refs then refs[id] else []) + [Reference(part)]])
  {
    var id := part.List()[i].id;
    forall k
      ensures CarriesUpTo(part, i + 1, k) <==> CarriesUpTo(part, i, k) || k == id
    {
    }
    if id !in refs {
      NotCarried(parts, id);
    }
    hide References, CarriesUpTo, Carries, Reference;
    AppendedSet(if id in refs then refs[id] else [], Reference(part));
  }

  lemma AppendedSet(refs: seq<string>, s: string)
    ensures (set x | x in refs + [s]) == (set x | x in refs) + {s}
  {
  }

  lemma NotCarried(parts: set<Contribution>, id: string)
    requires !exists q :: q in parts && Carries(q, id)
    ensures References(parts, id) == {}
  {
  }

  lemma ReferencesMore(parts: set<Contribution>, part: Contribution, id: string)
    ensures References(parts + {part}, id) ==
            References(parts, id) + if Carries(part, id) then {Reference(part)} else {}
  {
    hide Carries, Reference;
  }

  lemma CarriesAll(part: Contribution, id: string)
    ensures CarriesUpTo(part, |part.List()|, id) <==> Carries(part, id)
  {
  }

  lemma ReferencesOver(parts: set<Contribution>, part: Contribution, refs: map<string, seq<string>>)
    requires CollectedUpTo(parts, part, |part.List()|, refs)
    ensures Collected(parts + {part}, refs)
  {
    forall id
      ensures CarriesUpTo(part, |part.List()|, id) <==> Carries(part, id)
      ensures References(parts + {part}, id) ==
              References(parts, id) + if Carries(part, id) then {Reference(part)} else {}
    {
      ReferencesMore(parts, part, id);
      CarriesAll(part, id);
    }
    hide References, CarriesUpTo, Carries;
  }

  method CollectReferences(rules: seq<Contribution>) returns (refs: map<string, seq<string>>)
    ensures Collected(PartSet(rules), refs)
  {
    hide References, Carries;
    refs := map[];
    for i := 0 to |rules|
      invariant Collected(PartSet(rules[..i]), refs)
    {
      refs := AddReferences(PartSet(rules[..i]), rules[i], refs);
      PartSetStep(rules, i);
    }
    assert rules[..|rules|] == rules;
  }

  method SortReferences(refs: map<string, seq<string>>) returns (sorted: map<string, seq<string>>)
    ensures sorted.Keys == refs.Keys
    ensures forall id :: id in refs ==> sorted[id] == Ascending(set s | s in refs[id])
  {
    hide StrictlyAscending, Less;
    sorted := map[];
    var todo := refs.Keys;
    while todo != {}
      invariant todo <= refs.Keys && sorted.Keys == refs.Keys - todo
      invariant forall id :: id in sorted ==> sorted[id] == Ascending(set s | s in refs[id])
    {
      var id :| id in todo;
      var list := SortCompact(refs[id]);
      sorted := sorted[id := list];
      todo := todo - {id};
    }
  }

  method Provenance(rules: seq<Contribution>) returns (provenance: map<string, seq<string>>)
    ensures Traces(PartSet(rules), provenance)
  {
    hide References, Carries, Ascending, StrictlyAscending, Less;
    var refs := CollectReferences(rules);
    provenance := SortReferences(refs);
  }

  /** The time of the decision, if it can be published. */
  method Decide(p: Policy, c: Event, d: Decision) returns (at: Result<string, string>)
    ensures forall x: Explanation :: x.decision == d ==>
              match at
              case Ok(time) => time == TimeForm(c.occurredAt) && Published(p, c, x) == Ok(x)
              case Err(code) => Published(p, c, x) == Err(code)
  {
    hide Admitted, Canonical;
    var again := CanonicalEvent(p, c);
    if again.Err? {
      return Err(again.error);
    }
    if !p.publishable(d) {
      return Err(INVALID_DECISION);
    }
    CanonicalTime(p, c);
    return Ok(again.value.occurredAt);
  }

  lemma CanonicalTime(p: Policy, e: Event)
    ensures Canonical(p, e).occurredAt == TimeForm(e.occurredAt)
  {
  }

  /** Order the rules, merge them, and trace every obligation. */
  method ExplainResult(p: Policy, c: Event, parts: seq<Contribution>) returns (r: Result<Explanation, string>)
    requires p.codec.Separates(PartSet(parts))
    ensures exists x :: Explained(p, c, parts, x) && r == Published(p, c, x)
  {
    hide Admitted, TimeForm;
    var rules := SortFunc(RuleKey, parts);
    SameElements(rules, parts);
    assert PartSet(rules) == PartSet(parts);
    var decision := Compose(p.codec, rules);
    var at := Decide(p, c, decision);
    var provenance := Provenance(rules);
    assert Explained(p, c, parts, Explanation(decision, TimeForm(c.occurredAt), rules, provenance));
    if at.Err? {
      return Err(at.error);
    }
    return Ok(Explanation(decision, at.value, rules, provenance));
  }

  method Evaluate(p: Policy, e: Event) returns (r: Result<Explanation, string>)
    requires p.Lawful()
    ensures Answers(p, e, r)
  {
    var canonical := CanonicalEvent(p, e);
    if canonical.Err? {
      return Err(canonical.error);
    }
    hide Admitted, Canonical, TimeForm;
    var c := canonical.value;
    var present := FactsPresent(p, c);
    if !present {
      var at := Decide(p, c, Deny(MISSING_FACT));
      assert MissingFact(c).decision == Deny(MISSING_FACT);
      return if at.Ok? then Ok(Explanation(Deny(MISSING_FACT), at.value, [], map[])) else Err(at.error);
    }
    var input := Filter(p, c);
    var parts := QueryLayers(p, input);
    if parts.Err? {
      return Err(parts.error);
    }
    r := ExplainResult(p, c, parts.value);
  }

  // ----- The answer is determined -----

  /** Where a part comes from, among the first n layers. */
  lemma {:induction false} PartsAreDistinct(p: Policy, input: Event, n: nat)
    requires p.Lawful() && n <= |p.layers| && PartsOf(p, input, n).Ok?
    ensures var parts := PartsOf(p, input, n).value;
            && (forall i :: 0 <= i < |parts| ==> exists k :: 0 <= k < n && parts[i].layer == p.layers[k])
            && (forall i, j :: 0 <= i < j < |parts| ==>
                  parts[i].layer != parts[j].layer || parts[i].ruleId != parts[j].ruleId)
  {
    if n > 0 {
      PartsAreDistinct(p, input, n - 1);
      var done := PartsOf(p, input, n - 1).value;
      var layer, reply := p.layers[n - 1], p.queries[n - 1](input);
      var more := LayerParts(p, layer, reply).value;
      LayerIsDistinct(p, layer, reply);
      var parts := done + more;
      forall i, j | 0 <= i < j < |parts|
        ensures parts[i].layer != parts[j].layer || parts[i].ruleId != parts[j].ruleId
      {
        if i < |done| <= j {
          var k :| 0 <= k < n - 1 && parts[i].layer == p.layers[k];
          assert LayerIndex(p.layers[k]) < LayerIndex(layer);
        }
      }
    }
  }

  lemma LayerIsDistinct(p: Policy, layer: string, reply: Reply)
    requires LayerParts(p, layer, reply).Ok?
    ensures var more := LayerParts(p, layer, reply).value;
            && (forall i :: 0 <= i < |more| ==> more[i].layer == layer)
            && (forall i, j :: 0 <= i < j < |more| ==> more[i].ruleId != more[j].ruleId)
  {
    if reply.parts != [] {
      CheckedMeans(p, layer, reply.parts, |reply.parts|);
    }
  }

  lemma RuleKeyInjective(a: Contribution, b: Contribution)
    requires IsLayer(a.layer) && IsLayer(b.layer) && RuleKey(a) == RuleKey(b)
    ensures a.layer == b.layer && a.ruleId == b.ruleId
  {
    assert RuleKey(a)[0] == RuleKey(b)[0];
    assert a.ruleId == RuleKey(a)[1..] && b.ruleId == RuleKey(b)[1..];
  }

  lemma TracesOnce(parts: set<Contribution>, a: map<string, seq<string>>, b: map<string, seq<string>>)
    requires Traces(parts, a) && Traces(parts, b)
    ensures a == b
  {
    assert a.Keys == b.Keys;
  }

  lemma ExplainedOnce(p: Policy, c: Event, parts: seq<Contribution>, x: Explanation, y: Explanation)
    requires p.Lawful() && PartsOf(p, Shown(p, c), |p.layers|) == Ok(parts)
    requires Explained(p, c, parts, x) && Explained(p, c, parts, y)
    ensures x == y
  {
    DecisionUnique(p.codec, PartSet(parts), x.decision, y.decision);
    TracesOnce(PartSet(parts), x.provenance, y.provenance);
    SameElements(x.rules, parts);
    RuleKeysDistinct(p, Shown(p, c), parts);
    hide RuleKey, SortedBy, Decides, Traces, PartsOf, TimeForm;
    SortedOnce(RuleKey, x.rules, y.rules);
  }

  lemma LayersKnown(p: Policy, input: Event, parts: seq<Contribution>)
    requires p.Lawful() && PartsOf(p, input, |p.layers|) == Ok(parts)
    ensures forall i :: 0 <= i < |parts| ==> IsLayer(parts[i].layer)
  {
    PartsAreDistinct(p, input, |p.layers|);
    hide PartsOf, IsLayer;
  }

  lemma RuleKeysDistinct(p: Policy, input: Event, parts: seq<Contribution>)
    requires p.Lawful() && PartsOf(p, input, |p.layers|) == Ok(parts)
    ensures forall a, b :: a in parts && b in parts && RuleKey(a) == RuleKey(b) ==> a == b
  {
    PartsAreDistinct(p, input, |p.layers|);
    LayersKnown(p, input, parts);
    hide PartsOf, IsLayer, RuleKey, Policy.Lawful;
    forall i, j | 0 <= i < |parts| && 0 <= j < |parts| && RuleKey(parts[i]) == RuleKey(parts[j])
      ensures i == j
    {
      RuleKeyInjective(parts[i], parts[j]);
    }
  }
}
