/**
 What an evaluation means for the event as it came: which facts are in force, what queries are
 shown and what becomes of their replies, and how the rules of an explanation are ordered.
 */
module ExplainMeaning {
  import opened Wrappers
  import opened Ordering
  import opened Obligations
  import opened Composition
  import opened Explain
  import Instants
  import Timestamps
  import Utf8

  // ----- Facts -----

  /** The time stamp spells an instant n nanoseconds from the epoch. */
  ghost predicate Reads(s: string, n: int) {
    exists p :: Instants.IsParts(p) && s == Instants.Spell(p) && Instants.Nanos(p) == n
  }

  lemma ReadsExactly(s: string, n: int)
    ensures Timestamps.Nanoseconds(s) == Some(n) <==> Reads(s, n)
  {
    hide Timestamps.ReadStamp, Instants.Spell, Instants.Nanos, Instants.IsParts;
    if Timestamps.Nanoseconds(s).Some? {
      var p := Instants.ReadSpelled(s);
      Instants.StampCounts(p);
      hide Timestamps.Nanoseconds;
    }
    if p :| Instants.IsParts(p) && s == Instants.Spell(p) && Instants.Nanos(p) == n {
      Instants.StampCounts(p);
    }
  }

  /** A fact counts from the instant of its resolution on, and no longer at that of its expiry. */
  lemma InForceExactly(f: Fact, at: int)
    ensures InForce(f, at) <==> exists a, b :: Reads(f.resolvedAt, a) && Reads(f.expiresAt, b) && a <= at < b
  {
    hide Timestamps.Nanoseconds, Reads;
    var start, end := Timestamps.Nanoseconds(f.resolvedAt), Timestamps.Nanoseconds(f.expiresAt);
    forall n
      ensures start == Some(n) <==> Reads(f.resolvedAt, n)
      ensures end == Some(n) <==> Reads(f.expiresAt, n)
    {
      ReadsExactly(f.resolvedAt, n);
      ReadsExactly(f.expiresAt, n);
    }
  }

  lemma TimeKept(t: string)
    ensures Timestamps.Nanoseconds(TimeForm(t)) == Timestamps.Nanoseconds(t)
  {
    hide Timestamps.Nanoseconds, Timestamps.Stamp;
    if Timestamps.Stamp(t).Some? { Timestamps.StampKeepsInstant(t); }
  }

  lemma FormInForce(p: Policy, f: Fact, at: int)
    ensures InForce(FactForm(p, f), at) <==> InForce(f, at)
  {
    hide Timestamps.Nanoseconds, TimeForm;
    TimeKept(f.resolvedAt);
    TimeKept(f.expiresAt);
  }

  /** The canonical form of an event, text by text. */
  lemma CanonicalMeans(p: Policy, e: Event, i: nat)
    requires Admitted(p, e) && i < |e.facts|
    ensures var c := Canonical(p, e);
            && |c.facts| == |e.facts| && c.rest == p.form(e.rest)
            && Timestamps.Stamp(e.occurredAt) == Some(c.occurredAt)
            && c.facts[i].id == p.unicode.nfc(e.facts[i].id) && c.facts[i].source == p.unicode.nfc(e.facts[i].source)
            && c.facts[i].revision == p.unicode.nfc(e.facts[i].revision)
            && c.facts[i].valueRef == p.unicode.nfc(e.facts[i].valueRef)
            && Timestamps.Stamp(e.facts[i].resolvedAt) == Some(c.facts[i].resolvedAt)
            && Timestamps.Stamp(e.facts[i].expiresAt) == Some(c.facts[i].expiresAt)
            && c.facts[i].rest == p.form(e.facts[i].rest)
  {
    hide Timestamps.Stamp;
    assert FactOk(p, e.facts[i]);
  }

  /** The source has a fact in the event as it came that is in force when the event occurred. */
  ghost predicate Declared(p: Policy, e: Event, source: string) {
    exists i, a, b, at ::
      && 0 <= i < |e.facts| && p.unicode.nfc(e.facts[i].source) == source && Reads(e.occurredAt, at)
      && Reads(e.facts[i].resolvedAt, a) && Reads(e.facts[i].expiresAt, b) && a <= at < b
  }

  lemma SuppliesMeans(p: Policy, e: Event, source: string, at: int)
    requires Reads(e.occurredAt, at)
    ensures Supplies(Canonical(p, e).facts, source, at) <==> Declared(p, e, source)
  {
    hide Reads, InForce, TimeForm;
    var c := Canonical(p, e);
    forall i | 0 <= i < |e.facts|
      ensures c.facts[i].source == p.unicode.nfc(e.facts[i].source)
      ensures InForce(c.facts[i], at) <==>
              exists a, b :: Reads(e.facts[i].resolvedAt, a) && Reads(e.facts[i].expiresAt, b) && a <= at < b
    {
      FormInForce(p, e.facts[i], at);
      InForceExactly(e.facts[i], at);
    }
    forall n | Reads(e.occurredAt, n)
      ensures n == at
    {
      ReadsExactly(e.occurredAt, n);
      ReadsExactly(e.occurredAt, at);
    }
    hide Canonical;
    if Supplies(c.facts, source, at) {
      var i :| 0 <= i < |c.facts| && c.facts[i].source == source && InForce(c.facts[i], at);
      var a, b :| Reads(e.facts[i].resolvedAt, a) && Reads(e.facts[i].expiresAt, b) && a <= at < b;
    }
    if Declared(p, e, source) {
      var i, a, b, n :|
        && 0 <= i < |e.facts| && p.unicode.nfc(e.facts[i].source) == source && Reads(e.occurredAt, n)
        && Reads(e.facts[i].resolvedAt, a) && Reads(e.facts[i].expiresAt, b) && a <= n < b;
      assert InForce(c.facts[i], at);
    }
  }

  /**
   An event has the facts it needs exactly when no two of its facts have one id in NFC, and each declared source
   is the NFC of the source of a fact that is in force when the event occurred.
   */
  lemma FactsExactly(p: Policy, e: Event)
    requires Admitted(p, e)
    ensures FactsInForce(p, Canonical(p, e)) <==>
            && (forall i, j :: 0 <= i < j < |e.facts| ==>
                  p.unicode.nfc(e.facts[i].id) != p.unicode.nfc(e.facts[j].id))
            && forall source :: source in p.sources ==> Declared(p, e, source)
  {
    hide Timestamps.Nanoseconds, Timestamps.Stamp, Declared, Supplies, FactOk, TimeForm, FactForm;
    var c := Canonical(p, e);
    TimeKept(e.occurredAt);
    StampReads(e.occurredAt);
    var at := Timestamps.Nanoseconds(e.occurredAt).value;
    ReadsExactly(e.occurredAt, at);
    hide Reads;
    forall source
      ensures Supplies(c.facts, source, at) <==> Declared(p, e, source)
    {
      SuppliesMeans(p, e, source, at);
    }
    forall i | 0 <= i < |e.facts|
      ensures c.facts[i].id == p.unicode.nfc(e.facts[i].id)
    {
      CanonicalMeans(p, e, i);
    }
  }

  lemma StampReads(s: string)
    requires Timestamps.Stamp(s).Some?
    ensures Timestamps.Nanoseconds(s).Some?
  {
    hide Timestamps.ReadStamp;
  }

  /** Queries see the facts of declared sources, in order. */
  lemma {:induction false} VisibleAppends(sources: seq<string>, a: seq<Fact>, b: seq<Fact>, f: Fact)
    ensures Visible(sources, a + b) == Visible(sources, a) + Visible(sources, b)
    ensures Visible(sources, []) == [] && Visible(sources, [f]) == if f.source in sources then [f] else []
  {
    assert [f][..0] == [];
    if b == [] {
      assert a + b == a;
    } else {
      var n := |b| - 1;
      assert (a + b)[..|a + b| - 1] == a + b[..n];
      VisibleAppends(sources, a, b[..n], f);
      assert Visible(sources, b) == Visible(sources, b[..n]) + if b[n].source in sources then [b[n]] else [];
    }
  }

  // ----- Replies -----

  ghost predicate ItemOk(p: Policy, parts: seq<Contribution>, i: nat)
    requires i < |parts|
  {
    && parts[i].layer == "" && (forall k :: 0 <= k < i ==> parts[k].ruleId != parts[i].ruleId)
    && forall r :: r in parts[i].reasons ==> r in p.reasons
  }

  /** At most 1024 contributions, which leave the layer open, with distinct rule ids and known reasons. */
  ghost predicate Accepted(p: Policy, reply: Reply) {
    reply.Parts? && |reply.parts| <= 1024 && forall i :: 0 <= i < |reply.parts| ==> ItemOk(p, reply.parts, i)
  }

  /** What a reply contributes for its layer; a layer without contributions is undecided. */
  ghost predicate Gives(layer: string, reply: Reply, q: Contribution) {
    reply.Parts? &&
    if reply.parts == [] then q == Contribution(layer, "", "", [], None)
    else exists k :: 0 <= k < |reply.parts| && q == reply.parts[k].(layer := layer)
  }

  /** Why a reply is refused; of several contributions the first that is wrong decides. */
  ghost predicate Refused(p: Policy, reply: Reply, code: string) {
    match reply
    case Failed => code == "ng.policy.evaluation_failed"
    case Malformed => code == "ng.policy.invalid_decision"
    case Parts(parts) =>
      if |parts| > 1024 then code == "ng.policy.invalid_decision"
      else exists k ::
        && 0 <= k < |parts| && !ItemOk(p, parts, k) && (forall j :: 0 <= j < k ==> ItemOk(p, parts, j))
        && code == if parts[k].layer != "" || (exists j :: 0 <= j < k && parts[j].ruleId == parts[k].ruleId)
                   then "ng.policy.invalid_decision" else "ng.policy.unknown_reason"
  }

  lemma ItemMeans(p: Policy, parts: seq<Contribution>, i: nat)
    requires i < |parts|
    ensures ItemOk(p, parts, i) <==> parts[i].layer == "" && NewRule(parts, i) && KnownReasons(p, parts[i])
  {
    var reasons := parts[i].reasons;
    assert KnownReasons(p, parts[i]) <==> forall r :: r in reasons ==> r in p.reasons;
  }

  lemma {:induction false} FirstWrong(p: Policy, layer: string, parts: seq<Contribution>, n: nat)
    requires n <= |parts| <= 1024 && Checked(p, layer, parts, n).Err?
    ensures Refused(p, Parts(parts), Checked(p, layer, parts, n).error)
  {
    if Checked(p, layer, parts, n - 1).Err? {
      FirstWrong(p, layer, parts, n - 1);
    } else {
      CheckedMeans(p, layer, parts, n - 1);
      forall j | 0 <= j < n
        ensures ItemOk(p, parts, j) <==> parts[j].layer == "" && NewRule(parts, j) && KnownReasons(p, parts[j])
      {
        ItemMeans(p, parts, j);
      }
      hide ItemOk, KnownReasons;
      assert !ItemOk(p, parts, n - 1) && forall j :: 0 <= j < n - 1 ==> ItemOk(p, parts, j);
    }
  }

  lemma ReplyMeans(p: Policy, layer: string, reply: Reply)
    ensures LayerParts(p, layer, reply).Ok? <==> Accepted(p, reply)
    ensures LayerParts(p, layer, reply).Ok? ==>
              forall q :: q in LayerParts(p, layer, reply).value <==> Gives(layer, reply, q)
    ensures LayerParts(p, layer, reply).Err? ==> Refused(p, reply, LayerParts(p, layer, reply).error)
  {
    if reply.Parts? && |reply.parts| <= 1024 && reply.parts != [] {
      var parts := reply.parts;
      CheckedMeans(p, layer, parts, |parts|);
      forall j | 0 <= j < |parts|
        ensures ItemOk(p, parts, j) <==> parts[j].layer == "" && NewRule(parts, j) && KnownReasons(p, parts[j])
      {
        ItemMeans(p, parts, j);
      }
      if Checked(p, layer, parts, |parts|).Err? { FirstWrong(p, layer, parts, |parts|); }
      hide ItemOk, KnownReasons, NewRule, Checked, Refused;
    }
  }

  /**
   The layers are asked in order: all replies must be accepted, and then everything they give is taken; otherwise
   the first that is refused decides.
   */
  lemma {:induction false} QueriesMean(p: Policy, input: Event, n: nat)
    requires n <= |p.layers| && |p.queries| == |p.layers|
    ensures PartsOf(p, input, n).Ok? <==> forall i :: 0 <= i < n ==> Accepted(p, p.queries[i](input))
    ensures PartsOf(p, input, n).Ok? ==>
              forall q :: q in PartsOf(p, input, n).value <==>
                exists i :: 0 <= i < n && Gives(p.layers[i], p.queries[i](input), q)
    ensures PartsOf(p, input, n).Err? ==>
              exists i :: 0 <= i < n && Refused(p, p.queries[i](input), PartsOf(p, input, n).error)
                && forall j :: 0 <= j < i ==> Accepted(p, p.queries[j](input))
  {
    if n > 0 {
      QueriesMean(p, input, n - 1);
      ReplyMeans(p, p.layers[n - 1], p.queries[n - 1](input));
      hide Accepted, Gives, Refused, LayerParts;
    }
  }

  // ----- The explanation -----

  const LAYERS := ["baseline", "organization", "tenant", "application", "local_override"]

  lemma LayerAt(layer: string) returns (k: nat)
    requires IsLayer(layer)
    ensures k < 5 && layer == LAYERS[k] && LayerIndex(layer) == k
  {
    k := LayerIndex(layer);
  }

  lemma KeyOrder(a: Contribution, b: Contribution)
    requires Less(RuleKey(a), RuleKey(b)) && IsLayer(a.layer) && IsLayer(b.layer)
    ensures LayerIndex(a.layer) < LayerIndex(b.layer) ||
            (LayerIndex(a.layer) == LayerIndex(b.layer) && Less(a.ruleId, b.ruleId))
  {
    var x, y := RuleKey(a), RuleKey(b);
    assert x[1..] == a.ruleId && y[1..] == b.ruleId;
    assert x[0] as int - '0' as int == LayerIndex(a.layer) && y[0] as int - '0' as int == LayerIndex(b.layer);
  }

  /** The rules of an explanation go from the baseline to the local override, in a layer by the bytes of their ids. */
  lemma RulesOrdered(p: Policy, c: Event, parts: seq<Contribution>, x: Explanation, i: nat, j: nat)
    requires p.Lawful() && PartsOf(p, Shown(p, c), |p.layers|) == Ok(parts) && Explained(p, c, parts, x)
    requires i < j < |x.rules|
    ensures exists a, b ::
              && 0 <= a <= b < 5 && x.rules[i].layer == LAYERS[a] && x.rules[j].layer == LAYERS[b]
              && (a == b ==> Utf8.BytesLess(Utf8.Encode(x.rules[i].ruleId), Utf8.Encode(x.rules[j].ruleId)))
  {
    var q, r := x.rules[i], x.rules[j];
    SameElements(x.rules, parts);
    LayersKnown(p, Shown(p, c), parts);
    assert q in parts && r in parts;
    RulesDiffer(p, c, parts, x, i, j);
    hide PartsOf, Explained, RuleKey, Utf8.Encode, Utf8.BytesLess, Less, Policy.Lawful, IsLayer;
    KeyOrder(q, r);
    var a := LayerAt(q.layer);
    var b := LayerAt(r.layer);
    Utf8.ByteOrderIsScalarOrder(q.ruleId, r.ruleId);
    hide LayerIndex;
  }

  lemma RulesDiffer(p: Policy, c: Event, parts: seq<Contribution>, x: Explanation, i: nat, j: nat)
    requires p.Lawful() && PartsOf(p, Shown(p, c), |p.layers|) == Ok(parts) && Explained(p, c, parts, x)
    requires i < j < |x.rules|
    ensures Less(RuleKey(x.rules[i]), RuleKey(x.rules[j]))
  {
    SameElements(x.rules, parts);
    RuleKeysDistinct(p, Shown(p, c), parts);
    PartsOnce(p, Shown(p, c), parts);
    var rules := x.rules;
    if rules[i] == rules[j] {
      CountAtLeastTwo(rules, i, j);
      assert multiset(parts)[rules[i]] >= 2;
      TwoPositions(parts, rules[i]);
      assert false;
    }
    assert SortedBy(RuleKey, rules);
    hide RuleKey, PartsOf, Traces, Decides, Less, Policy.Lawful;
    assert rules[i] in parts && rules[j] in parts;
    LessTotal(RuleKey(rules[i]), RuleKey(rules[j]));
  }

  lemma PartsOnce(p: Policy, input: Event, parts: seq<Contribution>)
    requires p.Lawful() && PartsOf(p, input, |p.layers|) == Ok(parts)
    ensures forall i, j :: 0 <= i < j < |parts| ==> parts[i] != parts[j]
  {
    PartsAreDistinct(p, input, |p.layers|);
    hide PartsOf;
  }

  /** An event without the facts it needs is denied for that, with nothing to execute and no rules. */
  lemma MissingFactAnswer(p: Policy, e: Event, r: Result<Explanation, string>)
    requires p.Lawful() && Admitted(p, e) && !FactsInForce(p, Canonical(p, e)) && Answers(p, e, r)
    ensures r.Ok? ==>
              && r.value.decision == Decision("deny", ["ng.policy.missing_fact"], [])
              && r.value.rules == [] && r.value.provenance == map[]
    ensures r.Err? ==> r.error in {"ng.policy.invalid_event", "ng.policy.invalid_decision"}
  {
    hide FactsInForce, Canonical, Admitted, MissingFact, PartsOf, Explained;
    MissingFactIs(Canonical(p, e));
  }

  lemma MissingFactIs(c: Event)
    ensures var x := MissingFact(c);
            x.decision == Decision("deny", ["ng.policy.missing_fact"], []) && x.rules == [] && x.provenance == map[]
  {
    hide TimeForm;
    assert "ng.policy." + "missing_fact" == "ng.policy.missing_fact";
  }
}
