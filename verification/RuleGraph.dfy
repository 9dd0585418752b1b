/** The graph passes over compiled rules: the longest dependency chain and reachability. */
module RuleGraph {
  import opened Wrappers

  const MAX_RULE_DEPTH: nat := 64

  type Rule = nat

  /** Rules with the rules each depends on, and the published entry points. */
  datatype Graph = Graph(deps: map<Rule, set<Rule>>, entries: set<Rule>) {
    ghost predicate Closed() {
      entries <= deps.Keys && forall r :: r in deps ==> deps[r] <= deps.Keys
    }

    ghost predicate IsChain(p: seq<Rule>) {
      && p != []
      && (forall i :: 0 <= i < |p| ==> p[i] in deps)
      && forall i :: 0 <= i < |p| - 1 ==> p[i + 1] in deps[p[i]]
    }

    /** OPA refuses recursive rules before these passes run. */
    ghost predicate Acyclic() {
      forall p :: IsChain(p) && |p| >= 2 ==> p[0] != p[|p| - 1]
    }

    /** n is the length of the longest chain that starts at r. */
    ghost predicate IsLongest(r: Rule, n: nat) {
      && (exists p :: IsChain(p) && p[0] == r && |p| == n)
      && (forall p :: IsChain(p) && p[0] == r ==> |p| <= n)
    }

    ghost predicate Reachable(r: Rule) {
      exists p :: IsChain(p) && p[0] in entries && p[|p| - 1] == r
    }
  }

  datatype Code = RuleDepth | UnreachableRule

  // ----- Chains -----

  lemma ChainStep(g: Graph, p: seq<Rule>, r: Rule)
    requires g.IsChain(p) && r in g.deps && r in g.deps[p[|p| - 1]]
    ensures g.IsChain(p + [r])
  {
  }

  lemma ChainFront(g: Graph, r: Rule, p: seq<Rule>)
    requires g.IsChain(p) && r in g.deps && p[0] in g.deps[r]
    ensures g.IsChain([r] + p)
  {
    var q := [r] + p;
    forall i | 0 <= i < |q| - 1
      ensures q[i + 1] in g.deps[q[i]]
    {
      if i > 0 { assert p[i - 1 + 1] in g.deps[p[i - 1]]; }
    }
  }

  lemma ChainTail(g: Graph, p: seq<Rule>)
    requires g.IsChain(p) && |p| >= 2
    ensures g.IsChain(p[1..]) && p[1..][0] in g.deps[p[0]]
  {
    var q := p[1..];
    forall i | 0 <= i < |q| - 1
      ensures q[i + 1] in g.deps[q[i]]
    {
      assert p[i + 1 + 1] in g.deps[p[i + 1]];
    }
    assert p[0 + 1] in g.deps[p[0]];
  }

  lemma ChainSuffix(g: Graph, p: seq<Rule>, k: nat)
    requires g.IsChain(p) && k < |p|
    ensures g.IsChain(p[k..])
  {
    var q := p[k..];
    forall i | 0 <= i < |q| - 1
      ensures q[i + 1] in g.deps[q[i]]
    {
      assert p[k + i + 1] in g.deps[p[k + i]];
    }
  }

  /** On an acyclic graph a rule is not below itself. */
  lemma NotOnPath(g: Graph, path: seq<Rule>, r: Rule)
    requires g.Acyclic() && g.IsChain(path + [r])
    ensures r !in path
  {
    if r in path {
      var k :| 0 <= k < |path| && path[k] == r;
      ChainSuffix(g, path + [r], k);
    }
  }

  /** The longest chain from r is one more than the longest from its dependencies. */
  lemma LongestStep(g: Graph, r: Rule, below: map<Rule, nat>, n: nat)
    requires g.Closed() && r in g.deps && g.deps[r] <= below.Keys
    requires forall d :: d in g.deps[r] ==> g.IsLongest(d, below[d])
    requires forall d :: d in g.deps[r] ==> 1 + below[d] <= n
    requires n == 1 || exists d :: d in g.deps[r] && n == 1 + below[d]
    ensures g.IsLongest(r, n)
  {
    if n == 1 {
      assert g.IsChain([r]) && [r][0] == r;
    } else {
      var d :| d in g.deps[r] && n == 1 + below[d];
      var p :| g.IsChain(p) && p[0] == d && |p| == below[d];
      ChainFront(g, r, p);
      assert ([r] + p)[0] == r;
    }
    forall p | g.IsChain(p) && p[0] == r
      ensures |p| <= n
    {
      if |p| >= 2 {
        ChainTail(g, p);
        assert |p[1..]| <= below[p[1]];
      } else {
        LongestAtLeastOne(g, r, below, n);
      }
    }
  }

  lemma LongestAtLeastOne(g: Graph, r: Rule, below: map<Rule, nat>, n: nat)
    requires r in g.deps && g.deps[r] <= below.Keys
    requires n == 1 || exists d :: d in g.deps[r] && n == 1 + below[d]
    ensures n >= 1
  {
  }

  // ----- The passes -----

  class Passes {
    const g: Graph
    var depths: map<Rule, nat>
    var reachable: set<Rule>

    constructor (g: Graph)
      ensures this.g == g && depths == map[] && reachable == {}
    {
      this.g := g;
      depths := map[];
      reachable := {};
    }

    ghost predicate Memoised()
      reads this
    {
      forall r :: r in depths ==> r in g.deps && g.IsLongest(r, depths[r])
    }

    /** Memoised longest chain. */
    method Depth(rule: Rule, ghost path: seq<Rule>) returns (n: nat)
      requires g.Closed() && g.Acyclic() && Memoised()
      requires g.IsChain(path + [rule])
      modifies this`depths
      ensures Memoised() && g.IsLongest(rule, n)
      ensures rule in depths && depths[rule] == n && Keeps(old(depths), depths)
      decreases g.deps.Keys - (set r | r in path), 1
    {
      assert rule in g.deps by { assert (path + [rule])[|path|] == rule; }
      if rule in depths && depths[rule] > 0 {
        return depths[rule];
      }
      NotOnPath(g, path, rule);
      ghost var here := path + [rule];
      assert rule in g.deps.Keys - (set r | r in path) && rule !in g.deps.Keys - (set r | r in here);
      n := DepthOver(rule, here);
      LongestStep(g, rule, depths, n);
      depths := depths[rule := n];
    }

    /** One more than the greatest depth among the dependencies of a rule, in any order. */
    method DepthOver(rule: Rule, ghost here: seq<Rule>) returns (n: nat)
      requires g.Closed() && g.Acyclic() && Memoised() && rule in g.deps
      requires g.IsChain(here) && here[|here| - 1] == rule
      modifies this`depths
      ensures Memoised() && Keeps(old(depths), depths)
      ensures g.deps[rule] <= depths.Keys
      ensures forall d :: d in g.deps[rule] ==> 1 + depths[d] <= n
      ensures n == 1 || exists d :: d in g.deps[rule] && n == 1 + depths[d]
      decreases g.deps.Keys - (set r | r in here), 2
    {
      n := 1;
      var todo := g.deps[rule];
      while todo != {}
        invariant todo <= g.deps[rule] && Memoised() && Keeps(old(depths), depths)
        invariant forall d :: d in g.deps[rule] && d !in todo ==> d in depths && 1 + depths[d] <= n
        invariant n == 1 || exists d :: d in g.deps[rule] && d !in todo && d in depths && n == 1 + depths[d]
      {
        var dep :| dep in todo;
        ChainStep(g, here, dep);
        var d := Depth(dep, here);
        todo := todo - {dep};
        if 1 + d > n {
          n := 1 + d;
        }
      }
    }

    /** The depth check over every rule. */
    method DepthsWithin(limit: nat) returns (ok: bool)
      requires g.Closed() && g.Acyclic() && Memoised()
      modifies this`depths
      ensures ok <==> forall p :: g.IsChain(p) ==> |p| <= limit
    {
      var todo := g.deps.Keys;
      while todo != {}
        invariant todo <= g.deps.Keys && Memoised()
        invariant forall p :: g.IsChain(p) && p[0] !in todo ==> |p| <= limit
      {
        var rule :| rule in todo;
        todo := todo - {rule};
        assert g.IsChain([] + [rule]);
        var n := Depth(rule, []);
        if n > limit {
          return false;
        }
      }
      return true;
    }

    /** Everything a reached rule depends on is reached, except below the current path. */
    ghost predicate Explored(path: seq<Rule>)
      reads this
    {
      && reachable <= g.deps.Keys
      && (forall r :: r in reachable ==> g.Reachable(r))
      && forall r :: r in reachable && r !in path ==> g.deps[r] <= reachable
    }

    /** Marks a rule and everything below it; terminates on any graph. */
    method Visit(rule: Rule, ghost path: seq<Rule>)
      requires g.Closed() && Explored(path) && g.Reachable(rule) && rule in g.deps
      modifies this`reachable
      ensures Explored(path) && rule in reachable && old(reachable) <= reachable
      decreases g.deps.Keys - reachable
    {
      if rule in reachable {
        return;
      }
      ghost var here := path + [rule];
      reachable := reachable + {rule};
      var todo := g.deps[rule];
      while todo != {}
        invariant todo <= g.deps[rule] && Explored(here)
        invariant old(reachable) + {rule} <= reachable
        invariant g.deps[rule] - todo <= reachable
        decreases todo
      {
        var dep :| dep in todo;
        todo := todo - {dep};
        ReachableStep(g, rule, dep);
        Visit(dep, here);
      }
      assert forall r :: r in here && r !in path ==> r == rule;
    }

    /** Starts from every entry point and looks for a rule that was not marked. */
    method AllReachable() returns (ok: bool)
      requires g.Closed() && reachable == {}
      modifies this`reachable
      ensures reachable == set r | r in g.deps && g.Reachable(r)
      ensures ok <==> forall r :: r in g.deps ==> g.Reachable(r)
    {
      var todo := g.entries;
      while todo != {}
        invariant todo <= g.entries && Explored([])
        invariant g.entries - todo <= reachable
      {
        var entry :| entry in todo;
        todo := todo - {entry};
        assert g.IsChain([entry]) && g.Reachable(entry);
        Visit(entry, []);
      }
      forall r | g.Reachable(r)
        ensures r in reachable
      {
        var p :| g.IsChain(p) && p[0] in g.entries && p[|p| - 1] == r;
        ClosedUnderChains(g, reachable, p);
      }
      return g.deps.Keys <= reachable;
    }
  }

  /** Memoised depths are never changed. */
  ghost predicate Keeps(before: map<Rule, nat>, after: map<Rule, nat>) {
    forall r :: r in before ==> r in after && after[r] == before[r]
  }

  lemma ReachableStep(g: Graph, r: Rule, d: Rule)
    requires g.Closed() && g.Reachable(r) && r in g.deps && d in g.deps[r]
    ensures g.Reachable(d)
  {
    var p :| g.IsChain(p) && p[0] in g.entries && p[|p| - 1] == r;
    ChainStep(g, p, d);
    assert (p + [d])[0] == p[0];
  }

  lemma {:induction false} ClosedUnderChains(g: Graph, marked: set<Rule>, p: seq<Rule>)
    requires g.IsChain(p) && p[0] in marked
    requires forall r :: r in marked && r in g.deps ==> g.deps[r] <= marked
    ensures p[|p| - 1] in marked
    decreases |p|
  {
    if |p| > 1 {
      ChainTail(g, p);
      ClosedUnderChains(g, marked, p[1..]);
    }
  }

  /**
   Both passes in order. Each fault is reported exactly when it is present, the depth
   fault first.
   */
  method Check(g: Graph) returns (r: Option<Code>)
    requires g.Closed() && g.Acyclic()
    ensures r == Some(RuleDepth) <==> exists p :: g.IsChain(p) && |p| > MAX_RULE_DEPTH
    ensures r == Some(UnreachableRule) <==>
            (forall p :: g.IsChain(p) ==> |p| <= MAX_RULE_DEPTH) && exists r :: r in g.deps && !g.Reachable(r)
  {
    var passes := new Passes(g);
    var shallow := passes.DepthsWithin(MAX_RULE_DEPTH);
    if !shallow {
      return Some(RuleDepth);
    }
    var reached := passes.AllReachable();
    if !reached {
      return Some(UnreachableRule);
    }
    return None;
  }
}
