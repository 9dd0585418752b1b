/** Validation of a bundle's manifests: versions, identities, namespaces and the dependency graph. */
module Dependencies {
  import opened Wrappers
  import opened JsonText

  datatype Manifest = Manifest(
    id: string,
    version: string,
    minimumCoreVersion: string,
    namespaces: seq<string>,
    dependencies: seq<string>)

  datatype Code =
    | IncompatibleVersion
    | DependencyConflict
    | NamespaceCollision
    | DependencyCycle
    | DependencyConstraint

  // ----- Splitting -----

  /** strings.Split with a one-character separator. */
  function Split(s: string, c: char): (parts: seq<string>)
    ensures parts != []
  {
    if s == "" then [""]
    else
      var rest := Split(s[1..], c);
      if s[0] == c then [""] + rest else [[s[0]] + rest[0]] + rest[1..]
  }

  function Join(parts: seq<string>, c: char): string
    requires parts != []
  {
    if |parts| == 1 then parts[0] else parts[0] + ([c] + Join(parts[1..], c))
  }

  lemma {:induction false} SplitJoins(s: string, c: char)
    ensures Join(Split(s, c), c) == s
    ensures forall i :: 0 <= i < |Split(s, c)| ==> c !in Split(s, c)[i]
  {
    if s != "" {
      SplitJoins(s[1..], c);
      var rest := Split(s[1..], c);
      assert s == [s[0]] + s[1..];
      if s[0] == c {
        assert ([""] + rest)[1..] == rest;
        assert "" + ([c] + s[1..]) == s;
      } else {
        var first := [s[0]] + rest[0];
        assert ([first] + rest[1..])[1..] == rest[1..];
        if |rest| > 1 {
          assert first + ([c] + Join(rest[1..], c)) == [s[0]] + (rest[0] + ([c] + Join(rest[1..], c)));
        }
      }
    }
  }

  lemma {:induction false} SplitOfToken(s: string, c: char)
    requires c !in s
    ensures Split(s, c) == [s]
  {
    if s != "" {
      SplitOfToken(s[1..], c);
      assert s == [s[0]] + s[1..];
    }
  }

  lemma {:induction false} SplitOfPair(x: string, rest: string, c: char)
    requires c !in x
    ensures Split(x + ([c] + rest), c) == [x] + Split(rest, c)
  {
    var s := x + ([c] + rest);
    if x == "" {
      assert s[1..] == rest;
    } else {
      assert s[1..] == x[1..] + ([c] + rest);
      SplitOfPair(x[1..], rest, c);
      assert x == [x[0]] + x[1..];
    }
  }

  // ----- Versions -----

  const MAX_INT: int := 0x7FFF_FFFF_FFFF_FFFF

  datatype Version = Version(major: int, minor: int, patch: int)

  const CORE := Version(0, 2, 0)

  /** A component whose number prints back as itself: strconv.Itoa(strconv.Atoi(p)) == p. */
  predicate IsComponent(p: string) {
    p != "" && CountDigits(p) == |p| && DigitsValue(p) <= MAX_INT && NatText(DigitsValue(p)) == p
  }

  function ParseVersion(v: string): Option<Version> {
    var parts := Split(v, '.');
    if |parts| == 3 && IsComponent(parts[0]) && IsComponent(parts[1]) && IsComponent(parts[2])
    then Some(Version(DigitsValue(parts[0]), DigitsValue(parts[1]), DigitsValue(parts[2])))
    else None
  }

  predicate Compatible(minimum: string) {
    var a := ParseVersion(minimum);
    && a.Some? && a.value.major == CORE.major
    && (a.value.minor < CORE.minor || (a.value.minor == CORE.minor && a.value.patch <= CORE.patch))
  }

  function VersionText(v: Version): string
    requires v.major >= 0 && v.minor >= 0 && v.patch >= 0
  {
    NatText(v.major) + ("." + (NatText(v.minor) + ("." + NatText(v.patch))))
  }

  lemma DigitsOnly(n: nat, c: char)
    requires !IsDigit(c)
    ensures c !in NatText(n)
  {
  }

  /** Exactly the canonical spellings of machine-size versions are read. */
  lemma ParseVersionExactly(text: string, v: Version)
    requires 0 <= v.major <= MAX_INT && 0 <= v.minor <= MAX_INT && 0 <= v.patch <= MAX_INT
    ensures ParseVersion(text) == Some(v) <==> text == VersionText(v)
  {
    if text == VersionText(v) {
      VersionTextParses(v);
    }
    if ParseVersion(text) == Some(v) {
      SplitJoins(text, '.');
      JoinThree(Split(text, '.'));
    }
  }

  lemma VersionTextSplits(v: Version)
    requires v.major >= 0 && v.minor >= 0 && v.patch >= 0
    ensures Split(VersionText(v), '.') == [NatText(v.major), NatText(v.minor), NatText(v.patch)]
  {
    var a, b, c := NatText(v.major), NatText(v.minor), NatText(v.patch);
    DigitsOnly(v.major, '.');
    DigitsOnly(v.minor, '.');
    DigitsOnly(v.patch, '.');
    SplitOfPair(a, b + ("." + c), '.');
    SplitOfPair(b, c, '.');
    SplitOfToken(c, '.');
  }

  lemma ComponentText(n: nat)
    requires n <= MAX_INT
    ensures IsComponent(NatText(n)) && DigitsValue(NatText(n)) == n
  {
    AllDigits(NatText(n));
    NatTextValue(n);
  }

  lemma VersionTextParses(v: Version)
    requires 0 <= v.major <= MAX_INT && 0 <= v.minor <= MAX_INT && 0 <= v.patch <= MAX_INT
    ensures ParseVersion(VersionText(v)) == Some(v)
  {
    VersionTextSplits(v);
    ComponentText(v.major);
    ComponentText(v.minor);
    ComponentText(v.patch);
    hide IsComponent, VersionText;
  }

  /** A minimum core version is met exactly when its text spells 0.0.x, 0.1.x or 0.2.0. */
  lemma CompatibleExactly(text: string)
    ensures Compatible(text) <==>
            exists minor, patch ::
              && 0 <= minor && 0 <= patch <= 0x7FFF_FFFF_FFFF_FFFF
              && text == "0." + (NatText(minor) + ("." + NatText(patch)))
              && (minor < 2 || (minor == 2 && patch == 0))
  {
    hide ParseVersion;
    if Compatible(text) {
      var v := ParseVersion(text).value;
      ParsedInRange(text);
      ParseVersionExactly(text, v);
      ZeroVersion(v.minor, v.patch);
    }
    if minor, patch :|
      && 0 <= minor && 0 <= patch <= 0x7FFF_FFFF_FFFF_FFFF
      && text == "0." + (NatText(minor) + ("." + NatText(patch)))
      && (minor < 2 || (minor == 2 && patch == 0))
    {
      ZeroVersion(minor, patch);
      ParseVersionExactly(text, Version(0, minor, patch));
    }
    hide VersionText, NatText;
  }

  lemma ZeroVersion(minor: nat, patch: nat)
    ensures VersionText(Version(0, minor, patch)) == "0." + (NatText(minor) + ("." + NatText(patch)))
  {
    var rest := NatText(minor) + ("." + NatText(patch));
    assert "0" + ("." + rest) == "0." + rest;
  }

  lemma ParsedInRange(text: string)
    ensures var v := ParseVersion(text);
            v.Some? ==> 0 <= v.value.major <= MAX_INT && 0 <= v.value.minor <= MAX_INT && 0 <= v.value.patch <= MAX_INT
  {
  }

  lemma JoinThree(parts: seq<string>)
    requires |parts| == 3
    ensures Join(parts, '.') == parts[0] + ("." + (parts[1] + ("." + parts[2])))
  {
    assert parts[1..][1..] == parts[2..];
    assert Join(parts[2..], '.') == parts[2];
    assert Join(parts[1..], '.') == parts[1] + ("." + parts[2]);
  }

  // ----- Namespaces -----

  predicate Overlap(n: string, m: string) {
    n == m || m + "." <= n || n + "." <= m
  }

  lemma {:induction false} SplitAppend(m: string, x: string, c: char)
    ensures Split(m + ([c] + x), c) == Split(m, c) + Split(x, c)
  {
    var s := m + ([c] + x);
    if m == "" {
      assert s[1..] == x;
    } else {
      assert s[1..] == m[1..] + ([c] + x);
      SplitAppend(m[1..], x, c);
    }
  }

  lemma {:induction false} JoinAppend(a: seq<string>, b: seq<string>, c: char)
    requires a != [] && b != []
    ensures Join(a + b, c) == Join(a, c) + ([c] + Join(b, c))
  {
    if |a| == 1 {
      assert (a + b)[1..] == b;
    } else {
      assert (a + b)[1..] == a[1..] + b;
      JoinAppend(a[1..], b, c);
      assert a[0] + ([c] + (Join(a[1..], c) + ([c] + Join(b, c)))) ==
             (a[0] + ([c] + Join(a[1..], c))) + ([c] + Join(b, c));
    }
  }

  lemma PrefixSplits(m: string, n: string)
    requires m + "." <= n
    ensures Split(m, '.') < Split(n, '.')
  {
    var x := n[|m| + 1..];
    assert n == (m + ".") + x == m + (['.'] + x);
    SplitAppend(m, x, '.');
  }

  lemma DotAppends(m: string, rest: string)
    ensures m + "." <= m + (['.'] + rest)
  {
    assert m + (['.'] + rest) == (m + ".") + rest;
  }

  lemma SplitPrefixes(m: string, n: string)
    requires Split(m, '.') < Split(n, '.')
    ensures m + "." <= n
  {
    var a, all := Split(m, '.'), Split(n, '.');
    var b := all[|a|..];
    assert all == a + b;
    JoinAppend(a, b, '.');
    SplitJoins(m, '.');
    SplitJoins(n, '.');
    DotAppends(m, Join(b, '.'));
  }

  lemma SplitInjective(m: string, n: string)
    requires Split(m, '.') == Split(n, '.')
    ensures m == n
  {
    SplitJoins(m, '.');
    SplitJoins(n, '.');
  }

  /** Two namespaces overlap exactly when one is a parent of the other or they are equal. */
  lemma OverlapIsNesting(n: string, m: string)
    ensures Overlap(n, m) <==> Split(n, '.') <= Split(m, '.') || Split(m, '.') <= Split(n, '.')
  {
    var a, b := Split(n, '.'), Split(m, '.');
    if m + "." <= n { PrefixSplits(m, n); }
    if n + "." <= m { PrefixSplits(n, m); }
    if a == b { SplitInjective(n, m); }
    else if a <= b { SplitPrefixes(n, m); }
    else if b <= a { SplitPrefixes(m, n); }
  }

  function Namespaces(manifests: seq<Manifest>): seq<string> {
    if manifests == [] then [] else manifests[0].namespaces + Namespaces(manifests[1..])
  }

  ghost predicate Disjoint(names: seq<string>) {
    forall i, j :: 0 <= i < j < |names| ==> !Overlap(names[j], names[i])
  }

  // ----- The dependency graph -----

  type Index = map<string, Manifest>

  /** The id a dependency pins, when it is one exact id@version of an indexed manifest. */
  function Target(byId: Index, dep: string): Option<string> {
    var parts := Split(dep, '@');
    if |parts| == 2 && parts[0] in byId && byId[parts[0]].version == parts[1] then Some(parts[0]) else None
  }

  /** A pin resolves exactly when it spells id@version of some manifest, neither containing '@'. */
  lemma TargetExactly(byId: Index, dep: string, id: string)
    ensures Target(byId, dep) == Some(id) <==>
            id in byId && '@' !in id && '@' !in byId[id].version && dep == id + ("@" + byId[id].version)
  {
    SplitJoins(dep, '@');
    if Target(byId, dep) == Some(id) {
      var parts := Split(dep, '@');
      assert parts == [id, byId[id].version];
      assert parts[1..] == [byId[id].version];
    }
    if id in byId && '@' !in id && '@' !in byId[id].version && dep == id + ("@" + byId[id].version) {
      SplitOfPair(id, byId[id].version, '@');
      SplitOfToken(byId[id].version, '@');
    }
  }

  ghost predicate Resolved(byId: Index, id: string)
    requires id in byId
  {
    forall i :: 0 <= i < |byId[id].dependencies| ==> Target(byId, byId[id].dependencies[i]).Some?
  }

  ghost predicate Edge(byId: Index, a: string, b: string) {
    a in byId && b in byId &&
    exists i :: 0 <= i < |byId[a].dependencies| && Target(byId, byId[a].dependencies[i]) == Some(b)
  }

  ghost predicate IsWalk(byId: Index, p: seq<string>) {
    forall i :: 0 <= i < |p| - 1 ==> Edge(byId, p[i], p[i + 1])
  }

  ghost predicate IsCycle(byId: Index, p: seq<string>) {
    |p| >= 2 && IsWalk(byId, p) && p[0] == p[|p| - 1]
  }

  ghost predicate Acyclic(byId: Index) {
    forall p :: !IsCycle(byId, p)
  }

  /** A numbering that falls along every edge out of done; it grows as vertices finish. */
  ghost predicate Falls(byId: Index, rank: map<string, nat>) {
    && (forall a :: a in rank ==> a in byId && rank[a] < |rank|)
    && (forall a, b :: a in rank && Edge(byId, a, b) ==> b in rank && rank[b] < rank[a])
  }

  lemma {:induction false} RankFalls(byId: Index, rank: map<string, nat>, p: seq<string>)
    requires Falls(byId, rank) && IsWalk(byId, p) && |p| >= 2 && p[0] in rank
    ensures p[|p| - 1] in rank && rank[p[|p| - 1]] < rank[p[0]]
  {
    assert Edge(byId, p[0], p[1]);
    if |p| > 2 {
      assert IsWalk(byId, p[1..]) by {
        forall i | 0 <= i < |p[1..]| - 1
          ensures Edge(byId, p[1..][i], p[1..][i + 1])
        {
          assert Edge(byId, p[i + 1], p[i + 2]);
        }
      }
      RankFalls(byId, rank, p[1..]);
    }
  }

  lemma RankedIsAcyclic(byId: Index, rank: map<string, nat>)
    requires Falls(byId, rank) && rank.Keys == byId.Keys
    ensures Acyclic(byId)
  {
    forall p | IsCycle(byId, p)
      ensures false
    {
      assert Edge(byId, p[0], p[1]);
      RankFalls(byId, rank, p);
    }
  }

  ghost predicate AllResolved(byId: Index) {
    forall x :: x in byId ==> Resolved(byId, x)
  }

  /** The graph really has the fault a code names. */
  ghost predicate Justified(code: Code, byId: Index) {
    || (code == DependencyCycle && !Acyclic(byId))
    || (code == DependencyConstraint && !AllResolved(byId))
  }

  /** Colour 1 is the current path, colour 2 the finished vertices. */
  ghost predicate Coloured(byId: Index, state: map<string, int>, finished: set<string>, path: seq<string>) {
    && (forall x :: x in state ==> x in byId && (state[x] == 1 || state[x] == 2))
    && (forall x :: x in finished <==> x in state && state[x] == 2)
    && (forall x :: x in path <==> x in state && state[x] == 1)
  }

  lemma LeaveColoured(byId: Index, state: map<string, int>, finished: set<string>, path: seq<string>, id: string)
    requires Coloured(byId, state, finished, path + [id]) && id !in path
    ensures id in state && id in byId && id !in finished
    ensures Coloured(byId, state[id := 2], finished + {id}, path)
  {
    assert id in path + [id];
    assert forall x :: x in path + [id] <==> x in path || x == id;
  }

  /** The three-colour walk: 1 marks a vertex on the current path, 2 a finished one. */
  class Walk {
    const byId: Index
    var state: map<string, int>
    ghost var rank: map<string, nat>

    constructor (byId: Index)
      ensures this.byId == byId && Valid([])
      ensures state == map[]
    {
      this.byId := byId;
      state := map[];
      rank := map[];
    }

    ghost predicate Valid(path: seq<string>)
      reads this
    {
      && Coloured(byId, state, rank.Keys, path)
      && IsWalk(byId, path)
      && Falls(byId, rank)
      && forall x :: x in rank ==> Resolved(byId, x)
    }

    method Visit(id: string, ghost path: seq<string>) returns (err: Option<Code>)
      requires Valid(path) && id in byId
      requires path != [] ==> Edge(byId, path[|path| - 1], id)
      modifies this
      ensures err.None? ==> Valid(path) && id in rank
      ensures err.None? ==> old(rank).Keys <= rank.Keys && old(state).Keys <= state.Keys
      ensures err.Some? ==> Justified(err.value, byId)
      decreases byId.Keys - state.Keys, 0
    {
      if id in state && state[id] == 1 {
        CycleFound(byId, path, id);
        return Some(DependencyCycle);
      }
      if id in state && state[id] == 2 {
        return None;
      }
      Enter(id, path);
      var e := VisitDependencies(id, path + [id]);
      if e.Some? {
        return e;
      }
      Leave(id, path);
      return None;
    }

    /** Colours a vertex 1: it is now the end of the current path. */
    method Enter(id: string, ghost path: seq<string>)
      requires Valid(path) && id in byId && id !in state
      requires path != [] ==> Edge(byId, path[|path| - 1], id)
      modifies this
      ensures Valid(path + [id]) && id !in path
      ensures state == old(state)[id := 1] && rank == old(rank)
      ensures byId.Keys - state.Keys < byId.Keys - old(state).Keys
    {
      WalkExtends(byId, path, id);
      state := state[id := 1];
      assert id in byId.Keys - old(state).Keys && id !in byId.Keys - state.Keys;
    }

    /** Colours a vertex 2: everything it depends on is finished. */
    method Leave(id: string, ghost path: seq<string>)
      requires Valid(path + [id]) && IsWalk(byId, path) && id in byId && id !in path && Finished(byId, id, rank)
      modifies this
      ensures Valid(path) && id in rank
      ensures rank.Keys == old(rank).Keys + {id} && state.Keys == old(state).Keys
    {
      hide Coloured, Falls, Finished, Resolved, IsWalk;
      LeaveColoured(byId, state, rank.Keys, path, id);
      FinishFalls(byId, rank, id);
      assert rank[id := |rank|].Keys == rank.Keys + {id};
      state := state[id := 2];
      rank := rank[id := |rank|];
    }

    method VisitDependencies(id: string, ghost here: seq<string>) returns (err: Option<Code>)
      requires Valid(here) && id in byId && here != [] && here[|here| - 1] == id
      modifies this
      ensures err.None? ==> Valid(here) && Finished(byId, id, rank)
      ensures err.None? ==> old(rank).Keys <= rank.Keys && old(state).Keys <= state.Keys
      ensures err.Some? ==> Justified(err.value, byId)
      decreases byId.Keys - state.Keys, 1
    {
      var deps := byId[id].dependencies;
      for i := 0 to |deps|
        invariant Valid(here)
        invariant old(state).Keys <= state.Keys && old(rank).Keys <= rank.Keys
        invariant FinishedUpTo(byId, id, rank, i)
      {
        var target := Target(byId, deps[i]);
        if target.None? {
          assert !Resolved(byId, id);
          return Some(DependencyConstraint);
        }
        assert Edge(byId, id, target.value);
        ghost var before := rank;
        var e := Visit(target.value, here);
        if e.Some? {
          return e;
        }
        FinishedGrows(byId, id, before, rank, i);
      }
      return None;
    }
  }

  /** The first n dependencies of a vertex resolve to ranked ones. */
  ghost predicate FinishedUpTo(byId: Index, id: string, rank: map<string, nat>, n: nat)
    requires id in byId
  {
    n <= |byId[id].dependencies| && forall j :: 0 <= j < n ==>
      Target(byId, byId[id].dependencies[j]).Some? && Target(byId, byId[id].dependencies[j]).value in rank
  }

  ghost predicate Finished(byId: Index, id: string, rank: map<string, nat>)
    requires id in byId
  {
    FinishedUpTo(byId, id, rank, |byId[id].dependencies|)
  }

  lemma FinishedGrows(byId: Index, id: string, before: map<string, nat>, after: map<string, nat>, n: nat)
    requires id in byId && FinishedUpTo(byId, id, before, n) && before.Keys <= after.Keys
    requires n < |byId[id].dependencies|
    requires var t := Target(byId, byId[id].dependencies[n]); t.Some? && t.value in after
    ensures FinishedUpTo(byId, id, after, n + 1)
  {
  }

  lemma CycleFound(byId: Index, path: seq<string>, id: string)
    requires IsWalk(byId, path) && id in path && Edge(byId, path[|path| - 1], id)
    ensures !Acyclic(byId)
  {
    var k :| 0 <= k < |path| && path[k] == id;
    WalkExtends(byId, path, id);
    var p := (path + [id])[k..];
    forall i | 0 <= i < |p| - 1
      ensures Edge(byId, p[i], p[i + 1])
    {
      assert Edge(byId, (path + [id])[k + i], (path + [id])[k + i + 1]);
    }
    assert IsCycle(byId, p);
  }

  lemma WalkExtends(byId: Index, path: seq<string>, id: string)
    requires IsWalk(byId, path) && (path != [] ==> Edge(byId, path[|path| - 1], id))
    ensures IsWalk(byId, path + [id])
  {
    var p := path + [id];
    forall i | 0 <= i < |p| - 1
      ensures Edge(byId, p[i], p[i + 1])
    {
      if i < |path| - 1 { assert Edge(byId, path[i], path[i + 1]); }
    }
  }

  lemma FinishFalls(byId: Index, rank: map<string, nat>, id: string)
    requires Falls(byId, rank) && id in byId && id !in rank
    requires Finished(byId, id, rank)
    ensures Falls(byId, rank[id := |rank|]) && Resolved(byId, id)
  {
  }

  // ----- ValidateDependencies -----

  ghost predicate AllCompatible(manifests: seq<Manifest>) {
    forall i :: 0 <= i < |manifests| ==> Compatible(manifests[i].minimumCoreVersion)
  }

  ghost predicate DistinctIds(manifests: seq<Manifest>) {
    forall i, j :: 0 <= i < j < |manifests| ==> manifests[i].id != manifests[j].id
  }

  ghost function IndexOf(manifests: seq<Manifest>): Index
    requires DistinctIds(manifests)
  {
    map i | 0 <= i < |manifests| :: manifests[i].id := manifests[i]
  }

  ghost predicate Sound(manifests: seq<Manifest>) {
    && AllCompatible(manifests)
    && DistinctIds(manifests)
    && Disjoint(Namespaces(manifests))
    && AllResolved(IndexOf(manifests))
    && Acyclic(IndexOf(manifests))
  }

  lemma {:induction false} NamespacesSnoc(manifests: seq<Manifest>, m: Manifest)
    ensures Namespaces(manifests + [m]) == Namespaces(manifests) + m.namespaces
  {
    if manifests == [] {
      assert manifests + [m] == [m];
      assert Namespaces([m]) == m.namespaces + Namespaces([m][1..]);
    } else {
      assert (manifests + [m])[1..] == manifests[1..] + [m];
      NamespacesSnoc(manifests[1..], m);
    }
  }

  /** Claims the namespaces of one manifest; false when one overlaps an owned namespace. */
  method Claim(owners: set<string>, names: seq<string>, ghost owned: seq<string>)
    returns (ok: bool, r: set<string>)
    requires owners == (set n | n in owned) && Disjoint(owned)
    ensures ok <==> Disjoint(owned + names)
    ensures ok ==> r == set n | n in owned + names
  {
    r := owners;
    for i := 0 to |names|
      invariant r == set n | n in owned + names[..i]
      invariant Disjoint(owned + names[..i])
    {
      ghost var so := owned + names[..i];
      assert owned + names[..i + 1] == so + [names[i]];
      var todo := r;
      while todo != {}
        invariant todo <= r
        invariant forall n :: n in r && n !in todo ==> !Overlap(names[i], n)
      {
        var previous :| previous in todo;
        todo := todo - {previous};
        if Overlap(names[i], previous) {
          ghost var k :| 0 <= k < |so| && so[k] == previous;
          OverlapSpoils(owned, names, i, k);
          return false, r;
        }
      }
      forall a, b | 0 <= a < b < |so + [names[i]]|
        ensures !Overlap((so + [names[i]])[b], (so + [names[i]])[a])
      {
        if b == |so| { assert so[a] in r; }
      }
      r := r + {names[i]};
    }
    assert names[..|names|] == names;
    return true, r;
  }

  lemma OverlapSpoils(owned: seq<string>, names: seq<string>, i: nat, k: nat)
    requires i < |names| && k < |owned| + i && Overlap(names[i], (owned + names[..i])[k])
    ensures !Disjoint(owned + names)
  {
    var all := owned + names;
    assert all[|owned| + i] == names[i] && all[k] == (owned + names[..i])[k];
  }

  /** First pass: versions, identities and namespaces. */
  method Collect(manifests: seq<Manifest>) returns (r: Result<Index, Code>)
    ensures r.Ok? <==> AllCompatible(manifests) && DistinctIds(manifests) && Disjoint(Namespaces(manifests))
    ensures r.Ok? ==> r.value == IndexOf(manifests)
    ensures r == Err(IncompatibleVersion) ==> !AllCompatible(manifests)
    ensures r == Err(DependencyConflict) ==> !DistinctIds(manifests)
    ensures r == Err(NamespaceCollision) ==> !Disjoint(Namespaces(manifests))
    ensures r.Err? ==> r.error in {IncompatibleVersion, DependencyConflict, NamespaceCollision}
  {
    var byId: Index := map[];
    var owners: set<string> := {};
    for i := 0 to |manifests|
      invariant Collected(manifests[..i], byId, owners)
    {
      var m := manifests[i];
      assert manifests[..i + 1] == manifests[..i] + [m];
      if !Compatible(m.minimumCoreVersion) {
        return Err(IncompatibleVersion);
      }
      if m.id in byId {
        assert exists j :: 0 <= j < i && manifests[..i][j].id == m.id;
        return Err(DependencyConflict);
      }
      var ok, claimed := Claim(owners, m.namespaces, Namespaces(manifests[..i]));
      CollectStep(manifests[..i], m, byId);
      if !ok {
        PrefixDisjoint(manifests, i + 1);
        return Err(NamespaceCollision);
      }
      byId := byId[m.id := m];
      owners := claimed;
    }
    assert manifests[..|manifests|] == manifests;
    return Ok(byId);
  }

  ghost predicate Collected(manifests: seq<Manifest>, byId: Index, owners: set<string>) {
    && AllCompatible(manifests) && DistinctIds(manifests) && Disjoint(Namespaces(manifests))
    && byId == IndexOf(manifests)
    && owners == set n | n in Namespaces(manifests)
  }

  lemma CollectStep(manifests: seq<Manifest>, m: Manifest, byId: Index)
    requires AllCompatible(manifests) && DistinctIds(manifests) && byId == IndexOf(manifests)
    requires Compatible(m.minimumCoreVersion) && m.id !in byId
    ensures AllCompatible(manifests + [m]) && DistinctIds(manifests + [m])
    ensures byId[m.id := m] == IndexOf(manifests + [m])
    ensures Namespaces(manifests + [m]) == Namespaces(manifests) + m.namespaces
  {
    NamespacesSnoc(manifests, m);
    DistinctIdsStep(manifests, m);
    IndexStep(manifests, m);
  }

  lemma DistinctIdsStep(manifests: seq<Manifest>, m: Manifest)
    requires DistinctIds(manifests) && m.id !in IndexOf(manifests)
    ensures DistinctIds(manifests + [m])
  {
    forall i | 0 <= i < |manifests|
      ensures manifests[i].id != m.id
    {
      assert manifests[i].id in IndexOf(manifests);
    }
  }

  lemma IndexStep(manifests: seq<Manifest>, m: Manifest)
    requires DistinctIds(manifests) && DistinctIds(manifests + [m])
    ensures IndexOf(manifests + [m]) == IndexOf(manifests)[m.id := m]
  {
    var all := manifests + [m];
    assert all[|manifests|] == m;
    forall id | id in IndexOf(manifests)
      ensures id in IndexOf(all)
    {
      var i :| 0 <= i < |manifests| && manifests[i].id == id;
      assert all[i].id == id;
    }
  }

  lemma {:induction false} NamespacesPrefix(manifests: seq<Manifest>, n: nat)
    requires n <= |manifests|
    ensures Namespaces(manifests[..n]) <= Namespaces(manifests)
    decreases |manifests| - n
  {
    if n < |manifests| {
      assert manifests[..n + 1] == manifests[..n] + [manifests[n]];
      NamespacesSnoc(manifests[..n], manifests[n]);
      NamespacesPrefix(manifests, n + 1);
    } else {
      assert manifests[..n] == manifests;
    }
  }

  lemma PrefixDisjoint(manifests: seq<Manifest>, n: nat)
    requires n <= |manifests| && !Disjoint(Namespaces(manifests[..n]))
    ensures !Disjoint(Namespaces(manifests))
  {
    NamespacesPrefix(manifests, n);
    var names := Namespaces(manifests[..n]);
    var i, j :| 0 <= i < j < |names| && Overlap(names[j], names[i]);
    assert Namespaces(manifests)[i] == names[i] && Namespaces(manifests)[j] == names[j];
  }

  /** The roots are visited in the order of map iteration, which is any order. */
  method WalkAll(byId: Index) returns (r: Option<Code>)
    ensures r.None? <==> AllResolved(byId) && Acyclic(byId)
    ensures r.Some? ==> Justified(r.value, byId)
  {
    var walk := new Walk(byId);
    var todo := byId.Keys;
    while todo != {}
      invariant todo <= byId.Keys && walk.byId == byId && walk.Valid([])
      invariant byId.Keys - todo <= walk.rank.Keys
    {
      var id :| id in todo;
      todo := todo - {id};
      var e := walk.Visit(id, []);
      if e.Some? {
        return e;
      }
    }
    RankedIsAcyclic(byId, walk.rank);
    return None;
  }

  method ValidateDependencies(manifests: seq<Manifest>) returns (r: Option<Code>)
    ensures r.None? <==> Sound(manifests)
    ensures r == Some(IncompatibleVersion) ==> !AllCompatible(manifests)
    ensures r == Some(DependencyConflict) ==> !DistinctIds(manifests)
    ensures r == Some(NamespaceCollision) ==> !Disjoint(Namespaces(manifests))
    ensures r == Some(DependencyCycle) ==> DistinctIds(manifests) && !Acyclic(IndexOf(manifests))
    ensures r == Some(DependencyConstraint) ==> DistinctIds(manifests) && !AllResolved(IndexOf(manifests))
  {
    var byId := Collect(manifests);
    if byId.Err? {
      return Some(byId.error);
    }
    r := WalkAll(byId.value);
  }
}
