/**
 Lexicographic order on scalar sequences, the enumeration of a finite set in that
 order, and what sorted permutations have in common.
 */
module Ordering {
  lemma {:induction false} SubsetSize<T>(some: set<T>, more: set<T>)
    requires some <= more
    ensures |some| <= |more|
  {
    if some != {} {
      var x :| x in some;
      SubsetSize(some - {x}, more - {x});
    }
  }

  lemma TakeSnoc<T>(s: seq<T>, i: nat)
    requires i < |s|
    ensures s[..i + 1] == s[..i] + [s[i]]
  {
  }

  /** Strict lexicographic order by Unicode scalar value. */
  predicate Less(a: string, b: string) {
    b != "" && (a == "" || a[0] < b[0] || (a[0] == b[0] && Less(a[1..], b[1..])))
  }

  lemma {:induction false} LessIrreflexive(a: string)
    ensures !Less(a, a)
  {
    if a != "" {
      LessIrreflexive(a[1..]);
    }
  }

  lemma {:induction false} LessTotal(a: string, b: string)
    ensures a == b || Less(a, b) || Less(b, a)
  {
    if a != "" && b != "" && a[0] == b[0] {
      LessTotal(a[1..], b[1..]);
      assert a == [a[0]] + a[1..] && b == [b[0]] + b[1..];
    }
  }

  lemma {:induction false} LessTransitive(a: string, b: string, c: string)
    requires Less(a, b) && Less(b, c)
    ensures Less(a, c)
  {
    if a != "" && a[0] == b[0] == c[0] {
      LessTransitive(a[1..], b[1..], c[1..]);
    }
  }

  lemma LessAsymmetric(a: string, b: string)
    requires Less(a, b)
    ensures !Less(b, a)
  {
    if Less(b, a) {
      LessTransitive(a, b, a);
      LessIrreflexive(a);
    }
  }

  ghost predicate StrictlyAscending(s: seq<string>) {
    forall i, j :: 0 <= i < j < |s| ==> Less(s[i], s[j])
  }

  ghost predicate IsLeast(x: string, s: set<string>) {
    x in s && forall y :: y in s && y != x ==> Less(x, y)
  }

  lemma {:induction false} LeastExists(s: set<string>)
    requires s != {}
    ensures exists x :: IsLeast(x, s)
  {
    var y :| y in s;
    if s == {y} {
      assert IsLeast(y, s);
    } else {
      LeastExists(s - {y});
      var z :| IsLeast(z, s - {y});
      LessTotal(y, z);
      if Less(y, z) {
        forall w | w in s && w != y
          ensures Less(y, w)
        {
          if w != z { LessTransitive(y, z, w); }
        }
        assert IsLeast(y, s);
      } else {
        assert IsLeast(z, s);
      }
    }
  }

  /** The elements of a finite set of strings, each once, in ascending order. */
  ghost function Ascending(s: set<string>): (r: seq<string>)
    ensures forall x :: x in r <==> x in s
    ensures StrictlyAscending(r)
    ensures |r| == |s|
  {
    if s == {} then [] else
      LeastExists(s);
      var x :| IsLeast(x, s);
      [x] + Ascending(s - {x})
  }

  /** Ascending order determines the enumeration. */
  lemma {:induction false} AscendingUnique(r: seq<string>, t: seq<string>)
    requires StrictlyAscending(r) && StrictlyAscending(t)
    requires forall x :: x in r <==> x in t
    ensures r == t
  {
    assert t != [] ==> t[0] in r;
    if r != [] {
      assert r[0] in t;
      if r[0] != t[0] {
        var i :| 0 <= i < |t| && t[i] == r[0];
        var j :| 0 <= j < |r| && r[j] == t[0];
        LessAsymmetric(r[0], t[0]);
      }
      forall x
        ensures x in r[1..] <==> x in t[1..]
      {
        AscendingTail(r, x);
        AscendingTail(t, x);
      }
      AscendingUnique(r[1..], t[1..]);
      assert r == [r[0]] + r[1..] && t == [t[0]] + t[1..];
    }
  }

  lemma AscendingTail(r: seq<string>, x: string)
    requires StrictlyAscending(r) && r != []
    ensures x in r[1..] <==> x in r && x != r[0]
  {
    LessIrreflexive(r[0]);
    assert r == [r[0]] + r[1..];
    if x in r[1..] {
      var i :| 0 <= i < |r[1..]| && r[1..][i] == x;
      assert Less(r[0], r[i + 1]);
    }
  }

  ghost predicate SortedBy<T>(key: T -> string, s: seq<T>) {
    forall i, j :: 0 <= i < j < |s| ==> !Less(key(s[j]), key(s[i]))
  }

  lemma InsertedOnce<T>(r: seq<T>, j: nat, x: T)
    requires j <= |r|
    ensures multiset(r[..j] + [x] + r[j..]) == multiset(r) + multiset{x}
  {
    assert r == r[..j] + r[j..];
    assert multiset(r[..j] + [x] + r[j..]) == multiset(r[..j]) + multiset{x} + multiset(r[j..]);
  }

  lemma InsertSorted<T>(key: T -> string, r: seq<T>, j: nat, x: T)
    requires j <= |r| && SortedBy(key, r)
    requires j > 0 ==> !Less(key(x), key(r[j - 1]))
    requires forall k :: j <= k < |r| ==> Less(key(x), key(r[k]))
    ensures SortedBy(key, r[..j] + [x] + r[j..])
  {
    var t := r[..j] + [x] + r[j..];
    forall a, b | 0 <= a < b < |t|
      ensures !Less(key(t[b]), key(t[a]))
    {
      if b == j && a < j - 1 {
        if Less(key(x), key(r[a])) {
          LessTotal(key(r[j - 1]), key(x));
          if Less(key(r[j - 1]), key(x)) { LessTransitive(key(r[j - 1]), key(x), key(r[a])); }
        }
      } else if a == j {
        LessAsymmetric(key(x), key(r[b - 1]));
      }
    }
  }

  /** A sorted permutation of distinct strings is their enumeration. */
  lemma SortedDistinct(values: seq<string>, sorted: seq<string>)
    requires SortedBy((x: string) => x, sorted) && multiset(sorted) == multiset(values)
    requires forall i, j :: 0 <= i < j < |values| ==> values[i] != values[j]
    ensures sorted == Ascending(set x | x in values) && |sorted| == |values|
  {
    SameElements(sorted, values);
    forall i, j | 0 <= i < j < |sorted|
      ensures Less(sorted[i], sorted[j])
    {
      if sorted[i] == sorted[j] {
        CountAtLeastTwo(sorted, i, j);
        TwoPositions(values, sorted[i]);
      }
      LessTotal(sorted[i], sorted[j]);
    }
    AscendingUnique(sorted, Ascending(set x | x in values));
  }

  lemma SameElements<T>(a: seq<T>, b: seq<T>)
    requires multiset(a) == multiset(b)
    ensures forall x :: x in a <==> x in b
    ensures |a| == |b|
  {
    assert forall x :: x in a <==> x in multiset(a);
    assert forall x :: x in b <==> x in multiset(b);
    assert |a| == |multiset(a)| == |multiset(b)| == |b|;
  }

  lemma AppendAscending(r: seq<string>, x: string)
    requires StrictlyAscending(r) && r != [] && Less(r[|r| - 1], x)
    ensures StrictlyAscending(r + [x])
  {
    forall i | 0 <= i < |r|
      ensures Less(r[i], x)
    {
      if i < |r| - 1 { LessTransitive(r[i], r[|r| - 1], x); }
    }
  }

  lemma AscendingExtends(s: seq<string>, i: nat)
    requires i < |s| && StrictlyAscending(s[..i])
    requires SortedBy((x: string) => x, s) && (i > 0 ==> s[i] != s[i - 1])
    ensures StrictlyAscending(s[..i + 1])
  {
    forall j | 0 <= j < i
      ensures Less(s[j], s[i])
    {
      LessTotal(s[i - 1], s[i]);
      if j < i - 1 {
        assert Less(s[..i][j], s[..i][i - 1]);
        LessTransitive(s[j], s[i - 1], s[i]);
      }
    }
    assert s[..i + 1] == s[..i] + [s[i]];
  }

  lemma {:induction false} CountAtLeastTwo<T>(s: seq<T>, i: nat, j: nat)
    requires i < j < |s| && s[i] == s[j]
    ensures multiset(s)[s[i]] >= 2
  {
    assert s == s[..j] + s[j..];
    assert s[i] in s[..j] by { assert s[..j][i] == s[i]; }
    assert s[j..][0] == s[j];
  }

  lemma {:induction false} TwoPositions<T>(s: seq<T>, x: T)
    requires multiset(s)[x] >= 2
    ensures exists i, j :: 0 <= i < j < |s| && s[i] == s[j]
  {
    assert s == [s[0]] + s[1..];
    if s[0] == x {
      assert x in multiset(s[1..]);
      var j :| 0 <= j < |s[1..]| && s[1..][j] == x;
      assert s[0] == s[j + 1];
    } else {
      TwoPositions(s[1..], x);
      var i, j :| 0 <= i < j < |s[1..]| && s[1..][i] == s[1..][j];
      assert s[i + 1] == s[j + 1];
    }
  }

  lemma DuplicateInBoth(s: seq<string>, t: seq<string>, i: nat)
    requires 0 < i < |s| && s[i] == s[i - 1] && multiset(s) == multiset(t)
    ensures exists a, b :: 0 <= a < b < |t| && t[a] == t[b]
  {
    CountAtLeastTwo(s, i - 1, i);
    TwoPositions(t, s[i]);
  }

  lemma DistinctInBoth(s: seq<string>, t: seq<string>)
    requires StrictlyAscending(s) && multiset(s) == multiset(t)
    ensures forall i, j :: 0 <= i < j < |t| ==> t[i] != t[j]
  {
    if i, j :| 0 <= i < j < |t| && t[i] == t[j] {
      CountAtLeastTwo(t, i, j);
      TwoPositions(s, t[i]);
      var a, b :| 0 <= a < b < |s| && s[a] == s[b];
      LessIrreflexive(s[a]);
    }
  }

  lemma SameHead<T>(key: T -> string, a: seq<T>, b: seq<T>)
    requires SortedBy(key, a) && SortedBy(key, b) && multiset(a) == multiset(b) && a != [] && b != []
    requires forall x, y :: x in a && y in a && key(x) == key(y) ==> x == y
    ensures a[0] == b[0]
  {
    SameElements(a, b);
    assert a[0] in b && b[0] in a;
    var i :| 0 <= i < |a| && a[i] == b[0];
    var j :| 0 <= j < |b| && b[j] == a[0];
    LessTotal(key(a[0]), key(b[0]));
  }

  lemma SameTail<T>(a: seq<T>, b: seq<T>)
    requires multiset(a) == multiset(b) && a != [] && b != [] && a[0] == b[0]
    ensures multiset(a[1..]) == multiset(b[1..])
    ensures forall x :: x in a[1..] ==> x in a
  {
    assert a == [a[0]] + a[1..] && b == [b[0]] + b[1..];
    assert multiset(a) == multiset{a[0]} + multiset(a[1..]);
    assert multiset(b) == multiset{b[0]} + multiset(b[1..]);
    assert multiset(a[1..]) == multiset(a) - multiset{a[0]};
    assert multiset(b[1..]) == multiset(b) - multiset{b[0]};
  }

  lemma SortedTail<T>(key: T -> string, a: seq<T>)
    requires SortedBy(key, a) && a != []
    ensures SortedBy(key, a[1..])
  {
  }

  /** Sorting by a key that tells the elements apart has one result. */
  lemma {:induction false} SortedOnce<T>(key: T -> string, a: seq<T>, b: seq<T>)
    requires SortedBy(key, a) && SortedBy(key, b) && multiset(a) == multiset(b)
    requires forall x, y :: x in a && y in a && key(x) == key(y) ==> x == y
    ensures a == b
    decreases |a|
  {
    assert |a| == |multiset(a)| && |b| == |multiset(b)|;
    if a != [] {
      SameHead(key, a, b);
      SameTail(a, b);
      SortedTail(key, a);
      SortedTail(key, b);
      hide SortedBy;
      SortedOnce(key, a[1..], b[1..]);
      assert a == [a[0]] + a[1..] && b == [b[0]] + b[1..];
    }
  }

  /** One string precedes another where they first differ, or as a proper prefix. */
  lemma {:induction false} LessExactly(a: string, b: string)
    ensures Less(a, b) <==>
            exists i :: 0 <= i <= |a| && i < |b| && a[..i] == b[..i] && (i == |a| || a[i] < b[i])
  {
    if a != "" && b != "" {
      if a[0] == b[0] {
        LessExactly(a[1..], b[1..]);
        if Less(a[1..], b[1..]) {
          var i :| 0 <= i <= |a[1..]| && i < |b[1..]| && a[1..][..i] == b[1..][..i] &&
                   (i == |a[1..]| || a[1..][i] < b[1..][i]);
          assert a[..i + 1] == [a[0]] + a[1..][..i] && b[..i + 1] == [b[0]] + b[1..][..i];
        }
        if i :| 0 <= i <= |a| && i < |b| && a[..i] == b[..i] && (i == |a| || a[i] < b[i]) {
          assert a[1..][..i - 1] == a[..i][1..] == b[..i][1..] == b[1..][..i - 1];
        }
      } else {
        forall i | 0 < i <= |a| && i < |b|
          ensures a[..i] != b[..i]
        {
          assert a[..i][0] == a[0] && b[..i][0] == b[0];
        }
        assert a[..0] == b[..0];
      }
    } else {
      assert a[..0] == b[..0];
    }
  }
}
