/**
 How Go compares strings, byte by byte, and the library sorts built on it. Their
 results are stated in scalar order, which the order of UTF-8 bytes is proved to be.
 */
module ByteOrder {
  import opened Wrappers
  import opened Ordering
  import Utf8

  /** a < b on Go strings. */
  predicate StringLess(a: string, b: string) {
    Utf8.BytesLess(Utf8.Encode(a), Utf8.Encode(b))
  }

  lemma StringLessIsLess(a: string, b: string)
    ensures StringLess(a, b) <==> Less(a, b)
  {
    Utf8.ByteOrderIsScalarOrder(a, b);
  }

  /** slices.SortFunc by strings.Compare of a key: a sorted permutation, with no promise on ties. */
  method SortFunc<T>(key: T -> string, s: seq<T>) returns (r: seq<T>)
    ensures SortedBy(key, r)
    ensures multiset(r) == multiset(s)
  {
    hide StringLess;
    r := [];
    for i := 0 to |s|
      invariant SortedBy(key, r)
      invariant multiset(r) == multiset(s[..i])
    {
      var x := s[i];
      var j := |r|;
      while j > 0 && StringLess(key(x), key(r[j - 1]))
        invariant 0 <= j <= |r|
        invariant forall k :: j <= k < |r| ==> Less(key(x), key(r[k]))
      {
        StringLessIsLess(key(x), key(r[j - 1]));
        j := j - 1;
      }
      if j > 0 { StringLessIsLess(key(x), key(r[j - 1])); }
      InsertSorted(key, r, j, x);
      InsertedOnce(r, j, x);
      TakeSnoc(s, i);
      hide SortedBy;
      r := r[..j] + [x] + r[j..];
    }
    assert s[..|s|] == s;
  }

  /** slices.Sort on strings followed by the scan for equal neighbours. */
  method SortSet(values: seq<string>) returns (r: Option<seq<string>>)
    ensures r.Some? <==> forall i, j :: 0 <= i < j < |values| ==> values[i] != values[j]
    ensures r.Some? ==> r.value == Ascending(set x | x in values) && |r.value| == |values|
  {
    var sorted := SortFunc((x: string) => x, values);
    for i := 0 to |sorted|
      invariant StrictlyAscending(sorted[..i])
    {
      if i > 0 && sorted[i] == sorted[i - 1] {
        DuplicateInBoth(sorted, values, i);
        return None;
      }
      AscendingExtends(sorted, i);
    }
    assert sorted[..|sorted|] == sorted;
    DistinctInBoth(sorted, values);
    SortedDistinct(values, sorted);
    return Some(sorted);
  }

  /** slices.Sort followed by slices.Compact. */
  method SortCompact(values: seq<string>) returns (r: seq<string>)
    ensures r == Ascending(set x | x in values)
  {
    var sorted := SortFunc((x: string) => x, values);
    SameElements(sorted, values);
    r := [];
    for i := 0 to |sorted|
      invariant forall x :: x in r <==> x in sorted[..i]
      invariant StrictlyAscending(r)
      invariant if i == 0 then r == [] else r != [] && r[|r| - 1] == sorted[i - 1]
    {
      assert sorted[..i + 1] == sorted[..i] + [sorted[i]];
      if i == 0 || sorted[i] != sorted[i - 1] {
        if i > 0 {
          LessTotal(sorted[i - 1], sorted[i]);
          AppendAscending(r, sorted[i]);
        }
        r := r + [sorted[i]];
      }
    }
    assert sorted[..|sorted|] == sorted;
    AscendingUnique(r, Ascending(set x | x in values));
  }

  /** The keys of a map: collected in the order of iteration, then sorted. */
  method SortedKeys(s: set<string>) returns (keys: seq<string>)
    ensures keys == Ascending(s)
  {
    var collected: seq<string> := [];
    var todo := s;
    while todo != {}
      invariant todo <= s
      invariant forall k :: k in collected <==> k in s && k !in todo
      invariant forall i, j :: 0 <= i < j < |collected| ==> collected[i] != collected[j]
    {
      var key :| key in todo;
      todo := todo - {key};
      collected := collected + [key];
    }
    var sorted := SortSet(collected);
    assert (set k | k in collected) == s;
    keys := sorted.value;
  }
}
