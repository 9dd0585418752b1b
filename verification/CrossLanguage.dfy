/** The promise behind every digest: both implementations print the same bytes. */
module CrossLanguage {
  import opened Wrappers
  import opened Ordering
  import opened JsonText
  import opened CanonicalProfile
  import ByteOrder
  import Normalization
  import TypeScriptSdk
  import Utf8

  /**
   Runs both implementations on one text under one profile. They accept the same
   texts, and where they accept the Go bytes are the UTF-8 form of the TypeScript text.
   */
  method CanonicalizeBoth(u: Unicode, s: string, p: Profile)
    returns (go: Result<seq<Utf8.Byte>, Normalization.Code>, ts: Option<string>)
    ensures go.Ok? <==> ts.Some?
    ensures go.Ok? ==> go.value == Utf8.Encode(ts.value)
  {
    Utf8.DecodeEncoded(s);
    go := Normalization.Canonicalize(u, Utf8.Encode(s), p);
    ts := TypeScriptSdk.Canonicalize(u, s, p);
  }

  /** Sorting by bytes in Go and by code points in TypeScript gives one list, repetitions included. */
  method SortBoth(values: seq<string>) returns (go: seq<string>, ts: seq<string>)
    ensures go == ts && multiset(go) == multiset(values)
    ensures forall i, j :: 0 <= i < j < |go| ==> !ByteOrder.StringLess(go[j], go[i])
  {
    go := ByteOrder.SortFunc((x: string) => x, values);
    ts := TypeScriptSdk.Sort(values);
    SortedOnce((x: string) => x, go, ts);
    forall i, j | 0 <= i < j < |go|
      ensures !ByteOrder.StringLess(go[j], go[i])
    {
      ByteOrder.StringLessIsLess(go[j], go[i]);
    }
  }
}
