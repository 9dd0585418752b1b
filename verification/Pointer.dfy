/**
 JSON pointers (RFC 6901): the path strings that normalisation builds and the
 path strings that obligations carry.
 */
module Pointer {

  /** strings.ReplaceAll with a one-character pattern. */
  function ReplaceAll(s: string, c: char, text: string): string {
    if s == "" then "" else (if s[0] == c then text else [s[0]]) + ReplaceAll(s[1..], c, text)
  }

  function Escape(token: string): string {
    ReplaceAll(ReplaceAll(token, '~', "~0"), '/', "~1")
  }

  /** Section 4 of RFC 6901: "~1" stands for '/', "~0" for '~'. */
  function Unescape(s: string): string {
    if |s| >= 2 && s[0] == '~' && s[1] == '1' then "/" + Unescape(s[2..])
    else if |s| >= 2 && s[0] == '~' && s[1] == '0' then "~" + Unescape(s[2..])
    else if s == "" then ""
    else [s[0]] + Unescape(s[1..])
  }

  function EscapeChar(c: char): string {
    if c == '~' then "~0" else if c == '/' then "~1" else [c]
  }

  lemma {:induction false} ReplaceAllAppend(s: string, t: string, c: char, text: string)
    ensures ReplaceAll(s + t, c, text) == ReplaceAll(s, c, text) + ReplaceAll(t, c, text)
  {
    if s == "" {
      assert s + t == t;
    } else {
      assert (s + t)[1..] == s[1..] + t;
      ReplaceAllAppend(s[1..], t, c, text);
    }
  }

  /** The two replacement passes act character by character. */
  lemma EscapeStep(c: char, t: string)
    ensures Escape([c] + t) == EscapeChar(c) + Escape(t)
  {
    var head := if c == '~' then "~0" else [c];
    assert ([c] + t)[1..] == t;
    assert ReplaceAll([c] + t, '~', "~0") == head + ReplaceAll(t, '~', "~0");
    ReplaceAllAppend(head, ReplaceAll(t, '~', "~0"), '/', "~1");
    assert head[1..] == if c == '~' then "0" else "";
    assert "0"[1..] == "";
    assert ReplaceAll(head, '/', "~1") == EscapeChar(c);
  }

  lemma {:induction false} UnescapeEscape(t: string)
    ensures Unescape(Escape(t)) == t
    ensures '/' !in Escape(t)
  {
    if t != "" {
      EscapeStep(t[0], t[1..]);
      assert t == [t[0]] + t[1..];
      UnescapeEscape(t[1..]);
      assert Escape(t)[|EscapeChar(t[0])|..] == Escape(t[1..]);
    }
  }

  /** The pointer to the value reached by the given reference tokens. */
  function FromTokens(tokens: seq<string>): string {
    if tokens == [] then "" else "/" + Escape(tokens[0]) + FromTokens(tokens[1..])
  }

  lemma {:induction false} FromTokensAppend(tokens: seq<string>, t: string)
    ensures FromTokens(tokens + [t]) == FromTokens(tokens) + "/" + Escape(t)
  {
    if tokens == [] {
      assert tokens + [t] == [t];
      assert [t][1..] == [];
    } else {
      assert (tokens + [t])[1..] == tokens[1..] + [t];
      FromTokensAppend(tokens[1..], t);
    }
  }

  function FirstSlash(s: string): nat {
    if s == "" || s[0] == '/' then 0 else 1 + FirstSlash(s[1..])
  }

  predicate Bounded(x: string) {
    x == "" || x[0] == '/'
  }

  lemma {:induction false} FirstSlashAt(u: string, x: string)
    requires '/' !in u && Bounded(x)
    ensures FirstSlash(u + x) == |u|
  {
    if u == "" {
      assert u + x == x;
    } else {
      assert (u + x)[1..] == u[1..] + x;
      FirstSlashAt(u[1..], x);
    }
  }

  /** Text before the first '/' is determined by a string that has it as a token. */
  lemma FirstTokenDetermined(u: string, v: string, x: string, y: string)
    requires '/' !in u && '/' !in v && Bounded(x) && Bounded(y)
    requires u + x <= v + y
    requires x == "" ==> u + x == v + y
    ensures u == v && x <= y
  {
    var s, t := u + x, v + y;
    var more := t[|s|..];
    assert t == u + (x + more);
    FirstSlashAt(u, x + more);
    FirstSlashAt(v, y);
    assert u == t[..|u|] && v == t[..|v|];
    assert y == t[|u|..] == x + more;
  }

  /** A nonempty pointer is '/', its first token escaped, and the rest. */
  lemma PeelToken(a: seq<string>)
    requires a != []
    ensures var x := FromTokens(a[1..]);
            FromTokens(a) == "/" + (Escape(a[0]) + x) && '/' !in Escape(a[0]) && (x == "" || x[0] == '/')
  {
    UnescapeEscape(a[0]);
  }

  /** A pointer selects one position only. */
  lemma {:induction false} FromTokensInjective(a: seq<string>, b: seq<string>)
    requires FromTokens(a) == FromTokens(b)
    ensures a == b
  {
    if a != [] && b != [] {
      PeelToken(a);
      PeelToken(b);
      var x, y := FromTokens(a[1..]), FromTokens(b[1..]);
      DropSlash(Escape(a[0]) + x, Escape(b[0]) + y);
      FirstTokenDetermined(Escape(a[0]), Escape(b[0]), x, y);
      EscapeInjective(a[0], b[0]);
      assert |x| == |y|;
      FromTokensInjective(a[1..], b[1..]);
      assert a == [a[0]] + a[1..] && b == [b[0]] + b[1..];
    }
  }

  lemma DropSlash(s: string, t: string)
    ensures "/" + s <= "/" + t <==> s <= t
    ensures "/" + s == "/" + t <==> s == t
  {
    assert ("/" + s)[1..] == s && ("/" + t)[1..] == t;
    if "/" + s <= "/" + t {
      assert "/" + s == ("/" + t)[..1 + |s|];
      assert s == t[..|s|];
    }
  }

  predicate HasPrefix(s: string, p: string) {
    p <= s
  }

  /** The test composition applies to two obligation paths. */
  predicate Overlaps(a: string, b: string) {
    a == b || HasPrefix(a, b + "/") || HasPrefix(b, a + "/")
  }

  lemma {:induction false} StrictPrefix(a: seq<string>, b: seq<string>)
    ensures HasPrefix(FromTokens(b), FromTokens(a) + "/") <==> a < b
  {
    if a == [] {
      if b != [] { PeelToken(b); }
    } else if b != [] {
      PeelToken(a);
      PeelToken(b);
      StrictPrefix(a[1..], b[1..]);
      StrictPrefixStep(a, b);
    }
  }

  lemma StrictPrefixStep(a: seq<string>, b: seq<string>)
    requires a != [] && b != []
    requires HasPrefix(FromTokens(b[1..]), FromTokens(a[1..]) + "/") <==> a[1..] < b[1..]
    ensures HasPrefix(FromTokens(b), FromTokens(a) + "/") <==> a < b
  {
    PeelToken(a);
    PeelToken(b);
    var e, f := Escape(a[0]), Escape(b[0]);
    var x, y := FromTokens(a[1..]) + "/", FromTokens(b[1..]);
    Regroup(e, FromTokens(a[1..]));
    DropSlash(e + x, f + y);
    if e + x <= f + y {
      FirstTokenDetermined(e, f, x, y);
      EscapeInjective(a[0], b[0]);
    }
    hide FromTokens, Escape;
    if e == f && x <= y {
      AppendPrefix(e, x, y);
    }
    ConsPrefix(a, b);
  }

  lemma Regroup(e: string, x: string)
    ensures ("/" + (e + x)) + "/" == "/" + (e + (x + "/"))
  {
  }

  lemma AppendPrefix(e: string, x: string, y: string)
    requires x <= y
    ensures e + x <= e + y
  {
    assert e + y == (e + x) + y[|x|..];
  }

  lemma ConsPrefix(a: seq<string>, b: seq<string>)
    requires a != [] && b != []
    ensures a < b <==> a[0] == b[0] && a[1..] < b[1..]
  {
    if a[0] == b[0] && a[1..] < b[1..] {
      assert a == [a[0]] + a[1..] && b == [b[0]] + (a[1..] + b[|a|..]);
    }
  }

  lemma EscapeInjective(a: string, b: string)
    requires Escape(a) == Escape(b)
    ensures a == b
  {
    UnescapeEscape(a);
    UnescapeEscape(b);
  }

  /** The obligation schema's pattern ^(/([^~/]|~[01])*)*$ . */
  predicate IsPointer(s: string) {
    s == "" || (s[0] == '/' && IsPointerTail(s[1..]))
  }

  predicate IsPointerTail(s: string) {
    if s == "" then true
    else if s[0] == '~' then |s| >= 2 && (s[1] == '0' || s[1] == '1') && IsPointerTail(s[2..])
    else IsPointerTail(s[1..])
  }

  function Tokens(s: string): seq<string>
    requires IsPointer(s)
  {
    if s == "" then [] else TailTokens(s[1..])
  }

  function TailTokens(s: string): (r: seq<string>)
    requires IsPointerTail(s)
    ensures r != []
  {
    if s == "" then [""]
    else if s[0] == '/' then [""] + TailTokens(s[1..])
    else if s[0] == '~' then
      var r := TailTokens(s[2..]);
      [[if s[1] == '0' then '~' else '/'] + r[0]] + r[1..]
    else
      var r := TailTokens(s[1..]);
      [[s[0]] + r[0]] + r[1..]
  }

  lemma {:induction false} TailTokensRebuild(s: string)
    requires IsPointerTail(s)
    ensures FromTokens(TailTokens(s)) == "/" + s
  {
    if s == "" {
      assert [""][1..] == [];
    } else if s[0] == '/' {
      TailTokensRebuild(s[1..]);
      PrependEmpty(TailTokens(s[1..]));
      assert s == "/" + s[1..];
    } else {
      var n := if s[0] == '~' then 2 else 1;
      var c := if s[0] != '~' then s[0] else if s[1] == '0' then '~' else '/';
      TailTokensRebuild(s[n..]);
      PrependChar(c, TailTokens(s[n..]), s[n..]);
      assert s == EscapeChar(c) + s[n..];
    }
  }

  lemma PrependEmpty(r: seq<string>)
    ensures FromTokens([""] + r) == "/" + FromTokens(r)
  {
    assert ([""] + r)[1..] == r;
  }

  lemma PrependChar(c: char, r: seq<string>, s: string)
    requires r != [] && FromTokens(r) == "/" + s
    ensures FromTokens([[c] + r[0]] + r[1..]) == "/" + (EscapeChar(c) + s)
  {
    var q, rest := [[c] + r[0]] + r[1..], FromTokens(r[1..]);
    PeelToken(r);
    DropSlash(Escape(r[0]) + rest, s);
    assert q[0] == [c] + r[0] && q[1..] == r[1..];
    PeelToken(q);
    EscapeStep(c, r[0]);
    Assoc(EscapeChar(c), Escape(r[0]), rest);
  }

  lemma Assoc(a: string, b: string, c: string)
    ensures (a + b) + c == a + (b + c)
  {
  }

  lemma TokensRebuild(s: string)
    requires IsPointer(s)
    ensures FromTokens(Tokens(s)) == s
  {
    if s != "" {
      TailTokensRebuild(s[1..]);
    }
  }

  /** Well-formed paths overlap exactly when one token list is a prefix of the other. */
  lemma OverlapsIsPrefix(a: string, b: string)
    requires IsPointer(a) && IsPointer(b)
    ensures Overlaps(a, b) <==> Tokens(a) <= Tokens(b) || Tokens(b) <= Tokens(a)
  {
    TokensRebuild(a);
    TokensRebuild(b);
    StrictPrefix(Tokens(a), Tokens(b));
    StrictPrefix(Tokens(b), Tokens(a));
    assert Tokens(a) == Tokens(b) ==> a == b;
  }

  /** "~0" for a tilde, "~1" for a slash, and every other character as it is. */
  lemma EscapeSpelled(c: char, t: string)
    ensures Escape("") == ""
    ensures Escape([c] + t) == (if c == '~' then "~0" else if c == '/' then "~1" else [c]) + Escape(t)
  {
    EscapeStep(c, t);
  }

  lemma {:induction false} EscapedTail(t: string, rest: string)
    requires IsPointerTail(rest)
    ensures IsPointerTail(Escape(t) + rest)
  {
    if t == "" {
      assert Escape(t) + rest == rest;
    } else {
      EscapedTail(t[1..], rest);
      var e := EscapeChar(t[0]);
      var s := Escape(t[1..]) + rest;
      EscapeStep(t[0], t[1..]);
      assert t == [t[0]] + t[1..];
      Assoc(e, Escape(t[1..]), rest);
      assert (e + s)[|e|..] == s;
    }
  }

  lemma {:induction false} TokensMakePointer(tokens: seq<string>)
    ensures IsPointer(FromTokens(tokens))
  {
    if tokens != [] {
      TokensMakePointer(tokens[1..]);
      var rest := FromTokens(tokens[1..]);
      EscapedTail(tokens[0], rest);
      Assoc("/", Escape(tokens[0]), rest);
      assert ("/" + (Escape(tokens[0]) + rest))[1..] == Escape(tokens[0]) + rest;
    }
  }

  /** The pattern matches exactly the pointers that some list of tokens makes. */
  lemma PointersExactly(s: string)
    ensures IsPointer(s) <==> exists tokens :: s == FromTokens(tokens)
  {
    if IsPointer(s) { TokensRebuild(s); }
    if tokens :| s == FromTokens(tokens) { TokensMakePointer(tokens); }
  }
}
