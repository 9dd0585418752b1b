/** Policy bundles: file checks, the inspected manifest, and the digest of a list of files. */
module Bundle {
  import opened Wrappers
  import opened Ordering
  import opened ByteOrder
  import Dependencies
  import Utf8

  type Bytes = seq<Utf8.Byte>
  type Files = map<string, Bytes>

  const MAX_FILE_BYTES: nat := 0x10_0000
  const MAX_BUNDLE_BYTES: nat := 0x40_0000
  const MAX_FILES: nat := 256
  const MAX_MODULES: nat := 64
  const MANIFEST := "manifest.json"
  const DIGEST_PREFIX := "sha256:"

  datatype Code = BundleLimit | InvalidPath | DuplicateFile | InvalidBundle | ChecksumMismatch | ArchiveWrite

  datatype Manifest = Manifest(
    core: Dependencies.Manifest,
    signingIdentity: string,
    otherMembers: string,
    sourceDigest: string,
    buildDigest: string)

  predicate IsHex(c: char) {
    '0' <= c <= '9' || 'a' <= c <= 'f'
  }

  /** The pattern ^sha256:[a-f0-9]{64}$ . */
  predicate IsDigest(t: string) {
    |t| == 71 && DIGEST_PREFIX <= t && forall i :: 7 <= i < 71 ==> IsHex(t[i])
  }

  function Zeros(n: nat): (t: string)
    ensures |t| == n && forall i :: 0 <= i < n ==> t[i] == '0'
  {
    if n == 0 then "" else ['0'] + Zeros(n - 1)
  }

  /** The digest that stands for a blank field. */
  function ZeroDigest(): (t: string)
    ensures IsDigest(t)
  {
    DIGEST_PREFIX + Zeros(64)
  }

  /**
   SHA-256 as a text digest, the manifest codec, the manifests embedded in other files,
   and the checks of layers, reasons and data, which read no digest field.
   */
  datatype Platform = Platform(
    digest: Bytes -> string,
    parse: Bytes -> Option<Manifest>,
    marshal: Manifest -> Bytes,
    embedded: Files -> Option<seq<Dependencies.Manifest>>,
    contentOk: (seq<Dependencies.Manifest>, Files) -> bool)
  {
    /**
     Digests are well-formed. A parsed manifest with new digests has the length of the blanked
     one, and survives the codec if it is not too long to be parsed.
     */
    ghost predicate Lawful() {
      && (forall x :: IsDigest(digest(x)))
      && parse([]).None?
      && (forall raw, s, b {:trigger Resealed(raw, s, b)} ::
            parse(raw).Some? && IsDigest(s) && IsDigest(b) ==> Resealed(raw, s, b))
    }

    ghost predicate Resealed(raw: Bytes, s: string, b: string)
      requires parse(raw).Some?
    {
      var m := parse(raw).value.(sourceDigest := s, buildDigest := b);
      && |marshal(m)| == |marshal(m.(sourceDigest := ZeroDigest(), buildDigest := ZeroDigest()))|
      && (|marshal(m)| <= MAX_FILE_BYTES ==> parse(marshal(m)) == Some(m))
    }

    /** Manifests with one text are one manifest. */
    ghost predicate Distinguishes(m: Manifest, n: Manifest) {
      marshal(m) == marshal(n) ==> m == n
    }

    /** No two of the given byte strings share a digest. */
    ghost predicate CollisionFree(inputs: set<Bytes>) {
      forall x, y :: x in inputs && y in inputs && digest(x) == digest(y) ==> x == y
    }
  }

  // ----- File checks -----

  /** A relative slash-separated path without dot elements, backslash, colon or NUL. */
  predicate SafePath(name: string) {
    && name != "" && |Utf8.Encode(name)| <= 256
    && '\\' !in name && ':' !in name && '\0' !in name
    && var elements := Dependencies.Split(name, '/');
       forall i :: 0 <= i < |elements| ==> elements[i] != "" && elements[i] != "." && elements[i] != ".."
  }

  predicate IsModule(name: string) {
    |name| >= 5 && name[|name| - 5..] == ".rego"
  }

  /** Total size of the named files, in any order of addition. */
  ghost function TotalSize(files: Files, names: set<string>): nat
    requires names <= files.Keys
  {
    if names == {} then 0 else
      var n :| n in names;
      |files[n]| + TotalSize(files, names - {n})
  }

  lemma {:induction false} TotalSizePick(files: Files, names: set<string>, n: string)
    requires names <= files.Keys && n in names
    ensures TotalSize(files, names) == |files[n]| + TotalSize(files, names - {n})
    decreases |names|
  {
    var k :| k in names && TotalSize(files, names) == |files[k]| + TotalSize(files, names - {k});
    if k != n {
      TotalSizePick(files, names - {k}, n);
      TotalSizePick(files, names - {n}, k);
      assert names - {k} - {n} == names - {n} - {k};
    }
  }

  lemma {:induction false} TotalSizeLocal(files: Files, more: Files, names: set<string>)
    requires names <= files.Keys && names <= more.Keys && forall n :: n in names ==> more[n] == files[n]
    ensures TotalSize(files, names) == TotalSize(more, names)
    decreases |names|
  {
    if names != {} {
      var n :| n in names;
      TotalSizePick(files, names, n);
      TotalSizePick(more, names, n);
      TotalSizeLocal(files, more, names - {n});
    }
  }

  ghost predicate FilesOk(files: Files) {
    && 0 < |files| <= MAX_FILES
    && (forall n :: n in files ==> SafePath(n) && |files[n]| <= MAX_FILE_BYTES)
    && TotalSize(files, files.Keys) <= MAX_BUNDLE_BYTES
    && 0 < |Modules(files.Keys)| <= MAX_MODULES
  }

  ghost function Modules(names: set<string>): set<string> {
    set n | n in names && IsModule(n)
  }

  lemma ModulesStep(names: set<string>, n: string)
    requires n in names
    ensures |Modules(names)| == |Modules(names - {n})| + if IsModule(n) then 1 else 0
  {
    assert Modules(names) == Modules(names - {n}) + if IsModule(n) then {n} else {};
  }

  /** Visits the files in any order; which limit is reported first is open. */
  method CheckFiles(files: Files) returns (err: Option<Code>)
    ensures err.None? <==> FilesOk(files)
    ensures err == Some(InvalidPath) ==> exists n :: n in files && !SafePath(n)
    ensures err.Some? ==> err.value in {BundleLimit, InvalidPath}
  {
    if |files| == 0 || |files| > MAX_FILES {
      return Some(BundleLimit);
    }
    var size, modules := 0, 0;
    var todo := files.Keys;
    while todo != {}
      invariant todo <= files.Keys
      invariant forall n :: n in files && n !in todo ==> SafePath(n) && |files[n]| <= MAX_FILE_BYTES
      invariant size + TotalSize(files, todo) == TotalSize(files, files.Keys)
      invariant modules + |Modules(todo)| == |Modules(files.Keys)|
    {
      var name :| name in todo;
      TotalSizePick(files, todo, name);
      ModulesStep(todo, name);
      todo := todo - {name};
      size := size + |files[name]|;
      if !SafePath(name) {
        return Some(InvalidPath);
      }
      if |files[name]| > MAX_FILE_BYTES {
        return Some(BundleLimit);
      }
      if IsModule(name) {
        modules := modules + 1;
      }
    }
    if size > MAX_BUNDLE_BYTES || modules > MAX_MODULES || modules == 0 {
      return Some(BundleLimit);
    }
    return None;
  }

  // ----- Inspection -----

  predicate IdentityOk(identity: string) {
    identity == "unsigned" || ("key:" <= identity && TrimSpace(identity) != "key:")
  }

  /** strings.TrimSpace. */
  function TrimSpace(s: string): string {
    TrimRight(TrimLeft(s))
  }

  /** unicode.IsSpace: the characters with the property White_Space. */
  predicate IsBlank(c: char) {
    var n := c as int;
    || c == ' ' || '\t' <= c <= '\r' || n == 0x85 || n == 0xA0 || n == 0x1680 || 0x2000 <= n <= 0x200A
    || n == 0x2028 || n == 0x2029 || n == 0x202F || n == 0x205F || n == 0x3000
  }

  function TrimLeft(s: string): string {
    if s != "" && IsBlank(s[0]) then TrimLeft(s[1..]) else s
  }

  function TrimRight(s: string): string {
    if s != "" && IsBlank(s[|s| - 1]) then TrimRight(s[..|s| - 1]) else s
  }

  lemma LeftTrimmed(s: string)
    ensures s != "" && !IsBlank(s[0]) ==> TrimLeft(s) == s
  {
  }

  lemma {:induction false} RightTrimmed(head: string, rest: string)
    requires head != "" && !IsBlank(head[|head| - 1])
    ensures TrimRight(head + rest) == head <==> forall i :: 0 <= i < |rest| ==> IsBlank(rest[i])
    ensures |TrimRight(head + rest)| >= |head|
  {
    if rest == "" {
      assert head + rest == head;
    } else {
      var last := rest[|rest| - 1];
      assert (head + rest)[|head + rest| - 1] == last;
      assert (head + rest)[..|head + rest| - 1] == head + rest[..|rest| - 1];
      RightTrimmed(head, rest[..|rest| - 1]);
    }
  }

  /** A signing identity is the word unsigned, or "key:" and something that is not blank. */
  lemma IdentityExactly(identity: string)
    ensures IdentityOk(identity) <==>
            || identity == "unsigned"
            || (|identity| > 4 && identity[..4] == "key:" && exists i :: 4 <= i < |identity| && !IsBlank(identity[i]))
  {
    if "key:" <= identity {
      var rest := identity[4..];
      assert identity == "key:" + rest;
      LeftTrimmed(identity);
      RightTrimmed("key:", rest);
      assert forall i :: 4 <= i < |identity| ==> identity[i] == rest[i - 4];
      hide TrimRight, TrimLeft, IsBlank;
    }
  }

  function Others(files: Files): Files {
    files - {MANIFEST}
  }

  function RawManifest(files: Files): Bytes {
    if MANIFEST in files then files[MANIFEST] else []
  }

  ghost function Manifests(pl: Platform, others: Files, m: Manifest): seq<Dependencies.Manifest>
    requires pl.embedded(others).Some?
  {
    [m.core] + pl.embedded(others).value
  }

  /** The manifest of a bundle that passes every check, None otherwise. */
  ghost function Inspected(pl: Platform, files: Files): Option<Manifest> {
    if FilesOk(files) then Checked(pl, pl.parse(RawManifest(files)), Others(files)) else None
  }

  ghost function Checked(pl: Platform, m: Option<Manifest>, others: Files): Option<Manifest> {
    if m.Some? && ChecksPass(pl, others, m.value) then m else None
  }

  /** The checks that read the other files and the manifest's own members, but no digest. */
  ghost predicate ChecksPass(pl: Platform, others: Files, m: Manifest) {
    && pl.embedded(others).Some?
    && Dependencies.Sound(Manifests(pl, others, m))
    && IdentityOk(m.signingIdentity)
    && pl.contentOk(Manifests(pl, others, m), others)
  }

  method Inspect(pl: Platform, files: Files) returns (r: Result<Manifest, Code>)
    ensures r.Ok? <==> Inspected(pl, files).Some?
    ensures r.Ok? ==> Inspected(pl, files) == Some(r.value)
    ensures r.Err? ==> r.error in {BundleLimit, InvalidPath, InvalidBundle}
  {
    var err := CheckFiles(files);
    if err.Some? {
      return Err(err.value);
    }
    var m := pl.parse(RawManifest(files));
    if m.None? {
      return Err(InvalidBundle);
    }
    var embedded := pl.embedded(Others(files));
    if embedded.None? {
      return Err(InvalidBundle);
    }
    var manifests := [m.value.core] + embedded.value;
    var bad := Dependencies.ValidateDependencies(manifests);
    if bad.Some? || !IdentityOk(m.value.signingIdentity) || !pl.contentOk(manifests, Others(files)) {
      return Err(InvalidBundle);
    }
    return Ok(m.value);
  }

  // ----- Digests -----

  /** One line per file, name NUL digest LF, in ascending order of name. */
  ghost function Lines(pl: Platform, files: Files, names: seq<string>): string
    requires forall i :: 0 <= i < |names| ==> names[i] in files
  {
    if names == [] then ""
    else names[0] + (['\0'] + (pl.digest(files[names[0]]) + (['\n'] + Lines(pl, files, names[1..]))))
  }

  ghost function Sheet(pl: Platform, files: Files): string {
    assert forall n :: n in Ascending(files.Keys) ==> n in files;
    Lines(pl, files, Ascending(files.Keys))
  }

  ghost function Preimage(pl: Platform, files: Files): Bytes {
    Utf8.Encode(Sheet(pl, files))
  }

  ghost function FileDigest(pl: Platform, files: Files): string {
    pl.digest(Preimage(pl, files))
  }

  /** The bytes of the lines: a name, NUL, the digest of the file, LF. */
  ghost function LineBytes(pl: Platform, files: Files, names: seq<string>): Bytes
    requires forall i :: 0 <= i < |names| ==> names[i] in files
  {
    if names == [] then []
    else Utf8.Encode(names[0]) + [0] + Utf8.Encode(pl.digest(files[names[0]])) + [10] + LineBytes(pl, files, names[1..])
  }

  lemma Separators()
    ensures Utf8.Encode(['\0']) == [0] && Utf8.Encode(['\n']) == [10]
  {
    assert Utf8.Encode(['\0'][1..]) == [] && Utf8.Encode(['\n'][1..]) == [];
  }

  lemma LineEncoded(name: string, digest: string, rest: string)
    ensures Utf8.Encode(name + (['\0'] + (digest + (['\n'] + rest)))) ==
            Utf8.Encode(name) + [0] + Utf8.Encode(digest) + [10] + Utf8.Encode(rest)
  {
    hide Utf8.Encode;
    Separators();
    Utf8.EncodeAppend(['\n'], rest);
    Utf8.EncodeAppend(digest, ['\n'] + rest);
    Utf8.EncodeAppend(['\0'], digest + (['\n'] + rest));
    Utf8.EncodeAppend(name, ['\0'] + (digest + (['\n'] + rest)));
  }

  lemma {:induction false} LinesEncoded(pl: Platform, files: Files, names: seq<string>)
    requires forall i :: 0 <= i < |names| ==> names[i] in files
    ensures Utf8.Encode(Lines(pl, files, names)) == LineBytes(pl, files, names)
  {
    if names == [] {
      NoLines(pl, files);
    } else {
      hide Utf8.Encode;
      LinesEncoded(pl, files, names[1..]);
      LineEncoded(names[0], pl.digest(files[names[0]]), Lines(pl, files, names[1..]));
    }
  }

  /** The digest of files is the digest of their lines, whose names are exactly theirs and ascend in their bytes. */
  lemma FileDigestMeans(pl: Platform, files: Files, names: seq<string>)
    requires forall n :: n in names <==> n in files
    requires forall i, j :: 0 <= i < j < |names| ==> Utf8.BytesLess(Utf8.Encode(names[i]), Utf8.Encode(names[j]))
    ensures (forall i :: 0 <= i < |names| ==> names[i] in files)
    ensures FileDigest(pl, files) == pl.digest(LineBytes(pl, files, names))
  {
    forall i, j | 0 <= i < j < |names|
      ensures Less(names[i], names[j])
    {
      Utf8.ByteOrderIsScalarOrder(names[i], names[j]);
    }
    hide Utf8.Encode, Utf8.BytesLess, Lines, LineBytes, Less;
    forall i | 0 <= i < |names|
      ensures names[i] in files
    {
      assert names[i] in names;
    }
    AscendingUnique(names, Ascending(files.Keys));
    LinesEncoded(pl, files, names);
  }

  /** Everything that is hashed to obtain the digest of files. */
  ghost function Hashed(pl: Platform, files: Files): set<Bytes> {
    files.Values + {Preimage(pl, files)}
  }

  function Line(name: string, digest: string): string {
    name + (['\0'] + (digest + ['\n']))
  }

  lemma {:induction false} LinesSnoc(pl: Platform, files: Files, names: seq<string>, n: string)
    requires n in files && forall i :: 0 <= i < |names| ==> names[i] in files
    ensures Lines(pl, files, names + [n]) == Lines(pl, files, names) + Line(n, pl.digest(files[n]))
  {
    if names == [] {
      assert names + [n] == [n] && [n][1..] == [];
    } else {
      assert (names + [n])[1..] == names[1..] + [n];
      LinesSnoc(pl, files, names[1..], n);
      LineAppends(names[0], pl.digest(files[names[0]]), Lines(pl, files, names[1..]), Line(n, pl.digest(files[n])));
    }
  }

  lemma LineAppends(name: string, digest: string, rest: string, line: string)
    ensures name + (['\0'] + (digest + (['\n'] + (rest + line)))) ==
            (name + (['\0'] + (digest + (['\n'] + rest)))) + line
  {
  }

  lemma NoLines(pl: Platform, files: Files)
    ensures Lines(pl, files, []) == ""
  {
  }

  method ComputeFileDigest(pl: Platform, files: Files) returns (d: string)
    ensures d == FileDigest(pl, files)
  {
    hide Lines, Line, Utf8.Encode;
    var names := SortedKeys(files.Keys);
    assert forall n :: n in names ==> n in files;
    var text := "";
    assert names[..0] == [];
    NoLines(pl, files);
    for i := 0 to |names|
      invariant text == Lines(pl, files, names[..i])
    {
      LinesSnoc(pl, files, names[..i], names[i]);
      TakeSnoc(names, i);
      text := text + Line(names[i], pl.digest(files[names[i]]));
    }
    assert names[..|names|] == names;
    return pl.digest(Utf8.Encode(text));
  }

  /** The preimage decodes uniquely for NUL-free names: equal lines name equal files by equal digests. */
  lemma {:induction false} LinesInjective(pl: Platform, f: Files, a: seq<string>, g: Files, b: seq<string>)
    requires pl.Lawful()
    requires forall i :: 0 <= i < |a| ==> a[i] in f && '\0' !in a[i]
    requires forall i :: 0 <= i < |b| ==> b[i] in g && '\0' !in b[i]
    requires Lines(pl, f, a) == Lines(pl, g, b)
    ensures a == b
    ensures forall i :: 0 <= i < |a| ==> pl.digest(f[a[i]]) == pl.digest(g[b[i]])
    decreases |a|
  {
    if a != [] && b != [] {
      var d, e := pl.digest(f[a[0]]), pl.digest(g[b[0]]);
      var x, y := Lines(pl, f, a[1..]), Lines(pl, g, b[1..]);
      SeparatorFound(a[0], d + (['\n'] + x), b[0], e + (['\n'] + y));
      SameLengthSplit(d, ['\n'] + x, e, ['\n'] + y);
      SameLengthSplit(['\n'], x, ['\n'], y);
      LinesInjective(pl, f, a[1..], g, b[1..]);
      assert a == [a[0]] + a[1..] && b == [b[0]] + b[1..];
    }
  }

  lemma SeparatorFound(a: string, x: string, b: string, y: string)
    requires '\0' !in a && '\0' !in b && a + (['\0'] + x) == b + (['\0'] + y)
    ensures a == b && x == y
  {
    Dependencies.SplitOfPair(a, x, '\0');
    Dependencies.SplitOfPair(b, y, '\0');
    assert ([a] + Dependencies.Split(x, '\0'))[0] == ([b] + Dependencies.Split(y, '\0'))[0];
    SameLengthSplit(a, ['\0'] + x, b, ['\0'] + y);
    SameLengthSplit(['\0'], x, ['\0'], y);
  }

  lemma SameLengthSplit(a: string, x: string, b: string, y: string)
    requires |a| == |b| && a + x == b + y
    ensures a == b && x == y
  {
    assert a == (a + x)[..|a|] && b == (b + y)[..|b|];
    assert x == (a + x)[|a|..] && y == (b + y)[|b|..];
  }

  lemma Listed(files: Files)
    requires forall n :: n in files ==> '\0' !in n
    ensures var names := Ascending(files.Keys);
            && (forall n :: n in names <==> n in files)
            && forall i :: 0 <= i < |names| ==> names[i] in files && '\0' !in names[i]
  {
    var names := Ascending(files.Keys);
    hide Ascending, StrictlyAscending, Less;
    forall i | 0 <= i < |names|
      ensures names[i] in files && '\0' !in names[i]
    {
      assert names[i] in names;
    }
  }

  /** Equal sheets list the same files with the same digests. */
  lemma SheetsAgree(pl: Platform, f: Files, g: Files)
    requires pl.Lawful() && Sheet(pl, f) == Sheet(pl, g)
    requires forall n :: n in f ==> '\0' !in n
    requires forall n :: n in g ==> '\0' !in n
    requires pl.CollisionFree(f.Values + g.Values)
    ensures f == g
  {
    hide Lines, Ascending, StrictlyAscending, Less, Platform.Lawful, Platform.CollisionFree;
    var a, b := Ascending(f.Keys), Ascending(g.Keys);
    Listed(f);
    Listed(g);
    LinesInjective(pl, f, a, g, b);
    SameFiles(pl, f, a, g);
  }

  /** Equal file digests mean equal files, unless two hashed inputs collide. */
  lemma FileDigestBinds(pl: Platform, f: Files, g: Files)
    requires pl.Lawful() && FileDigest(pl, f) == FileDigest(pl, g)
    requires forall n :: n in f ==> '\0' !in n
    requires forall n :: n in g ==> '\0' !in n
    requires pl.CollisionFree(Hashed(pl, f) + Hashed(pl, g))
    ensures f == g
  {
    assert Preimage(pl, f) == Preimage(pl, g);
    Utf8.EncodeInjective(Sheet(pl, f), Sheet(pl, g));
    SheetsAgree(pl, f, g);
  }

  lemma SameFiles(pl: Platform, f: Files, names: seq<string>, g: Files)
    requires forall n :: n in names <==> n in f
    requires forall n :: n in names <==> n in g
    requires forall i :: 0 <= i < |names| ==> pl.digest(f[names[i]]) == pl.digest(g[names[i]])
    requires pl.CollisionFree(f.Values + g.Values)
    ensures f == g
  {
    forall n | n in f
      ensures n in g && f[n] == g[n]
    {
      var i :| 0 <= i < |names| && names[i] == n;
      assert f[n] in f.Values && g[n] in g.Values;
    }
  }
}
