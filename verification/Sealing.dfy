/** The two-stage digest of a bundle, archives, and what equal revisions mean. */
module Sealing {
  import opened Wrappers
  import opened Bundle
  import ByteOrder
  import Dependencies
  import Ordering
  import Utf8

  type Revision = string

  // ----- Sealing -----

  /** The files with the manifest rewritten. */
  function WithManifest(pl: Platform, files: Files, m: Manifest): Files {
    files[MANIFEST := pl.marshal(m)]
  }

  function Blank(m: Manifest): Manifest {
    m.(sourceDigest := ZeroDigest(), buildDigest := ZeroDigest())
  }

  /** First stage: the digest of the files with both self-referential fields blank. */
  ghost function WithSource(pl: Platform, files: Files, m: Manifest): Manifest {
    Blank(m).(sourceDigest := FileDigest(pl, WithManifest(pl, files, Blank(m))))
  }

  /** What the revision is the digest of: the build field alone is blank. */
  ghost function BuildInput(pl: Platform, files: Files, m: Manifest): Files {
    WithManifest(pl, files, WithSource(pl, files, m))
  }

  ghost function SealedManifest(pl: Platform, files: Files, m: Manifest): Manifest {
    WithSource(pl, files, m).(buildDigest := FileDigest(pl, BuildInput(pl, files, m)))
  }

  /** The sealed files and manifest of a bundle that passes inspection. */
  ghost function Sealed(pl: Platform, files: Files): Option<(Files, Manifest)> {
    var m := Inspected(pl, files);
    if m.None? then None
    else Some((WithManifest(pl, files, SealedManifest(pl, files, m.value)), SealedManifest(pl, files, m.value)))
  }

  const EIGHT := "00000000"

  /** A digest field that is blank. */
  const ZERO := "sha256:" + (EIGHT + EIGHT + EIGHT + EIGHT + EIGHT + EIGHT + EIGHT + EIGHT)

  /**
   The two digests of a bundle: the build digest is that of the files with only the build field blank, so it
   covers the source digest, and the source digest is that of the files with both fields blank.
   */
  ghost predicate CarriesDigests(pl: Platform, files: Files, s: Manifest) {
    && s.buildDigest == FileDigest(pl, files["manifest.json" := pl.marshal(s.(buildDigest := ZERO))])
    && s.sourceDigest ==
         FileDigest(pl, files["manifest.json" := pl.marshal(s.(sourceDigest := ZERO, buildDigest := ZERO))])
  }

  lemma ZeroIs()
    ensures ZeroDigest() == ZERO
  {
    assert Zeros(4) == "0000";
    assert Zeros(8) == EIGHT by { ZerosAppend(4, 4); }
    ZerosAppend(8, 8);
    ZerosAppend(16, 16);
    ZerosAppend(32, 32);
    hide Zeros;
  }

  lemma {:induction false} ZerosAppend(m: nat, n: nat)
    ensures Zeros(m + n) == Zeros(m) + Zeros(n)
  {
    if m > 0 {
      ZerosAppend(m - 1, n);
    }
  }

  /** Sealing changes the manifest, in its digest fields, which then carry the two digests of the result. */
  lemma SealedExactly(pl: Platform, files: Files, out: Files, s: Manifest)
    ensures Sealed(pl, files) == Some((out, s)) <==>
            && Inspected(pl, files).Some? && out == files["manifest.json" := pl.marshal(s)]
            && s == Inspected(pl, files).value.(sourceDigest := s.sourceDigest, buildDigest := s.buildDigest)
            && CarriesDigests(pl, out, s)
  {
    hide Inspected, FileDigest, ZeroDigest;
    ZeroIs();
    RewriteTwice(pl, files, s, s.(buildDigest := ZERO));
    RewriteTwice(pl, files, s, s.(sourceDigest := ZERO, buildDigest := ZERO));
  }

  /** The digests a bundle's manifest carries are the ones sealing computes. */
  ghost predicate Verified(pl: Platform, files: Files) {
    Sealed(pl, files).Some? && Sealed(pl, files).value.1 == Inspected(pl, files).value
  }

  /** A bundle is verified exactly when it passes inspection and its manifest carries its two digests. */
  lemma VerifiedMeansDigests(pl: Platform, files: Files)
    ensures Verified(pl, files) <==>
            Inspected(pl, files).Some? && CarriesDigests(pl, files, Inspected(pl, files).value)
  {
    if Inspected(pl, files).Some? {
      var s := Inspected(pl, files).value;
      var out := files["manifest.json" := pl.marshal(s)];
      SealedExactly(pl, files, out, s);
      RewriteTwice(pl, files, s, s.(buildDigest := ZERO));
      RewriteTwice(pl, files, s, s.(sourceDigest := ZERO, buildDigest := ZERO));
    }
    hide Inspected, FileDigest, ZeroDigest, SealedManifest;
  }

  method Seal(pl: Platform, files: Files) returns (r: Result<(Files, Manifest), Code>)
    ensures if r.Ok? then Sealed(pl, files) == Some(r.value) else Sealed(pl, files).None?
    ensures r.Ok? <==> Inspected(pl, files).Some?
    ensures r.Ok? ==>
              var (out, s) := r.value;
              && out == files["manifest.json" := pl.marshal(s)] && CarriesDigests(pl, out, s)
              && s == Inspected(pl, files).value.(sourceDigest := s.sourceDigest, buildDigest := s.buildDigest)
    ensures r.Err? ==> r.error in {BundleLimit, InvalidPath, InvalidBundle}
  {
    var report := Inspect(pl, files);
    if report.Err? {
      return Err(report.error);
    }
    var out := files;
    var m := report.value.(sourceDigest := ZeroDigest(), buildDigest := ZeroDigest());
    out := WithManifest(pl, out, m);
    var source := ComputeFileDigest(pl, out);
    RewriteTwice(pl, files, m, m.(sourceDigest := source));
    m := m.(sourceDigest := source);
    out := WithManifest(pl, out, m);
    var build := ComputeFileDigest(pl, out);
    RewriteTwice(pl, files, m, m.(buildDigest := build));
    m := m.(buildDigest := build);
    out := WithManifest(pl, out, m);
    SealedExactly(pl, files, out, m);
    return Ok((out, m));
  }

  /** A sealed manifest is as long as the blanked one, and survives the codec if it fits into a file. */
  lemma SealedParses(pl: Platform, files: Files, m: Manifest)
    requires pl.Lawful() && pl.parse(RawManifest(files)) == Some(m)
    ensures var s := SealedManifest(pl, files, m);
            && |pl.marshal(s)| == |pl.marshal(Blank(m))|
            && (|pl.marshal(s)| <= MAX_FILE_BYTES ==> pl.parse(pl.marshal(s)) == Some(s))
  {
    var s := SealedManifest(pl, files, m);
    assert pl.Resealed(RawManifest(files), s.sourceDigest, s.buildDigest);
  }

  lemma ManifestPresent(pl: Platform, files: Files)
    requires pl.Lawful() && pl.parse(RawManifest(files)).Some?
    ensures MANIFEST in files
  {
  }

  /** Rewriting the manifest changes the manifest only. */
  lemma OthersKept(pl: Platform, files: Files, m: Manifest)
    ensures Others(WithManifest(pl, files, m)) == Others(files)
    ensures RawManifest(WithManifest(pl, files, m)) == pl.marshal(m)
  {
  }

  /** Rewriting twice is rewriting once. */
  lemma RewriteTwice(pl: Platform, files: Files, m: Manifest, n: Manifest)
    ensures WithManifest(pl, WithManifest(pl, files, m), n) == WithManifest(pl, files, n)
  {
  }

  /** Digests of the rewritten files do not depend on the manifest that was rewritten. */
  lemma SealIgnoresManifest(pl: Platform, files: Files, m: Manifest, n: Manifest)
    requires Blank(m) == Blank(n)
    ensures SealedManifest(pl, WithManifest(pl, files, n), m) == SealedManifest(pl, files, m)
    ensures SealedManifest(pl, files, m) == SealedManifest(pl, files, n)
    ensures WithManifest(pl, WithManifest(pl, files, n), SealedManifest(pl, files, m)) ==
            WithManifest(pl, files, SealedManifest(pl, files, m))
  {
    RewriteTwice(pl, files, n, Blank(m));
    RewriteTwice(pl, files, n, WithSource(pl, files, m));
    RewriteTwice(pl, files, n, SealedManifest(pl, files, m));
  }

  /** Sealed files that respect the limits pass inspection again, with the sealed manifest. */
  lemma SealedInspected(pl: Platform, files: Files)
    requires pl.Lawful() && Sealed(pl, files).Some? && FilesOk(Sealed(pl, files).value.0)
    ensures Inspected(pl, Sealed(pl, files).value.0) == Some(Sealed(pl, files).value.1)
  {
    var m := Inspected(pl, files).value;
    var s := SealedManifest(pl, files, m);
    var out := WithManifest(pl, files, s);
    SealedParses(pl, files, m);
    OthersKept(pl, files, s);
    assert MANIFEST in out && out[MANIFEST] == pl.marshal(s);
    assert ChecksPass(pl, Others(files), s);
  }

  /** The manifest, written out with blank digests, fits into a file and into the bundle. */
  ghost predicate HasRoom(pl: Platform, files: Files)
    requires pl.parse(RawManifest(files)).Some?
  {
    var n := |pl.marshal(Blank(pl.parse(RawManifest(files)).value))|;
    && n <= MAX_FILE_BYTES
    && TotalSize(files, files.Keys) - |RawManifest(files)| + n <= MAX_BUNDLE_BYTES
  }

  /** Replacing one file of a bundle within the limits keeps them iff the new file leaves room. */
  lemma ReplacedWithin(files: Files, name: string, data: Bytes)
    requires FilesOk(files) && name in files
    ensures FilesOk(files[name := data]) <==>
            |data| <= MAX_FILE_BYTES &&
            TotalSize(files, files.Keys) - |files[name]| + |data| <= MAX_BUNDLE_BYTES
  {
    var out := files[name := data];
    assert out.Keys == files.Keys;
    TotalSizePick(files, files.Keys, name);
    TotalSizePick(out, out.Keys, name);
    TotalSizeLocal(files, out, files.Keys - {name});
    assert out[name] == data;
    hide TotalSize, SafePath;
    assert forall n :: n in out && n != name ==> out[n] == files[n];
  }

  /** Whether there is room shows before anything is sealed. */
  lemma RoomDecides(pl: Platform, files: Files)
    requires pl.Lawful() && Sealed(pl, files).Some?
    ensures FilesOk(Sealed(pl, files).value.0) <==> HasRoom(pl, files)
  {
    var m := Inspected(pl, files).value;
    SealedParses(pl, files, m);
    ManifestPresent(pl, files);
    ReplacedWithin(files, MANIFEST, pl.marshal(SealedManifest(pl, files, m)));
    hide FilesOk, TotalSize, SealedManifest;
  }

  /**
   Sealing is a fixed point exactly when the written manifest has room; otherwise the sealed
   files cannot be sealed at all.
   */
  lemma SealTwice(pl: Platform, files: Files)
    requires pl.Lawful() && Sealed(pl, files).Some?
    ensures Sealed(pl, Sealed(pl, files).value.0) == if HasRoom(pl, files) then Sealed(pl, files) else None
  {
    RoomDecides(pl, files);
    if HasRoom(pl, files) {
      var m := Inspected(pl, files).value;
      var s := SealedManifest(pl, files, m);
      SealedInspected(pl, files);
      SealIgnoresManifest(pl, files, s, s);
      SealIgnoresManifest(pl, files, m, s);
    }
  }

  // ----- Archives -----

  datatype Kind = Regular | Special

  datatype Entry = Entry(name: string, kind: Kind, data: Bytes)

  ghost predicate DistinctNames(entries: seq<Entry>) {
    forall i, j :: 0 <= i < j < |entries| ==> entries[i].name != entries[j].name
  }

  ghost predicate AllRegular(entries: seq<Entry>) {
    forall i :: 0 <= i < |entries| ==> entries[i].kind == Regular
  }

  ghost function FilesOf(entries: seq<Entry>): Files
    requires DistinctNames(entries)
  {
    map i | 0 <= i < |entries| :: entries[i].name := entries[i].data
  }

  /** The files of a list that is longer by one entry. */
  lemma FilesOfSnoc(a: seq<Entry>, x: Entry)
    requires DistinctNames(a + [x])
    ensures DistinctNames(a) && x.name !in FilesOf(a)
    ensures FilesOf(a + [x]) == FilesOf(a)[x.name := x.data]
  {
    var b := a + [x];
    assert forall j :: 0 <= j < |a| ==> a[j] == b[j];
    assert b[|a|] == x;
    hide DistinctNames;
    forall n | n in FilesOf(b)
      ensures n in FilesOf(a)[x.name := x.data]
    {
      var j :| 0 <= j < |b| && b[j].name == n;
      if j < |a| { assert a[j].name == n; }
    }
  }

  lemma FilesOfStep(entries: seq<Entry>, i: nat)
    requires i < |entries| && DistinctNames(entries[..i + 1])
    ensures DistinctNames(entries[..i])
    ensures entries[i].name !in FilesOf(entries[..i])
    ensures FilesOf(entries[..i + 1]) == FilesOf(entries[..i])[entries[i].name := entries[i].data]
  {
    hide DistinctNames, FilesOf;
    Ordering.TakeSnoc(entries, i);
    FilesOfSnoc(entries[..i], entries[i]);
  }

  lemma {:induction false} PrefixFiles(entries: seq<Entry>, i: nat)
    requires i <= |entries| && DistinctNames(entries)
    ensures DistinctNames(entries[..i])
    ensures FilesOf(entries[..i]).Keys <= FilesOf(entries).Keys
    ensures forall n :: n in FilesOf(entries[..i]) ==> FilesOf(entries)[n] == FilesOf(entries[..i])[n]
  {
    forall n | n in FilesOf(entries[..i])
      ensures n in FilesOf(entries) && FilesOf(entries)[n] == FilesOf(entries[..i])[n]
    {
      var j :| 0 <= j < i && entries[..i][j].name == n;
      assert entries[j].name == n;
    }
  }

  lemma {:induction false} TotalSizeMonotone(files: Files, some: set<string>, more: set<string>)
    requires some <= more <= files.Keys
    ensures TotalSize(files, some) <= TotalSize(files, more)
    decreases |more|
  {
    if n :| n in more && n !in some {
      TotalSizePick(files, more, n);
      TotalSizeMonotone(files, some, more - {n});
    } else {
      assert forall n :: n in more ==> n in some;
      assert some == more;
    }
  }

  /** Files that exceed a limit cannot be part of files that respect them all. */
  lemma LimitsMonotone(some: Files, all: Files)
    requires some.Keys <= all.Keys && (forall n :: n in some ==> all[n] == some[n]) && FilesOk(all)
    ensures |some| <= MAX_FILES && TotalSize(some, some.Keys) <= MAX_BUNDLE_BYTES
    ensures forall n :: n in some ==> SafePath(n) && |some[n]| <= MAX_FILE_BYTES
  {
    Ordering.SubsetSize(some.Keys, all.Keys);
    TotalSizeLocal(some, all, some.Keys);
    TotalSizeMonotone(all, some.Keys, all.Keys);
  }

  /** Whether an archive is to be accepted. */
  ghost predicate Acceptable(pl: Platform, entries: seq<Entry>) {
    AllRegular(entries) && DistinctNames(entries) && Verified(pl, FilesOf(entries))
  }

  /** State of the loop over the entries: files taken so far and their total size. */
  ghost predicate Taken(entries: seq<Entry>, files: Files, size: int) {
    && AllRegular(entries) && DistinctNames(entries)
    && files == FilesOf(entries)
    && size == TotalSize(files, files.Keys)
  }

  lemma TakenGrows(entries: seq<Entry>, i: nat, files: Files, size: int)
    requires i < |entries| && Taken(entries[..i], files, size)
    requires entries[i].name !in files && entries[i].kind == Regular
    ensures Taken(entries[..i + 1], files[entries[i].name := entries[i].data], size + |entries[i].data|)
    ensures |files[entries[i].name := entries[i].data]| == |files| + 1
  {
    Extended(entries, i);
    SizeGrows(files, entries[i].name, entries[i].data);
  }

  /** The checks one entry must pass before it is added to the files read so far. */
  method CheckEntry(pl: Platform, entries: seq<Entry>, i: nat, files: Files, size: int) returns (err: Option<Code>)
    requires i < |entries| && Taken(entries[..i], files, size)
    ensures err.None? ==>
      Taken(entries[..i + 1], files[entries[i].name := entries[i].data], size + |entries[i].data|)
    ensures err.Some? ==> !Acceptable(pl, entries) && err.value in {InvalidPath, DuplicateFile, BundleLimit}
    ensures err == Some(DuplicateFile) ==> !DistinctNames(entries)
  {
    var h := entries[i];
    if !SafePath(h.name) || h.kind != Regular || |h.data| > MAX_FILE_BYTES {
      RefusedEntry(pl, entries, i);
      return Some(InvalidPath);
    }
    if h.name in files {
      DuplicateName(entries, i);
      return Some(DuplicateFile);
    }
    TakenGrows(entries, i, files, size);
    if |files| >= MAX_FILES || size + |h.data| > MAX_BUNDLE_BYTES {
      RefusedTotal(pl, entries, i + 1);
      return Some(BundleLimit);
    }
    return None;
  }

  /** The loop over the archive's entries, with its running total. */
  method CollectEntries(pl: Platform, entries: seq<Entry>) returns (r: Result<Files, Code>)
    ensures r.Ok? ==> AllRegular(entries) && DistinctNames(entries) && r.value == FilesOf(entries)
    ensures r.Err? ==> !Acceptable(pl, entries) && r.error in {InvalidPath, DuplicateFile, BundleLimit}
    ensures r == Err(DuplicateFile) ==> !DistinctNames(entries)
  {
    var files: Files := map[];
    var size := 0;
    for i := 0 to |entries|
      invariant Taken(entries[..i], files, size)
    {
      var err := CheckEntry(pl, entries, i, files, size);
      if err.Some? {
        return Err(err.value);
      }
      size := size + |entries[i].data|;
      files := files[entries[i].name := entries[i].data];
    }
    assert entries[..|entries|] == entries;
    return Ok(files);
  }

  /** Reads the entries of an archive and verifies both digests. */
  method ReadArchive(pl: Platform, entries: seq<Entry>) returns (r: Result<Files, Code>)
    ensures r.Ok? <==> Acceptable(pl, entries)
    ensures r.Ok? ==> r.value == FilesOf(entries)
    ensures r.Ok? ==> Inspected(pl, r.value).Some? && CarriesDigests(pl, r.value, Inspected(pl, r.value).value)
    ensures r == Err(DuplicateFile) ==> !DistinctNames(entries)
    ensures r == Err(ChecksumMismatch) ==>
              && DistinctNames(entries) && Inspected(pl, FilesOf(entries)).Some?
              && !CarriesDigests(pl, FilesOf(entries), Inspected(pl, FilesOf(entries)).value)
    ensures r == Err(ChecksumMismatch) ==> DistinctNames(entries) && Sealed(pl, FilesOf(entries)).Some?
  {
    r := CollectEntries(pl, entries);
    if r.Err? {
      return;
    }
    var files := r.value;
    VerifiedMeansDigests(pl, files);
    var sealed := Seal(pl, files);
    if sealed.Err? {
      return Err(sealed.error);
    }
    var m := pl.parse(RawManifest(files)).value;
    if m.sourceDigest != sealed.value.1.sourceDigest || m.buildDigest != sealed.value.1.buildDigest {
      return Err(ChecksumMismatch);
    }
    return Ok(files);
  }

  lemma DuplicateName(entries: seq<Entry>, i: nat)
    requires i < |entries| && DistinctNames(entries[..i]) && entries[i].name in FilesOf(entries[..i])
    ensures !DistinctNames(entries)
  {
    var j :| 0 <= j < i && entries[..i][j].name == entries[i].name;
    assert entries[j].name == entries[i].name;
  }

  lemma SizeGrows(files: Files, name: string, data: Bytes)
    requires name !in files
    ensures var more := files[name := data];
            |more| == |files| + 1 && TotalSize(more, more.Keys) == TotalSize(files, files.Keys) + |data|
  {
    var more := files[name := data];
    TotalSizePick(more, more.Keys, name);
    assert more.Keys - {name} == files.Keys;
    TotalSizeLocal(files, more, files.Keys);
  }

  lemma Extended(entries: seq<Entry>, i: nat)
    requires i < |entries| && DistinctNames(entries[..i]) && entries[i].name !in FilesOf(entries[..i])
    ensures DistinctNames(entries[..i + 1])
    ensures FilesOf(entries[..i + 1]) == FilesOf(entries[..i])[entries[i].name := entries[i].data]
    ensures AllRegular(entries[..i]) && entries[i].kind == Regular ==> AllRegular(entries[..i + 1])
  {
    Ordering.TakeSnoc(entries, i);
    forall j | 0 <= j < i
      ensures entries[..i][j].name != entries[i].name
    {
      assert entries[..i][j].name in FilesOf(entries[..i]);
    }
    FilesOfStep(entries, i);
  }

  /** An entry that is refused is part of no archive that verifies. */
  lemma RefusedEntry(pl: Platform, entries: seq<Entry>, i: nat)
    requires i < |entries|
    requires !SafePath(entries[i].name) || entries[i].kind != Regular || |entries[i].data| > MAX_FILE_BYTES
    ensures !Acceptable(pl, entries)
  {
    if DistinctNames(entries) {
      assert entries[i].name in FilesOf(entries) && FilesOf(entries)[entries[i].name] == entries[i].data;
    }
  }

  /** Entries that exceed a limit begin no archive that verifies. */
  lemma RefusedTotal(pl: Platform, entries: seq<Entry>, i: nat)
    requires i <= |entries| && DistinctNames(entries[..i])
    requires var files := FilesOf(entries[..i]); |files| > MAX_FILES || TotalSize(files, files.Keys) > MAX_BUNDLE_BYTES
    ensures !Acceptable(pl, entries)
  {
    if Acceptable(pl, entries) {
      PrefixFiles(entries, i);
      LimitsMonotone(FilesOf(entries[..i]), FilesOf(entries));
    }
  }

  // ----- What acceptance and a revision mean -----

  /** The entries of a sealed bundle, in any order, are accepted iff the manifest has room, under its revision. */
  lemma SealedEntriesAccepted(pl: Platform, files: Files, entries: seq<Entry>)
    requires pl.Lawful() && Sealed(pl, files).Some?
    requires AllRegular(entries) && DistinctNames(entries) && FilesOf(entries) == Sealed(pl, files).value.0
    ensures Acceptable(pl, entries) <==> HasRoom(pl, files)
    ensures Acceptable(pl, entries) ==>
      Inspected(pl, FilesOf(entries)).value.buildDigest == Sealed(pl, files).value.1.buildDigest
  {
    SealTwice(pl, files);
    RoomDecides(pl, files);
    if HasRoom(pl, files) {
      SealedInspected(pl, files);
    }
  }

  /**
   Files that verify are the sealed files exactly when their manifest is spelled the way
   the program writes it.
   */
  lemma VerifiedExactly(pl: Platform, files: Files)
    requires pl.Lawful() && Verified(pl, files)
    ensures files == Sealed(pl, files).value.0 <==>
            RawManifest(files) == pl.marshal(pl.parse(RawManifest(files)).value)
  {
    ManifestPresent(pl, files);
    VerifiedWritten(pl, files);
    SameWhenEqual(files, pl.marshal(pl.parse(RawManifest(files)).value));
    hide Sealed, Verified, Platform.Lawful;
  }

  lemma VerifiedWritten(pl: Platform, files: Files)
    requires Verified(pl, files)
    ensures pl.parse(RawManifest(files)).Some?
    ensures Sealed(pl, files).value.0 == files[MANIFEST := pl.marshal(pl.parse(RawManifest(files)).value)]
  {
    hide SealedManifest, FilesOk, ChecksPass;
  }

  lemma SameWhenEqual(files: Files, raw: Bytes)
    requires MANIFEST in files
    ensures files == files[MANIFEST := raw] <==> files[MANIFEST] == raw
  {
  }

  /** Another spelling of a verified manifest verifies iff it fits, and then under the same revision. */
  lemma RespelledManifestVerifies(pl: Platform, files: Files, raw: Bytes)
    requires pl.Lawful() && Verified(pl, files) && pl.parse(raw) == pl.parse(RawManifest(files))
    ensures Verified(pl, files[MANIFEST := raw]) <==>
            |raw| <= MAX_FILE_BYTES &&
            TotalSize(files, files.Keys) - |RawManifest(files)| + |raw| <= MAX_BUNDLE_BYTES
    ensures Verified(pl, files[MANIFEST := raw]) ==>
      Inspected(pl, files[MANIFEST := raw]) == Inspected(pl, files)
  {
    ManifestPresent(pl, files);
    ReplacedWithin(files, MANIFEST, raw);
    if FilesOk(files[MANIFEST := raw]) {
      var m := Inspected(pl, files).value;
      RespelledInspected(pl, files, raw);
      RespelledSeals(pl, files, raw, m);
      VerifiedMeans(pl, files, m);
      VerifiedMeans(pl, files[MANIFEST := raw], m);
    }
  }

  lemma RespelledInspected(pl: Platform, files: Files, raw: Bytes)
    requires FilesOk(files) && FilesOk(files[MANIFEST := raw])
    requires pl.parse(raw) == pl.parse(RawManifest(files))
    ensures Inspected(pl, files[MANIFEST := raw]) == Inspected(pl, files)
  {
    OthersOver(files, raw);
  }

  lemma OthersOver(files: Files, raw: Bytes)
    ensures Others(files[MANIFEST := raw]) == Others(files) && RawManifest(files[MANIFEST := raw]) == raw
  {
  }

  lemma VerifiedMeans(pl: Platform, files: Files, m: Manifest)
    requires Inspected(pl, files) == Some(m)
    ensures Verified(pl, files) <==> SealedManifest(pl, files, m) == m
  {
  }

  lemma RespelledSeals(pl: Platform, files: Files, raw: Bytes, m: Manifest)
    ensures SealedManifest(pl, files[MANIFEST := raw], m) == SealedManifest(pl, files, m)
  {
    RewriteOver(pl, files, raw, Blank(m));
    RewriteOver(pl, files, raw, WithSource(pl, files, m));
  }

  lemma RewriteOver(pl: Platform, files: Files, raw: Bytes, n: Manifest)
    ensures WithManifest(pl, files[MANIFEST := raw], n) == WithManifest(pl, files, n)
  {
  }

  ghost function RevisionOf(pl: Platform, files: Files): Revision
    requires Sealed(pl, files).Some?
  {
    Sealed(pl, files).value.1.buildDigest
  }

  /** The byte strings hashed into the revision of a bundle. */
  ghost function RevisionInputs(pl: Platform, files: Files): set<Bytes>
    requires Sealed(pl, files).Some?
  {
    Hashed(pl, BuildInput(pl, files, Inspected(pl, files).value))
  }

  lemma NulFree(pl: Platform, files: Files, m: Manifest)
    requires FilesOk(files)
    ensures forall n :: n in WithManifest(pl, files, m) ==> '\0' !in n
  {
    assert '\0' !in MANIFEST;
    forall n | n in WithManifest(pl, files, m)
      ensures '\0' !in n
    {
      if n in files { assert SafePath(n); }
    }
  }

  /** A manifest that is short enough to be read is told apart from every other by its text. */
  lemma ManifestTextTells(pl: Platform, f: Files, m: Manifest, g: Files, n: Manifest)
    requires pl.Lawful() && pl.parse(RawManifest(f)) == Some(m) && pl.parse(RawManifest(g)) == Some(n)
    requires |pl.marshal(Blank(m))| <= MAX_FILE_BYTES
    ensures pl.Distinguishes(WithSource(pl, f, m), WithSource(pl, g, n))
  {
    var x, y := WithSource(pl, f, m), WithSource(pl, g, n);
    assert pl.Resealed(RawManifest(f), x.sourceDigest, x.buildDigest);
    assert pl.Resealed(RawManifest(g), y.sourceDigest, y.buildDigest);
  }

  /**
   Equal revisions mean equal sealed files, unless two inputs of the revision digests collide.
   A bundle too large to be accepted needs that its manifest's text is its alone.
   */
  lemma RevisionBindsFiles(pl: Platform, f: Files, g: Files)
    requires pl.Lawful() && Sealed(pl, f).Some? && Sealed(pl, g).Some?
    requires pl.CollisionFree(RevisionInputs(pl, f) + RevisionInputs(pl, g))
    requires HasRoom(pl, f) || forall m, n :: pl.Distinguishes(m, n)
    requires RevisionOf(pl, f) == RevisionOf(pl, g)
    ensures Sealed(pl, f) == Sealed(pl, g)
  {
    var m, n := Inspected(pl, f).value, Inspected(pl, g).value;
    var a, b := BuildInput(pl, f, m), BuildInput(pl, g, n);
    NulFree(pl, f, WithSource(pl, f, m));
    NulFree(pl, g, WithSource(pl, g, n));
    FileDigestBinds(pl, a, b);
    OthersKept(pl, f, WithSource(pl, f, m));
    OthersKept(pl, g, WithSource(pl, g, n));
    if HasRoom(pl, f) { ManifestTextTells(pl, f, m, g, n); }
    assert pl.Distinguishes(WithSource(pl, f, m), WithSource(pl, g, n));
    assert WithSource(pl, f, m) == WithSource(pl, g, n);
    RewriteTwice(pl, f, WithSource(pl, f, m), SealedManifest(pl, f, m));
    RewriteTwice(pl, g, WithSource(pl, g, n), SealedManifest(pl, f, m));
  }

  // ----- Building an archive -----

  const NAME_SIZE: nat := 100
  const PREFIX_SIZE: nat := 155

  /** ASCII without NUL. */
  predicate IsHeaderText(s: string) {
    forall i :: 0 <= i < |s| ==> 0 < s[i] as int < 128
  }

  /** A name can be cut at the slash in position i: at most 155 characters before it, 1 to 100 behind it. */
  predicate CutsAt(name: string, i: nat) {
    i < |name| && name[i] == '/' && 0 < i <= PREFIX_SIZE && 1 <= |name| - i - 1 <= NAME_SIZE
  }

  /** A USTAR header can hold the name: ASCII, and short enough or to be cut at some slash. */
  predicate HoldsName(name: string) {
    IsHeaderText(name) && (|name| <= NAME_SIZE || exists i :: 0 <= i < |name| && CutsAt(name, i))
  }

  /** The name that a header with the given fields stands for. */
  function HeaderName(prefix: string, name: string): string {
    if prefix == "" then name else prefix + "/" + name
  }

  /** The name fields of a USTAR header: a long name is cut at the last slash that leaves the prefix short enough. */
  method WriteName(name: string) returns (r: Option<(string, string)>)
    requires name != "" && name[|name| - 1] != '/'
    ensures r.Some? <==> HoldsName(name)
    ensures r.Some? ==> HeaderName(r.value.0, r.value.1) == name
    ensures r.Some? ==> |r.value.0| <= PREFIX_SIZE && |r.value.1| <= NAME_SIZE
  {
    if !IsHeaderText(name) {
      return None;
    }
    if |name| <= NAME_SIZE {
      return Some(("", name));
    }
    var length := if |name| > PREFIX_SIZE + 1 then PREFIX_SIZE + 1 else |name|;
    var i := length - 1;
    while i >= 0 && name[i] != '/'
      invariant -1 <= i < length
      invariant forall k :: i < k < length ==> name[k] != '/'
    {
      i := i - 1;
    }
    assert forall k :: 0 <= k < |name| && CutsAt(name, k) ==> k <= i;
    if i <= 0 || |name| - i - 1 > NAME_SIZE || |name| - i - 1 == 0 || i > PREFIX_SIZE {
      return None;
    }
    assert CutsAt(name, i);
    assert name == name[..i] + "/" + name[i + 1..];
    return Some((name[..i], name[i + 1..]));
  }

  /** A safe path does not end in a slash. */
  lemma SafePathEnds(name: string)
    requires SafePath(name)
    ensures name != "" && name[|name| - 1] != '/'
  {
    if name[|name| - 1] == '/' { LastElementEmpty(name); }
  }

  lemma LastElementEmpty(name: string)
    requires name != "" && name[|name| - 1] == '/'
    ensures "" in Dependencies.Split(name, '/')
  {
    var most := name[..|name| - 1];
    Dependencies.SplitAppend(most, "", '/');
    assert name == most + (['/'] + "");
    assert Dependencies.Split("", '/')[0] == "";
  }

  /** Every file has a name that a header can hold. */
  predicate NamesFit(files: Files) {
    forall n :: n in files ==> HoldsName(n)
  }

  /** Writes the sealed files in ascending order of name, unless a name does not fit into its header. */
  method Build(pl: Platform, files: Files) returns (r: Result<seq<Entry>, Code>)
    ensures r.Ok? <==> Sealed(pl, files).Some? && NamesFit(files)
    ensures r.Err? && Sealed(pl, files).Some? ==> r.error == ArchiveWrite
    ensures r.Ok? ==> AllRegular(r.value) && DistinctNames(r.value)
    ensures r.Ok? ==> FilesOf(r.value) == Sealed(pl, files).value.0
    ensures r.Ok? ==> forall i, j :: 0 <= i < j < |r.value| ==> Ordering.Less(r.value[i].name, r.value[j].name)
  {
    hide HoldsName, SafePath;
    var sealed := Seal(pl, files);
    if sealed.Err? {
      return Err(sealed.error);
    }
    var out := sealed.value.0;
    SealedNames(pl, files);
    var entries := ListEntries(out);
    if entries.None? {
      return Err(ArchiveWrite);
    }
    return Ok(entries.value);
  }

  lemma ManifestNameFits()
    ensures HoldsName(MANIFEST) && MANIFEST[|MANIFEST| - 1] != '/'
  {
  }

  lemma CheckedNames(files: Files)
    requires FilesOk(files)
    ensures forall n :: n in files ==> n != "" && n[|n| - 1] != '/'
  {
    hide SafePath, TotalSize;
    forall n | n in files
      ensures n != "" && n[|n| - 1] != '/'
    {
      SafePathEnds(n);
    }
  }

  lemma RewrittenNames(files: Files, name: string, data: Bytes)
    requires HoldsName(name)
    ensures NamesFit(files[name := data]) <==> NamesFit(files)
  {
    hide HoldsName;
    var out := files[name := data];
    assert forall n :: n in files ==> n in out;
    assert forall n :: n in out ==> n in files || n == name;
  }

  lemma SealedNames(pl: Platform, files: Files)
    requires Sealed(pl, files).Some?
    ensures var out := Sealed(pl, files).value.0;
            && (forall n :: n in out ==> n != "" && n[|n| - 1] != '/')
            && (NamesFit(out) <==> NamesFit(files))
  {
    CheckedNames(files);
    ManifestNameFits();
    hide HoldsName, NamesFit, FilesOk, SealedManifest, Checked;
    RewrittenNames(files, MANIFEST, pl.marshal(SealedManifest(pl, files, Inspected(pl, files).value)));
  }

  method ListEntries(files: Files) returns (r: Option<seq<Entry>>)
    requires forall n :: n in files ==> n != "" && n[|n| - 1] != '/'
    ensures r.Some? <==> NamesFit(files)
    ensures r.Some? ==> AllRegular(r.value) && DistinctNames(r.value) && FilesOf(r.value) == files
    ensures r.Some? ==> forall i, j :: 0 <= i < j < |r.value| ==> Ordering.Less(r.value[i].name, r.value[j].name)
  {
    hide HoldsName;
    var names := ByteOrder.SortedKeys(files.Keys);
    assert forall n :: n in names <==> n in files;
    r := EntriesFor(files, names);
    if r.Some? {
      ListedInOrder(names, r.value);
      ListedFiles(files, names, r.value);
    }
  }

  method EntriesFor(files: Files, names: seq<string>) returns (r: Option<seq<Entry>>)
    requires forall n :: n in names ==> n in files && n != "" && n[|n| - 1] != '/'
    ensures r.Some? <==> forall n :: n in names ==> HoldsName(n)
    ensures r.Some? ==> |r.value| == |names|
    ensures r.Some? ==> forall j :: 0 <= j < |names| ==>
      names[j] in files && r.value[j] == Entry(names[j], Regular, files[names[j]])
  {
    hide HoldsName;
    var entries: seq<Entry> := [];
    for i := 0 to |names|
      invariant |entries| == i
      invariant forall j :: 0 <= j < i ==>
        HoldsName(names[j]) && entries[j] == Entry(names[j], Regular, files[names[j]])
    {
      var header := WriteName(names[i]);
      if header.None? {
        assert names[i] in names;
        return None;
      }
      entries := entries + [Entry(HeaderName(header.value.0, header.value.1), Regular, files[names[i]])];
    }
    return Some(entries);
  }

  lemma ListedInOrder(names: seq<string>, entries: seq<Entry>)
    requires Ordering.StrictlyAscending(names) && |entries| == |names|
    requires forall j :: 0 <= j < |names| ==> entries[j].name == names[j] && entries[j].kind == Regular
    ensures AllRegular(entries) && DistinctNames(entries)
    ensures forall i, j :: 0 <= i < j < |entries| ==> Ordering.Less(entries[i].name, entries[j].name)
  {
    forall i, j | 0 <= i < j < |entries|
      ensures Ordering.Less(entries[i].name, entries[j].name) && entries[i].name != entries[j].name
    {
      assert Ordering.Less(names[i], names[j]);
      Ordering.LessIrreflexive(names[i]);
    }
  }

  lemma ListedFiles(files: Files, names: seq<string>, entries: seq<Entry>)
    requires DistinctNames(entries) && |entries| == |names| && forall n :: n in names <==> n in files
    requires forall j :: 0 <= j < |names| ==>
      names[j] in files && entries[j] == Entry(names[j], Regular, files[names[j]])
    ensures FilesOf(entries) == files
  {
    forall n | n in files
      ensures n in FilesOf(entries)
    {
      var i :| 0 <= i < |names| && names[i] == n;
      assert entries[i].name == n;
    }
  }

  /**
   Building and reading back gives the sealed files, exactly when the manifest has room in them
   and every name fits into a header.
   */
  method BuildThenRead(pl: Platform, files: Files) returns (r: Result<Files, Code>)
    requires pl.Lawful()
    ensures r.Ok? <==> Sealed(pl, files).Some? && HasRoom(pl, files) && NamesFit(files)
    ensures r.Ok? ==> r.value == Sealed(pl, files).value.0
  {
    hide NamesFit;
    var entries := Build(pl, files);
    if entries.Err? {
      return Err(entries.error);
    }
    SealedEntriesAccepted(pl, files, entries.value);
    r := ReadArchive(pl, entries.value);
  }

  const BLOCK: nat := 512

  function Padded(n: nat): nat {
    (n + BLOCK - 1) / BLOCK * BLOCK
  }

  /** The length of the tar stream: a header and whole blocks for each entry, and two blocks at the end. */
  function TarSize(entries: seq<Entry>): nat {
    if entries == [] then 2 * BLOCK
    else TarSize(entries[..|entries| - 1]) + BLOCK + Padded(|entries[|entries| - 1].data|)
  }

  /** Two blocks of 512 bytes end the stream; each entry adds a header and as many blocks as its data fills. */
  lemma TarSizeMeans(entries: seq<Entry>, x: Entry)
    ensures TarSize([]) == 1024
    ensures TarSize(entries + [x]) == TarSize(entries) + 512 * (1 + (|x.data| + 511) / 512)
  {
    var all := entries + [x];
    assert all[..|all| - 1] == entries;
  }

  lemma TarSizeStep(entries: seq<Entry>, n: nat)
    requires 0 < n <= |entries|
    ensures TarSize(entries[..n]) <= TarSize(entries[..n - 1]) + 1023 + |entries[n - 1].data|
  {
    assert entries[..n][..n - 1] == entries[..n - 1];
  }

  lemma NoFiles()
    ensures DistinctNames([]) && FilesOf([]) == map[]
  {
  }

  lemma {:induction false} TarSizeBound(entries: seq<Entry>, n: nat)
    requires n <= |entries| && DistinctNames(entries)
    ensures DistinctNames(entries[..n]) && |FilesOf(entries[..n])| == n
    ensures var files := FilesOf(entries[..n]);
            TarSize(entries[..n]) <= 1024 + 1023 * n + TotalSize(files, files.Keys)
  {
    PrefixFiles(entries, n);
    NoFiles();
    hide FilesOf, DistinctNames;
    if n == 0 {
      assert entries[..n] == [];
    } else {
      hide TotalSize, TarSize;
      TarSizeBound(entries, n - 1);
      FilesOfStep(entries, n - 1);
      SizeGrows(FilesOf(entries[..n - 1]), entries[n - 1].name, entries[n - 1].data);
      TarSizeStep(entries, n);
    }
  }

  /** The limit on the expanded stream never refuses an acceptable bundle in the form that is written. */
  lemma ExpandedFits(pl: Platform, entries: seq<Entry>)
    requires Acceptable(pl, entries)
    ensures TarSize(entries) <= MAX_BUNDLE_BYTES + MAX_FILES * 1024 + 1024
  {
    TarSizeBound(entries, |entries|);
    assert entries[..|entries|] == entries;
  }

  /** A bundle may pass every check with a name that no header can hold. */
  lemma AccentedNameUnwritten()
    ensures var name := [0xE9 as char] + ".rego"; SafePath(name) && IsModule(name) && !HoldsName(name)
  {
    var name := [0xE9 as char] + ".rego";
    Utf8.EncodeLength(name);
    Dependencies.SplitOfToken(name, '/');
    hide Utf8.Encode, Dependencies.Split;
    assert name[0] == 0xE9 as char && |name| == 6;
  }
}
