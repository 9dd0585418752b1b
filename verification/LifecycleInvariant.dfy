/** What every micro-step of the lifecycle keeps. */
module LifecycleInvariant {
  import opened Wrappers
  import opened EngineCache
  import opened Lifecycle
  import Bundle
  import Utf8

  // ----- The invariant -----

  predicate Last(log: seq<Revision>, r: Revision) {
    log != [] && log[|log| - 1] == r
  }

  /** A previous revision was published immediately before the revision of s, or is the last one published. */
  predicate Follows(s: Status, log: seq<Revision>) {
    s.previous == "" ||
    (s.previous != s.revision &&
     (Last(log, s.previous) || (Last(log, s.revision) && |log| >= 2 && log[|log| - 2] == s.previous)))
  }

  /** A revision whose artifact is on disk. */
  predicate Stored(disk: Disk, r: Revision) {
    r in disk.artifacts
  }

  /** A source and a tag are those supplied, as given or as a restart has cleaned them. */
  predicate SuppliedAs(source: Text, etag: Text, given: Supply) {
    || (source == given.source && etag == given.etag)
    || (source == Utf8.Clean(given.source) && etag == Utf8.Clean(given.etag))
  }

  /** Bytes that seal to the revision were supplied with the source and the tag. */
  ghost predicate Provided(e: Environment, supplied: set<Supply>, source: Text, etag: Text, r: Revision) {
    exists given :: given in supplied && SuppliedAs(source, etag, given) && e.seals(given.archive) == Some(r)
  }

  /** A status stems from supplied bytes, or has no entity tag. */
  ghost predicate Traced(e: Environment, h: History, s: Status, origin: Origin) {
    if origin == Supplied then Provided(e, h.supplied, s.source, s.etag, s.revision) else s.etag == []
  }

  /** After a rollback or a fallback the written status can be read back. */
  ghost predicate Restorable(e: Environment, s: Status, origin: Origin) {
    origin != Supplied ==> e.reload(s).Some?
  }

  ghost predicate GoodStatus(e: Environment, disk: Disk, h: History, s: Status, origin: Origin) {
    && Stored(disk, s.revision) && Bundle.IsDigest(s.revision)
    && (s.previous != "" ==> Stored(disk, s.previous) && Bundle.IsDigest(s.previous))
    && s.refreshedAt != 0
    && Follows(s, h.log)
    && Traced(e, h, s, origin)
  }

  /** Every artifact holds bytes that seal to its name, and its revision was validated. */
  ghost predicate ArtifactsOk(e: Environment, disk: Disk, h: History) {
    forall r :: r in disk.artifacts ==>
      e.seals(disk.artifacts[r]) == Some(r) && r in h.validated && Bundle.IsDigest(r)
  }

  ghost predicate ValidatedOk(e: Environment, h: History) {
    forall r :: r in h.validated ==> e.compiles(r) && e.passes(r)
  }

  /** Published revisions have artifacts, and neighbours differ. */
  ghost predicate LogOk(disk: Disk, log: seq<Revision>) {
    && (forall i :: 0 <= i < |log| ==> Stored(disk, log[i]) && log[i] != "")
    && (forall i :: 0 < i < |log| ==> log[i] != log[i - 1])
  }

  ghost predicate DiskOk(e: Environment, disk: Disk, h: History) {
    && ArtifactsOk(e, disk, h) && ValidatedOk(e, h) && LogOk(disk, h.log)
    && (disk.state.None? ==> h.log == [])
    && (disk.state.Some? ==>
          && Writable(disk.state.value) && Restorable(e, disk.state.value, h.durableOrigin)
          && GoodStatus(e, disk, h, disk.state.value, h.durableOrigin))
  }

  ghost predicate CacheOk(e: Environment, c: Cache<Archive>) {
    && c.Bounded()
    && forall r :: r in c.revisions ==> e.seals(c.revisions[r]) == Some(r) && e.compiles(r)
  }

  /** The engine can answer for a revision, unless it has been closed. */
  predicate Held(c: Cache<Archive>, r: Revision) {
    c.closed || r in c.revisions
  }

  /** The durable status names the active revision, as its own or as its previous one. */
  predicate Covers(disk: Disk, r: Revision) {
    disk.state.Some? && (disk.state.value.revision == r || disk.state.value.previous == r)
  }

  ghost predicate ActiveOk(e: Environment, disk: Disk, h: History, c: Cache<Archive>, s: Status) {
    if s.revision == "" then
      && s == NOTHING.(lastError := s.lastError)
      && h.log == []
    else
      && s.ready && GoodStatus(e, disk, h, s, h.origin)
      && Last(h.log, s.revision)
      && s.revision in h.validated && Held(c, s.revision)
      && Covers(disk, s.revision)
      && (h.synced ==> disk.state.value == s.(lastError := disk.state.value.lastError) && h.origin == h.durableOrigin)
  }

  /** A status read back is as good as the one written, and so is its fallback. */
  ghost predicate RecoveryOk(e: Environment, disk: Disk, h: History, s: Status) {
    && Writable(s) && GoodStatus(e, disk, h, s, h.durableOrigin)
    && e.reload(s) == Some(s)
    && (s.previous != "" ==> e.reload(Recovered(s, s.previous, true)).Some?)
  }

  ghost predicate GoalOk(e: Environment, w: World, goal: Goal, archive: Option<Archive>)
    requires w.process.Up?
  {
    match goal
    case Activation(source, etag, origin) =>
      && w.process.booted && archive.Some?
      && (origin == Supplied ==> Supply(source, etag, archive.value) in w.history.supplied)
      && (origin != Supplied ==>
            etag == [] && e.seals(archive.value).Some? && source == RollbackSource(e.seals(archive.value).value))
    case Recovery(state, target, fallback) =>
      && !w.process.booted
      && w.disk.state.Some? && e.reload(w.disk.state.value) == Some(state)
      && RecoveryOk(e, w.disk, w.history, state)
      && target == (if fallback then state.previous else state.revision) && target != ""
      && (archive.Some? ==> Stored(w.disk, target) && archive.value == w.disk.artifacts[target])
  }

  /** What is about to become durable and active continues what is published. */
  ghost predicate NextOk(e: Environment, w: World, next: Status, origin: Origin)
    requires w.process.Up?
  {
    && Writable(next) && Restorable(e, next, origin)
    && (next.previous != "" ==> Stored(w.disk, next.previous) && Bundle.IsDigest(next.previous))
    && Follows(next, w.history.log)
    && Traced(e, w.history, next, origin)
    && next.revision in w.history.validated && Held(w.process.engine, next.revision)
    && (w.process.booted ==> w.process.active.revision in {"", next.revision, next.previous})
    && (!w.process.booted ==> w.disk.state.Some?)
  }

  ghost predicate StoringOk(e: Environment, w: World, next: Status, archive: Archive, origin: Origin)
    requires w.process.Up?
  {
    w.process.booted && NextOk(e, w, next, origin) && e.seals(archive) == Some(next.revision)
  }

  ghost predicate SavingOk(e: Environment, w: World, next: Status, origin: Origin)
    requires w.process.Up?
  {
    NextOk(e, w, next, origin) && Stored(w.disk, next.revision)
  }

  ghost predicate SavedOk(e: Environment, w: World, next: Status, origin: Origin)
    requires w.process.Up?
  {
    SavingOk(e, w, next, origin) && w.disk.state == Some(next) && w.history.durableOrigin == origin
  }

  ghost predicate WriterOk(e: Environment, w: World)
    requires w.process.Up?
  {
    match w.process.writer
    case Idle => w.process.booted
    case Fetching(id, sent, seen) =>
      w.process.booted && seen == w.process.active && sent == (if seen.source == id then seen.etag else [])
    case Opening(goal) => goal.Recovery? && GoalOk(e, w, goal, None)
    case Reading(goal, archive) => GoalOk(e, w, goal, Some(archive))
    case Compiling(goal, archive, r) => GoalOk(e, w, goal, Some(archive)) && e.seals(archive) == Some(r)
    case Testing(goal, archive, r) =>
      && GoalOk(e, w, goal, Some(archive)) && e.seals(archive) == Some(r)
      && Held(w.process.engine, r) && e.compiles(r)
    case Storing(next, archive, origin) => StoringOk(e, w, next, archive, origin)
    case Writing(next, archive, origin) =>
      StoringOk(e, w, next, archive, origin) && next.revision !in w.disk.artifacts
    case Syncing(next, origin) => w.process.booted && SavingOk(e, w, next, origin)
    case Saving(next, origin) => SavingOk(e, w, next, origin)
    case Flushing(next, origin) => SavedOk(e, w, next, origin)
    case Publishing(next, origin) => SavedOk(e, w, next, origin)
  }

  ghost predicate SnapshotOk(validated: set<Revision>, engine: Cache<Archive>, s: Status) {
    s.revision != "" ==> s.revision in validated && Held(engine, s.revision)
  }

  ghost predicate ReaderOk(e: Environment, validated: set<Revision>, engine: Cache<Archive>, r: Reader) {
    match r
    case Loaded(s) => SnapshotOk(validated, engine, s)
    case Passed(s) => s.revision != "" && SnapshotOk(validated, engine, s)
    case Answered(s, Ok(answer)) =>
      answer.revision == s.revision && s.revision in validated && e.seals(answer.bundle) == Some(s.revision)
    case Answered(s, Err(Missing(code))) => code == CLOSED && engine.closed
    case Answered(s, Err(_)) => true
  }

  ghost predicate ReadersOk(
      e: Environment, validated: set<Revision>, engine: Cache<Archive>, readers: map<nat, Reader>)
  {
    forall id :: id in readers ==> ReaderOk(e, validated, engine, readers[id])
  }

  ghost predicate ProcessOk(e: Environment, w: World) {
    w.process.Up? ==>
      && CacheOk(e, w.process.engine)
      && (w.process.booted ==> ActiveOk(e, w.disk, w.history, w.process.engine, w.process.active))
      && (!w.process.booted ==> w.process.readers == map[])
      && WriterOk(e, w)
      && ReadersOk(e, w.history.validated, w.process.engine, w.process.readers)
      && (forall id :: id in w.process.compilers ==> e.seals(w.process.compilers[id]).Some?)
  }

  ghost predicate Inv(e: Environment, w: World) {
    DiskOk(e, w.disk, w.history) && ProcessOk(e, w)
  }

  // ----- Preservation, step by step -----

  lemma DigestNotEmpty(r: Revision)
    requires Bundle.IsDigest(r)
    ensures r != ""
  {
  }

  /** Readers are indifferent to more validated revisions and to growth or closing of the cache. */
  lemma ReadersFollow(
      e: Environment, validated: set<Revision>, more: set<Revision>, engine: Cache<Archive>, later: Cache<Archive>,
      readers: map<nat, Reader>)
    requires ReadersOk(e, validated, engine, readers) && validated <= more && engine.LeadsTo(later)
    requires engine.closed ==> later.closed
    ensures ReadersOk(e, more, later, readers)
  {
    forall id | id in readers
      ensures ReaderOk(e, more, later, readers[id])
    {
      assert ReaderOk(e, validated, engine, readers[id]);
    }
  }

  /** The invariant survives any growth or closing of the engine's cache. */
  lemma EngineStep(e: Environment, w: World, engine: Cache<Archive>)
    requires Inv(e, w) && w.process.Up? && CacheOk(e, engine) && w.process.engine.LeadsTo(engine)
    ensures Inv(e, w.(process := w.process.(engine := engine)))
  {
    hide ReadersOk, DiskOk, CacheOk, GoodStatus, Traced, Follows, Bundle.IsDigest;
    var v := w.(process := w.process.(engine := engine));
    assert forall r :: Held(w.process.engine, r) ==> Held(engine, r);
    ReadersFollow(e, w.history.validated, w.history.validated, w.process.engine, engine, w.process.readers);
  }

  lemma InsertOk(e: Environment, c: Cache<Archive>, r: Revision, archive: Archive)
    requires CacheOk(e, c) && e.seals(archive) == Some(r) && e.compiles(r) && c.Insert(r, archive).Ok?
    ensures CacheOk(e, c.Insert(r, archive).value) && c.LeadsTo(c.Insert(r, archive).value)
    ensures Held(c.Insert(r, archive).value, r)
  {
    var d := c.Insert(r, archive).value;
    assert d.revisions.Keys == c.revisions.Keys + {r};
  }

  lemma CrashStep(e: Environment, w: World)
    requires Inv(e, w)
    ensures Inv(e, w.(process := Down))
  {
  }

  lemma CleanedProvided(e: Environment, supplied: set<Supply>, source: Text, etag: Text, r: Revision)
    requires Provided(e, supplied, source, etag, r)
    ensures Provided(e, supplied, Utf8.Clean(source), Utf8.Clean(etag), r)
  {
    var given :| given in supplied && SuppliedAs(source, etag, given) && e.seals(given.archive) == Some(r);
    Utf8.CleanRepairs(given.source);
    Utf8.CleanRepairs(given.etag);
    hide Utf8.Clean;
    assert SuppliedAs(Utf8.Clean(source), Utf8.Clean(etag), given);
  }

  lemma ReloadedOk(e: Environment, disk: Disk, h: History)
    requires e.Lawful() && DiskOk(e, disk, h) && disk.state.Some? && e.reload(disk.state.value).Some?
    ensures e.reload(disk.state.value) == Some(Cleaned(disk.state.value))
    ensures RecoveryOk(e, disk, h, Cleaned(disk.state.value))
  {
    var s := disk.state.value;
    assert e.Reloads(s) && e.Reloads(Cleaned(s));
    Utf8.CleanRepairs(s.source);
    Utf8.CleanRepairs(s.etag);
    if h.durableOrigin == Supplied { CleanedProvided(e, h.supplied, s.source, s.etag, s.revision); }
    hide Utf8.Clean, Bundle.IsDigest, Follows, ArtifactsOk, LogOk, Provided;
  }

  lemma BootStep(e: Environment, w: World)
    requires e.Lawful() && Inv(e, w) && w.process.Down?
    ensures Inv(e, BootUp(e, w))
    ensures BootUp(e, w).process.Up? <==> w.disk.state.None? || e.reload(w.disk.state.value).Some?
  {
    if w.disk.state.Some? && e.reload(w.disk.state.value).Some? {
      ReloadedOk(e, w.disk, w.history);
      DigestNotEmpty(w.disk.state.value.revision);
      hide Utf8.Clean, Environment.Lawful, ArtifactsOk, ValidatedOk, LogOk;
    }
  }

  lemma RecordErrorStep(e: Environment, w: World, code: string)
    requires Inv(e, w) && w.process.Up? && w.process.booted
    ensures Inv(e, RecordError(w, code))
  {
  }

  /** Only the writer's position changes. */
  lemma MoveStep(e: Environment, w: World, writer: Writer)
    requires Inv(e, w) && w.process.Up? && WriterOk(e, At(w, writer))
    ensures Inv(e, At(w, writer))
  {
    hide ReadersOk, Provided, Bundle.IsDigest;
  }

  lemma FailedStep(e: Environment, w: World, error: Error)
    requires Inv(e, w) && w.process.Up?
    ensures Inv(e, Failed(w, error))
  {
    hide ReadersOk, Provided, Bundle.IsDigest;
    var writer := w.process.writer;
    if writer.Idle? || writer.Publishing? {
    } else if (writer.Opening? || writer.Reading? || writer.Compiling? || writer.Testing?) && writer.goal.Recovery? {
      var goal := writer.goal;
      if !goal.fallback && goal.state.previous != "" {
        MoveStep(e, w, Opening(Recovery(goal.state, goal.state.previous, true)));
      }
    } else if w.process.booted {
      RecordErrorStep(e, w, Recorded(error));
    }
  }

  lemma ReadStepKeeps(e: Environment, w: World, goal: Goal, archive: Archive)
    requires Inv(e, w) && w.process.Up? && w.process.writer == Reading(goal, archive)
    ensures Inv(e, ReadStep(e, w, goal, archive))
  {
    hide ReadersOk, Provided, Bundle.IsDigest;
    if e.seals(archive).Some? {
      var r := e.seals(archive).value;
      match w.process.engine.Check(r)
      case Err(_) =>
      case Ok(true) =>
        assert e.seals(w.process.engine.revisions[r]) == Some(r);
        MoveStep(e, w, Testing(goal, archive, r));
      case Ok(false) =>
        MoveStep(e, w, Compiling(goal, archive, r));
    }
  }

  lemma CompileStepKeeps(e: Environment, w: World, goal: Goal, archive: Archive, r: Revision)
    requires Inv(e, w) && w.process.Up? && w.process.writer == Compiling(goal, archive, r)
    ensures Inv(e, CompileStep(e, w, goal, archive, r))
  {
    hide ReadersOk, Provided, Bundle.IsDigest;
    if e.compiles(r) && w.process.engine.Insert(r, archive).Ok? {
      var engine := w.process.engine.Insert(r, archive).value;
      InsertOk(e, w.process.engine, r, archive);
      EngineStep(e, w, engine);
      MoveStep(e, w.(process := w.process.(engine := engine)), Testing(goal, archive, r));
    }
  }

  /** Validating one more revision disturbs nothing. */
  lemma ValidatedGrows(e: Environment, w: World, r: Revision)
    requires Inv(e, w) && w.process.Up? && e.compiles(r) && e.passes(r)
    ensures Inv(e, w.(history := w.history.(validated := w.history.validated + {r})))
  {
    hide ReadersOk, CacheOk, Follows, LogOk, Bundle.IsDigest;
    var v := w.(history := w.history.(validated := w.history.validated + {r}));
    ReadersFollow(e, w.history.validated, v.history.validated, w.process.engine, w.process.engine, w.process.readers);
  }

  /** So does one more delivery of bytes. */
  lemma SuppliedGrows(e: Environment, w: World, source: Text, etag: Text, archive: Archive)
    requires Inv(e, w) && w.process.Up?
    ensures Inv(e, Supplies(w, source, etag, archive))
  {
    hide ReadersOk, CacheOk, Follows, LogOk, Bundle.IsDigest, Utf8.Clean;
  }

  /** The status computed for a validated revision continues the published ones. */
  lemma ActivatedOk(e: Environment, w: World, r: Revision, goal: Goal, archive: Archive, now: Clock)
    requires e.Lawful()
    requires Inv(e, w) && w.process.Up? && w.process.writer == Testing(goal, archive, r) && goal.Activation?
    requires r in w.history.validated && Bundle.IsDigest(r)
    ensures StoringOk(e, w, Activated(w.process.active, r, goal.source, goal.etag, now), archive, goal.origin)
  {
    DigestNotEmpty(r);
    assert e.Reloads(Activated(w.process.active, r, goal.source, goal.etag, now));
    hide ReadersOk, CacheOk, LogOk, Bundle.IsDigest, Cleaned, Recovered, RollbackSource, Environment.Lawful;
  }

  lemma TestStepKeeps(e: Environment, w: World, goal: Goal, archive: Archive, r: Revision, now: Clock)
    requires e.Lawful() && Inv(e, w) && w.process.Up? && w.process.writer == Testing(goal, archive, r)
    ensures Inv(e, TestStep(e, w, goal, archive, r, now))
  {
    hide ReadersOk, CacheOk;
    if !w.process.engine.closed && e.passes(r) && (goal.Recovery? ==> r == goal.target) {
      var v := w.(history := w.history.(validated := w.history.validated + {r}));
      ValidatedGrows(e, w, r);
      match goal
      case Activation(source, etag, origin) =>
        ActivatedOk(e, v, r, goal, archive, now);
        MoveStep(e, v, Storing(Activated(w.process.active, r, source, etag, now), archive, origin));
      case Recovery(state, target, fallback) =>
        DigestNotEmpty(r);
        MoveStep(e, v, Saving(Recovered(state, r, fallback), if fallback then FellBack else w.history.durableOrigin));
    }
  }

  lemma StoreStepKeeps(e: Environment, w: World, next: Status, archive: Archive, origin: Origin)
    requires Inv(e, w) && w.process.Up? && w.process.writer == Storing(next, archive, origin)
    ensures Inv(e, StoreStep(e, w, next, archive, origin))
  {
    hide ReadersOk, Provided, Bundle.IsDigest;
    if next.revision !in w.disk.artifacts {
      MoveStep(e, w, Writing(next, archive, origin));
    } else if e.seals(w.disk.artifacts[next.revision]) == Some(next.revision) {
      MoveStep(e, w, Saving(next, origin));
    }
  }

  lemma RenameArtifactKeeps(e: Environment, w: World, next: Status, archive: Archive, origin: Origin)
    requires Inv(e, w) && w.process.Up? && w.process.writer == Writing(next, archive, origin)
    ensures Inv(e, RenameArtifact(w, next, archive, origin))
  {
    hide ReadersOk, CacheOk, Follows, ValidatedOk, Bundle.IsDigest;
  }

  lemma RenameStateKeeps(e: Environment, w: World, next: Status, origin: Origin)
    requires Inv(e, w) && w.process.Up? && w.process.writer == Saving(next, origin)
    ensures Inv(e, RenameState(w, next, origin))
  {
    hide ReadersOk, CacheOk, Bundle.IsDigest;
  }

  lemma ExtendOk(disk: Disk, log: seq<Revision>, s: Status)
    requires LogOk(disk, log) && Follows(s, log) && Stored(disk, s.revision) && s.revision != ""
    ensures LogOk(disk, Extend(log, s.revision))
    ensures Last(Extend(log, s.revision), s.revision)
    ensures Follows(s, Extend(log, s.revision))
  {
  }

  lemma PublishKeeps(e: Environment, w: World, next: Status, origin: Origin)
    requires Inv(e, w) && w.process.Up? && w.process.writer == Publishing(next, origin)
    ensures Inv(e, Publish(w, next, origin))
  {
    DigestNotEmpty(next.revision);
    ExtendOk(w.disk, w.history.log, next);
    var v := Publish(w, next, origin);
    assert Traced(e, v.history, next, origin);
    assert GoodStatus(e, v.disk, v.history, next, origin);
  }

  lemma OpenStepKeeps(e: Environment, w: World, goal: Goal)
    requires Inv(e, w) && w.process.Up? && w.process.writer == Opening(goal)
    ensures Inv(e, OpenStep(w, goal))
  {
    hide ReadersOk, Provided, Bundle.IsDigest;
    if goal.Recovery? && goal.target in w.disk.artifacts {
      MoveStep(e, w, Reading(goal, w.disk.artifacts[goal.target]));
    }
  }

  lemma SyncArtifactKeeps(e: Environment, w: World, next: Status, origin: Origin)
    requires Inv(e, w) && w.process.Up? && w.process.writer == Syncing(next, origin)
    ensures Inv(e, At(w, Saving(next, origin)))
  {
    hide ReadersOk, Provided, Bundle.IsDigest;
    MoveStep(e, w, Saving(next, origin));
  }

  lemma SyncStateKeeps(e: Environment, w: World, next: Status, origin: Origin)
    requires Inv(e, w) && w.process.Up? && w.process.writer == Flushing(next, origin)
    ensures Inv(e, At(w, Publishing(next, origin)))
  {
    hide ReadersOk, Provided, Bundle.IsDigest;
    MoveStep(e, w, Publishing(next, origin));
  }

  lemma AdvanceKeeps(e: Environment, w: World, now: Clock)
    requires e.Lawful() && Inv(e, w) && w.process.Up?
    ensures Inv(e, Advance(e, w, now))
  {
    hide Inv, OpenStep, ReadStep, CompileStep, TestStep, StoreStep, RenameArtifact, RenameState, Publish;
    match w.process.writer
    case Idle =>
    case Fetching(_, _, _) =>
    case Opening(goal) => OpenStepKeeps(e, w, goal);
    case Reading(goal, archive) => ReadStepKeeps(e, w, goal, archive);
    case Compiling(goal, archive, r) => CompileStepKeeps(e, w, goal, archive, r);
    case Testing(goal, archive, r) => TestStepKeeps(e, w, goal, archive, r, now);
    case Storing(next, archive, origin) => StoreStepKeeps(e, w, next, archive, origin);
    case Writing(next, archive, origin) => RenameArtifactKeeps(e, w, next, archive, origin);
    case Syncing(next, origin) => SyncArtifactKeeps(e, w, next, origin);
    case Saving(next, origin) => RenameStateKeeps(e, w, next, origin);
    case Flushing(next, origin) => SyncStateKeeps(e, w, next, origin);
    case Publishing(next, origin) => PublishKeeps(e, w, next, origin);
  }

  lemma StartActivateKeeps(e: Environment, w: World, archive: Archive, source: Text, etag: Text)
    requires Inv(e, w) && w.process.Up? && w.process.booted && w.process.writer.Idle?
    ensures Inv(e, StartActivate(w, archive, source, etag))
  {
    hide ReadersOk, Provided, Bundle.IsDigest;
    SuppliedGrows(e, w, source, etag, archive);
    MoveStep(e, Supplies(w, source, etag, archive), Reading(Activation(source, etag, Supplied), archive));
  }

  lemma StartRollbackKeeps(e: Environment, w: World, revision: Revision)
    requires Inv(e, w) && w.process.Up? && w.process.booted && w.process.writer.Idle?
    ensures Inv(e, StartRollback(w, revision))
  {
    hide ReadersOk, Provided, Bundle.IsDigest;
    if !Bundle.IsDigest(revision) || revision !in w.disk.artifacts {
      RecordErrorStep(e, w, UNKNOWN_REVISION);
    } else {
      MoveStep(e, w, Reading(Activation(RollbackSource(revision), [], RolledBack), w.disk.artifacts[revision]));
    }
  }

  lemma StartRefreshKeeps(e: Environment, w: World, from: Option<Text>)
    requires Inv(e, w) && w.process.Up? && w.process.booted && w.process.writer.Idle?
    ensures Inv(e, StartRefresh(w, from))
  {
    hide ReadersOk, Provided, Bundle.IsDigest;
    if from.None? {
      RecordErrorStep(e, w, INVALID_SOURCE);
    } else {
      MoveStep(e, w, StartRefresh(w, from).process.writer);
    }
  }

  lemma NotModifiedKeeps(e: Environment, w: World, now: Clock)
    requires Inv(e, w) && w.process.Up? && w.process.writer.Fetching?
    ensures Inv(e, AnswerNotModified(w, now))
  {
    hide ReadersOk, Provided, Bundle.IsDigest;
    var f := w.process.writer;
    if !Unchanged(f.seen, f.id, f.sent) {
      RecordErrorStep(e, w, INVALID_RESPONSE);
    } else {
      var next := f.seen.(refreshedAt := now, lastError := "");
      assert Traced(e, w.history, f.seen, w.history.origin);
      assert NextOk(e, w, next, w.history.origin);
      MoveStep(e, w, Saving(next, w.history.origin));
    }
  }

  lemma ContentKeeps(e: Environment, w: World, archive: Archive, etag: Text)
    requires Inv(e, w) && w.process.Up? && w.process.writer.Fetching?
    ensures Inv(e, AnswerContent(w, archive, etag))
  {
    hide ReadersOk, Provided, Bundle.IsDigest;
    var id := w.process.writer.id;
    SuppliedGrows(e, w, id, etag, archive);
    MoveStep(e, Supplies(w, id, etag, archive), Reading(Activation(id, etag, Supplied), archive));
  }

  lemma BeginKeeps(e: Environment, w: World, a: Action)
    requires Inv(e, w) && w.process.Up?
    ensures Inv(e, Begin(w, a))
  {
    hide Inv, StartActivate, StartRollback, StartRefresh, AnswerNotModified, AnswerContent;
    if w.process.booted {
      if w.process.writer.Idle? {
        match a
        case Activate(archive, source, etag) => StartActivateKeeps(e, w, archive, source, etag);
        case Rollback(revision) => StartRollbackKeeps(e, w, revision);
        case Refresh(from) => StartRefreshKeeps(e, w, from);
        case _ =>
      } else if w.process.writer.Fetching? {
        match a
        case NotModified(now) => NotModifiedKeeps(e, w, now);
        case Content(archive, etag) => ContentKeeps(e, w, archive, etag);
        case _ =>
      }
    }
  }

  /** Only one reader changes. */
  lemma ReaderStep(e: Environment, w: World, id: nat, r: Reader)
    requires Inv(e, w) && w.process.Up? && w.process.booted
    requires ReaderOk(e, w.history.validated, w.process.engine, r)
    ensures Inv(e, w.(process := w.process.(readers := w.process.readers[id := r])))
  {
    var readers := w.process.readers[id := r];
    assert ReadersOk(e, w.history.validated, w.process.engine, readers) by {
      hide ReaderOk, DiskOk, CacheOk, ActiveOk, WriterOk;
    }
    hide ReadersOk, DiskOk, CacheOk, ActiveOk;
  }

  /** Only the pending compilations change. */
  lemma CompilersStep(e: Environment, w: World, compilers: map<nat, Archive>)
    requires Inv(e, w) && w.process.Up?
    requires forall id :: id in compilers ==> e.seals(compilers[id]).Some?
    ensures Inv(e, w.(process := w.process.(compilers := compilers)))
  {
    hide ReadersOk, CacheOk, DiskOk, ActiveOk;
  }

  lemma LookUpKeeps(e: Environment, w: World, id: nat, failure: Option<Error>)
    requires Inv(e, w) && w.process.Up? && w.process.booted
    requires id in w.process.readers && w.process.readers[id].Passed?
    ensures Inv(e, LookUp(w, id, failure))
  {
    assert ReaderOk(e, w.history.validated, w.process.engine, w.process.readers[id]);
    ReaderStep(e, w, id, LookUp(w, id, failure).process.readers[id]);
  }

  lemma LoadKeeps(e: Environment, w: World, id: nat)
    requires Inv(e, w) && w.process.Up? && w.process.booted
    ensures Inv(e, Load(w, id))
  {
    ReaderStep(e, w, id, Loaded(w.process.active));
  }

  /** Before the process is up there is no reader. */
  lemma ReadersOfBooted(e: Environment, w: World, id: nat)
    requires Inv(e, w) && w.process.Up? && id in w.process.readers
    ensures w.process.booted
  {
  }

  lemma CheckReaderKeeps(e: Environment, w: World, id: nat, now: Clock)
    requires Inv(e, w) && w.process.Up? && w.process.booted
    requires id in w.process.readers && w.process.readers[id].Loaded?
    ensures Inv(e, CheckReader(e, w, id, now))
  {
    assert ReaderOk(e, w.history.validated, w.process.engine, w.process.readers[id]);
    ReaderStep(e, w, id, CheckReader(e, w, id, now).process.readers[id]);
  }

  lemma StartCompileKeeps(e: Environment, w: World, id: nat, archive: Archive)
    requires Inv(e, w) && w.process.Up?
    ensures Inv(e, StartCompile(e, w, id, archive))
  {
    if e.seals(archive).Some? && w.process.engine.Check(e.seals(archive).value) == Ok(false) {
      CompilersStep(e, w, w.process.compilers[id := archive]);
    }
  }

  lemma FinishCompileKeeps(e: Environment, w: World, id: nat)
    requires Inv(e, w) && w.process.Up? && id in w.process.compilers && e.seals(w.process.compilers[id]).Some?
    ensures Inv(e, FinishCompile(e, w, id))
  {
    var p := w.process;
    var archive := p.compilers[id];
    var r := e.seals(archive).value;
    CompilersStep(e, w, p.compilers - {id});
    if e.compiles(r) && p.engine.Insert(r, archive).Ok? {
      InsertOk(e, p.engine, r, archive);
      EngineStep(e, w.(process := p.(compilers := p.compilers - {id})), p.engine.Insert(r, archive).value);
    }
  }

  lemma CloseKeeps(e: Environment, w: World)
    requires Inv(e, w) && w.process.Up?
    ensures Inv(e, w.(process := w.process.(engine := w.process.engine.Close())))
  {
    EngineStep(e, w, w.process.engine.Close());
  }

  lemma ReadingKeeps(e: Environment, w: World, a: Action)
    requires Inv(e, w) && w.process.Up? && (a.Read? || a.Check? || a.Lookup?)
    ensures Inv(e, Beside(e, w, a))
  {
    hide Inv, Load, CheckReader, LookUp;
    var p := w.process;
    match a
    case Read(id) =>
      if p.booted { LoadKeeps(e, w, id); }
    case Check(id, now) =>
      if id in p.readers && p.readers[id].Loaded? {
        ReadersOfBooted(e, w, id);
        CheckReaderKeeps(e, w, id, now);
      }
    case Lookup(id, failure) =>
      if id in p.readers && p.readers[id].Passed? {
        ReadersOfBooted(e, w, id);
        LookUpKeeps(e, w, id, failure);
      }
  }

  lemma BesideKeeps(e: Environment, w: World, a: Action)
    requires Inv(e, w) && w.process.Up?
    ensures Inv(e, Beside(e, w, a))
  {
    hide Inv, Load, CheckReader, LookUp, StartCompile, FinishCompile;
    var p := w.process;
    if a.Read? || a.Check? || a.Lookup? {
      ReadingKeeps(e, w, a);
    } else if a.Compile? {
      StartCompileKeeps(e, w, a.client, a.archive);
    } else if a.Insert? {
      if a.client in p.compilers && e.seals(p.compilers[a.client]).Some? { FinishCompileKeeps(e, w, a.client); }
    } else if a.Close? {
      CloseKeeps(e, w);
    }
  }

  /** Every step of every run keeps the invariant. */
  lemma StepKeeps(e: Environment, w: World, a: Action)
    requires e.Lawful() && Inv(e, w)
    ensures Inv(e, Step(e, w, a))
  {
    hide Inv, Advance, Failed, Begin, Beside, BootUp;
    if w.process.Down? {
      if a.Boot? {
        BootStep(e, w);
      }
    } else {
      match a
      case Boot =>
      case Crash => CrashStep(e, w);
      case Proceed(now) => AdvanceKeeps(e, w, now);
      case Fault(error) => FailedStep(e, w, error);
      case _ =>
        if Starts(a) {
          BeginKeeps(e, w, a);
        } else {
          BesideKeeps(e, w, a);
        }
    }
  }

  /** Every reachable world is good, whatever happens in whatever order. */
  lemma {:induction false} RunKeeps(e: Environment, run: seq<Action>)
    requires e.Lawful()
    ensures Inv(e, Run(e, run))
  {
    if run != [] {
      RunKeeps(e, run[..|run| - 1]);
      StepKeeps(e, Run(e, run[..|run| - 1]), run[|run| - 1]);
    }
  }
}
