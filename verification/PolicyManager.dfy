/**
 The policy manager as the program that takes the micro-steps of the lifecycle: its fields
 and its directory follow a run of the state machine, step for step.
 */
module PolicyManager {
  import opened Wrappers
  import opened EngineCache
  import opened Lifecycle
  import opened LifecycleInvariant
  import opened LifecycleSafety
  import opened StateFile
  import Bundle
  import JsonText
  import Normalization
  import Ordering
  import Sealing
  import Utf8

  // ----- Single steps of the run -----

  lemma ReadGoes(e: Environment, w: World, goal: Goal, archive: Archive, r: Revision, now: Clock)
    requires w.process.Up? && w.process.writer == Reading(goal, archive)
    requires e.seals(archive) == Some(r) && !w.process.engine.closed
    ensures Step(e, w, Proceed(now)) ==
            var cached := r in w.process.engine.revisions;
            Lifecycle.At(w, if cached then Testing(goal, archive, r) else Compiling(goal, archive, r))
  {
  }

  lemma CompileGoes(e: Environment, w: World, goal: Goal, archive: Archive, r: Revision, now: Clock)
    requires w.process.Up? && w.process.writer == Compiling(goal, archive, r)
    requires e.compiles(r) && w.process.engine.Insert(r, archive).Ok?
    ensures Step(e, w, Proceed(now)) ==
            w.(process := w.process.(engine := w.process.engine.Insert(r, archive).value,
                                     writer := Testing(goal, archive, r)))
  {
  }

  lemma StoreGoes(e: Environment, w: World, next: Status, archive: Archive, origin: Origin, now: Clock)
    requires w.process.Up? && w.process.writer == Storing(next, archive, origin)
    requires next.revision in w.disk.artifacts ==> e.seals(w.disk.artifacts[next.revision]) == Some(next.revision)
    ensures Step(e, w, Proceed(now)) ==
            var stored := next.revision in w.disk.artifacts;
            Lifecycle.At(w, if stored then Saving(next, origin) else Writing(next, archive, origin))
  {
  }

  lemma WriteGoes(e: Environment, w: World, next: Status, archive: Archive, origin: Origin, now: Clock)
    requires w.process.Up? && w.process.writer == Writing(next, archive, origin)
    ensures Step(e, w, Proceed(now)) == RenameArtifact(w, next, archive, origin)
  {
  }

  lemma SyncGoes(e: Environment, w: World, next: Status, origin: Origin, now: Clock)
    requires w.process.Up? && w.process.writer == Syncing(next, origin)
    ensures Step(e, w, Proceed(now)) == Lifecycle.At(w, Saving(next, origin))
  {
  }

  lemma TestGoes(e: Environment, w: World, goal: Goal, archive: Archive, r: Revision, now: Clock)
    requires w.process.Up? && w.process.writer == Testing(goal, archive, r)
    requires !w.process.engine.closed && e.passes(r) && (goal.Recovery? ==> r == goal.target)
    ensures var v := w.(history := w.history.(validated := w.history.validated + {r}));
            Step(e, w, Proceed(now)) == Lifecycle.At(v, Validated(w, goal, archive, r, now))
  {
  }

  lemma OpenGoes(e: Environment, w: World, goal: Goal, now: Clock)
    requires w.process.Up? && w.process.writer == Opening(goal) && goal.Recovery? && goal.target in w.disk.artifacts
    ensures Step(e, w, Proceed(now)) == Lifecycle.At(w, Reading(goal, w.disk.artifacts[goal.target]))
  {
  }

  lemma RecoveryFaultGoes(e: Environment, w: World, goal: Goal, error: Error)
    requires w.process.Up? && goal.Recovery?
    requires var pc := w.process.writer; (pc.Opening? || pc.Reading? || pc.Compiling? || pc.Testing?) && pc.goal == goal
    ensures Step(e, w, Fault(error)) == RecoveryFailed(w, goal)
  {
  }

  /** Where a passed validation leads. */
  ghost function Validated(w: World, goal: Goal, archive: Archive, r: Revision, now: Clock): Writer
    requires w.process.Up?
  {
    match goal
    case Activation(source, etag, origin) => Storing(Activated(w.process.active, r, source, etag, now), archive, origin)
    case Recovery(state, _, fallback) =>
      Saving(Recovered(state, r, fallback), if fallback then FellBack else w.history.durableOrigin)
  }

  /** In a reachable world every artifact seals to its name, and its revision compiles and passes its tests. */
  lemma ArtifactsIntact(e: Environment, run: seq<Action>)
    requires e.Lawful()
    ensures forall r :: r in Run(e, run).disk.artifacts ==>
              e.seals(Run(e, run).disk.artifacts[r]) == Some(r) && e.compiles(r) && e.passes(r)
  {
    RunKeeps(e, run);
  }

  /** In a reachable world the engine answers for the active revision, unless it is closed. */
  lemma ActiveHeld(e: Environment, run: seq<Action>)
    requires e.Lawful() && Run(e, run).process.Up? && Run(e, run).process.booted
    requires Run(e, run).process.active.revision != "" && !Run(e, run).process.engine.closed
    ensures var p := Run(e, run).process;
            && p.active.revision in p.engine.revisions && p.active.revision in Run(e, run).history.validated
            && e.seals(p.engine.revisions[p.active.revision]) == Some(p.active.revision)
  {
    RunKeeps(e, run);
  }

  /** Where the outside world makes an operation fail, if anywhere, and what the clock says. */
  datatype Conditions = Conditions(
    open: Option<Error>,
    read: Option<Error>,
    compile: Option<Error>,
    test: Option<Error>,
    look: Option<Error>,
    stageArtifact: Option<Error>,
    syncArtifact: Option<Error>,
    cancelled: Option<Error>,
    stageState: Option<Error>,
    syncState: Option<Error>,
    now: Clock)
  {
    /** The artifact can be stored, when it is already there or not. */
    predicate Stores(there: bool) {
      look.None? && (there || (stageArtifact.None? && syncArtifact.None?))
    }

    /** The new state.json is renamed into place. */
    predicate Saves() {
      cancelled.None? && stageState.None?
    }

    /** A stored revision can be brought back. */
    predicate Recovers() {
      open.None? && read.None? && compile.None? && test.None?
    }
  }

  /** What a source answers to a request. */
  datatype Reply = Failure(error: Error) | Same | Bytes(archive: Archive, etag: Text)

  const INVALID_BUNDLE := Typed("ng.policy.invalid_bundle")
  const CHECKSUM_MISMATCH := Typed("ng.policy.checksum_mismatch")
  const UNHEALTHY := Typed("ng.policy.unhealthy_candidate")
  const TESTS_FAILED := Typed("ng.policy.tests_failed")
  const COMPILE_ERROR := Typed("ng.policy.compile_error")
  const RECOVERY_FAILED := Typed("ng.policy.recovery_failed")
  const INVALID_STATE := "ng.policy.invalid_state"

  ghost function SealsTo(pl: Bundle.Platform, a: Archive): Option<Revision> {
    if Sealing.Acceptable(pl, a) then Some(Sealing.RevisionOf(pl, Sealing.FilesOf(a))) else None
  }

  /** The environment's notion of sealing is the one of the bundle code. */
  ghost predicate Honest(e: Environment, pl: Bundle.Platform) {
    forall a :: e.seals(a) == SealsTo(pl, a)
  }

  /**
   What the lifecycle assumes of its environment is what sealing and the state file do:
   revisions are digests, and what is accepted once is accepted again.
   */
  lemma HonestIsLawful(e: Environment, pl: Bundle.Platform, u: JsonText.Unicode, tm: TimeText)
    requires pl.Lawful() && Honest(e, pl)
    requires u.Lawful() && tm.Lawful() && Faithful(e, u, tm)
    ensures e.Lawful()
  {
    FaithfulReloads(e, u, tm);
    hide Environment.Reloads, Faithful;
    forall a | e.seals(a).Some?
      ensures Bundle.IsDigest(e.seals(a).value)
    {
      var files := Sealing.FilesOf(a);
      assert e.seals(a) == SealsTo(pl, a);
      RevisionIsDigest(pl, files);
    }
  }

  lemma RevisionIsDigest(pl: Bundle.Platform, files: Bundle.Files)
    requires pl.Lawful() && Sealing.Sealed(pl, files).Some?
    ensures Bundle.IsDigest(Sealing.RevisionOf(pl, files))
  {
    var m := Bundle.Inspected(pl, files).value;
    assert Sealing.RevisionOf(pl, files) == pl.digest(Bundle.Preimage(pl, Sealing.BuildInput(pl, files, m)));
  }

  /** The durable directory, and the run of the state machine that led to it. */
  class Directory {
    var state: Option<Status>
    var artifacts: map<Revision, Archive>
    ghost var run: seq<Action>

    constructor ()
      ensures state == None && artifacts == map[] && run == []
    {
      state, artifacts, run := None, map[], [];
    }

    /** Staging, rename, directory sync: a failure after the rename leaves the new contents. */
    method WriteState(s: Status, stage: Option<Error>, sync: Option<Error>) returns (err: Option<Error>)
      modifies this`state
      ensures err == if stage.Some? then stage else sync
      ensures state == if stage.Some? then old(state) else Some(s)
    {
      if stage.Some? {
        return stage;
      }
      state := Some(s);
      return sync;
    }

    method WriteArtifact(r: Revision, a: Archive, stage: Option<Error>, sync: Option<Error>)
      returns (err: Option<Error>)
      modifies this`artifacts
      ensures err == if stage.Some? then stage else sync
      ensures artifacts == if stage.Some? then old(artifacts) else old(artifacts)[r := a]
    {
      if stage.Some? {
        return stage;
      }
      artifacts := artifacts[r := a];
      return sync;
    }
  }

  /** Reading state.json back, through the strict decoder. */
  method Reload(e: Environment, u: JsonText.Unicode, tm: TimeText, s: Status) returns (r: Option<Status>)
    requires Faithful(e, u, tm) && s.refreshedAt < CLOCK_END
    ensures r == e.reload(s)
  {
    hide Marshal, FromJson;
    assert e.reload(s) == Restored(u, tm, s);
    var text := Marshal(tm, s);
    Utf8.DecodeEncoded(text);
    var v := Normalization.Decode(u, Utf8.Encode(text));
    if v.Err? {
      return None;
    }
    return FromJson(tm, v.value);
  }

  class Manager {
    const env: Environment
    const platform: Bundle.Platform
    const dir: Directory
    const engine: Engine<Archive>
    var active: Status
    ghost var booted: bool

    constructor (env: Environment, platform: Bundle.Platform, dir: Directory, engine: Engine<Archive>)
      ensures this.env == env && this.platform == platform && this.dir == dir && this.engine == engine
      ensures active == NOTHING && !booted
    {
      this.env, this.platform, this.dir, this.engine := env, platform, dir, engine;
      active, booted := NOTHING, false;
    }

    ghost function World(): World
      reads this, dir
    {
      Run(env, dir.run)
    }

    /** Fields and directory are those of the run, with the writer at the given place. */
    ghost predicate At(writer: Writer)
      reads this, dir, engine
    {
      && env.Lawful() && Honest(env, platform)
      && World().disk == Disk(dir.state, dir.artifacts)
      && World().process.Up?
      && World().process.booted == booted && World().process.active == active
      && World().process.engine == engine.State() && World().process.writer == writer
    }

    /** No operation is under way. */
    ghost predicate Valid()
      reads this, dir, engine
    {
      booted && At(Idle)
    }

    /** Where the run has the writer; fields and directory follow it. */
    ghost predicate Follows()
      reads this, dir, engine
    {
      World().process.Up? && At(World().process.writer)
    }

    /** A bundle is being validated for the given goal. */
    ghost predicate Validating(goal: Goal)
      reads this, dir, engine
    {
      && Follows()
      && var pc := World().process.writer;
         (pc.Opening? || pc.Reading? || pc.Compiling? || pc.Testing?) && pc.goal == goal
    }

    /** A validated status is on its way to disk. */
    ghost predicate Persisting()
      reads this, dir, engine
    {
      && Follows()
      && var pc := World().process.writer; pc.Storing? || pc.Writing? || pc.Syncing? || pc.Saving? || pc.Flushing?
    }

    /** What the run guarantees of the fields between any two operations. */
    lemma Between()
      requires Valid()
      ensures active.revision != "" ==>
        && dir.state.Some? && active.revision in {dir.state.value.revision, dir.state.value.previous}
        && Usable(active.revision) && (engine.closed || active.revision in engine.revisions)
      ensures active.previous != "" ==> active.previous != active.revision && Usable(active.previous)
      ensures dir.state.Some? ==>
        Usable(dir.state.value.revision) && (dir.state.value.previous != "" ==> Usable(dir.state.value.previous))
      ensures |engine.revisions| <= MAX_REVISIONS && (engine.closed ==> engine.revisions == map[])
    {
      RunKeeps(env, dir.run);
      var w := World();
      assert DiskOk(env, w.disk, w.history) && ActiveOk(env, w.disk, w.history, w.process.engine, active);
    }

    lemma ActiveReady()
      requires World().process.Up? && World().process.booted && World().process.active == active && env.Lawful()
      ensures active.revision != "" ==> active.ready
    {
      RunKeeps(env, dir.run);
    }

    /** The artifact of the revision seals to it, and the revision compiles and passes its tests. */
    predicate Usable(r: Revision)
      reads this, dir
    {
      r in dir.artifacts && env.seals(dir.artifacts[r]) == Some(r) && env.compiles(r) && env.passes(r)
    }

    /** If the process were to stop now, the next start without faults makes the revision active. */
    ghost predicate Resumes(r: Revision)
      reads this, dir
    {
      RestartsWith(env, World(), 1, r)
    }

    lemma ResumesDurable(r: Revision)
      requires Valid() && dir.state.Some?
      ensures Resumes(r) <==> dir.state.value.revision == r && env.reload(dir.state.value).Some?
    {
      RunKeeps(env, dir.run);
      hide Run, Inv, Restarted;
      RestartOutcome(env, World(), 1);
    }

    /** The next action of the run. */
    ghost method Take(a: Action)
      modifies dir`run
      ensures dir.run == old(dir.run) + [a]
      ensures World() == Step(env, old(World()), a)
    {
      hide Step;
      dir.run := dir.run + [a];
      assert dir.run[..|dir.run| - 1] == old(dir.run);
    }

    /** The revision an archive seals to, by reading and resealing it. */
    method Identify(archive: Archive) returns (r: Option<Revision>)
      requires Honest(env, platform)
      ensures r == env.seals(archive)
    {
      hide Run, Step;
      var files := Sealing.ReadArchive(platform, archive);
      if files.Err? {
        return None;
      }
      var sealed := Sealing.Seal(platform, files.value);
      return Some(sealed.value.1.buildDigest);
    }

    // ----- Validation -----

    /** The bytes are an acceptable bundle that the engine holds or can compile. */
    predicate Compiles(archive: Archive, cache: Cache<Archive>, c: Conditions) {
      && env.seals(archive).Some? && c.compile.None? && !cache.closed
      && var r := env.seals(archive).value;
         r in cache.revisions || (env.compiles(r) && |cache.revisions| < MAX_REVISIONS)
    }

    /** The engine's cache after the attempt. */
    function Compiled(archive: Archive, cache: Cache<Archive>, c: Conditions): Cache<Archive> {
      if Compiles(archive, cache, c) && env.seals(archive).value !in cache.revisions
      then Cache(cache.revisions[env.seals(archive).value := archive], false) else cache
    }

    /** The bundle is acceptable, compiles and passes its tests in time. */
    predicate Validates(archive: Archive, cache: Cache<Archive>, c: Conditions) {
      Compiles(archive, cache, c) && env.passes(env.seals(archive).value) && c.test.None?
    }

    /** Read, then compile unless the engine already holds the revision. */
    method Compile(goal: Goal, archive: Archive, c: Conditions) returns (r: Result<Revision, Error>)
      requires At(Reading(goal, archive))
      modifies engine, dir`run
      ensures r.Ok? <==> Compiles(archive, old(engine.State()), c)
      ensures r.Ok? ==> At(Testing(goal, archive, r.value)) && env.seals(archive) == Some(r.value)
      ensures r.Err? ==> Validating(goal)
      ensures engine.State() == Compiled(archive, old(engine.State()), c)
    {
      hide Run, Step, Honest;
      var id := Identify(archive);
      if id.None? {
        return Err(INVALID_BUNDLE);
      }
      if c.compile.Some? {
        return Err(c.compile.value);
      }
      var revision := id.value;
      var cached := engine.Check(revision);
      if cached.Err? {
        return Err(Typed(cached.error));
      }
      ReadGoes(env, World(), goal, archive, revision, c.now);
      Take(Proceed(c.now));
      if cached.value {
        return Ok(revision);
      }
      if !env.compiles(revision) {
        return Err(COMPILE_ERROR);
      }
      ghost var w := World();
      var full := engine.Insert(revision, archive);
      if full.Some? {
        return Err(Typed(full.value));
      }
      CompileGoes(env, w, goal, archive, revision, c.now);
      Take(Proceed(c.now));
      return Ok(revision);
    }

    /** Health, bundled tests and the context, after compilation; the step itself is the caller's. */
    method Test(goal: Goal, archive: Archive, r: Revision, c: Conditions) returns (err: Option<Error>)
      requires At(Testing(goal, archive, r))
      ensures err.None? <==> c.test.None? && !engine.closed && env.passes(r)
    {
      var ready, _ := engine.Health(false);
      if !ready {
        return Some(UNHEALTHY);
      }
      if !env.passes(r) {
        return Some(TESTS_FAILED);
      }
      return c.test;
    }

    // ----- Persistence -----

    /** The artifact of next is checked if it exists, and written if it does not. */
    method StoreArtifact(next: Status, archive: Archive, ghost origin: Origin, c: Conditions)
      returns (err: Option<Error>)
      requires At(Storing(next, archive, origin))
      modifies dir`artifacts, dir`run
      ensures err.None? <==> c.Stores(next.revision in old(dir.artifacts)) && Intact(next.revision, old(dir.artifacts))
      ensures err.None? ==> At(Saving(next, origin))
      ensures err.Some? ==> Persisting()
      ensures dir.artifacts ==
              if next.revision in old(dir.artifacts) || c.look.Some? || c.stageArtifact.Some? then old(dir.artifacts)
              else old(dir.artifacts)[next.revision := archive]
    {
      hide Run, Step, Honest;
      if c.look.Some? {
        return c.look;
      }
      if next.revision in dir.artifacts {
        var held := Identify(dir.artifacts[next.revision]);
        if held != Some(next.revision) {
          return Some(CHECKSUM_MISMATCH);
        }
        StoreGoes(env, World(), next, archive, origin, c.now);
        Take(Proceed(c.now));
        return None;
      }
      StoreGoes(env, World(), next, archive, origin, c.now);
      Take(Proceed(c.now));
      ghost var w := World();
      err := dir.WriteArtifact(next.revision, archive, c.stageArtifact, c.syncArtifact);
      if c.stageArtifact.Some? {
        return;
      }
      WriteGoes(env, w, next, archive, origin, c.now);
      Take(Proceed(c.now));
      if err.None? {
        SyncGoes(env, World(), next, origin, c.now);
        Take(Proceed(c.now));
      }
    }

    /** An existing artifact seals to its name. */
    predicate Intact(r: Revision, artifacts: map<Revision, Archive>) {
      r in artifacts ==> env.seals(artifacts[r]) == Some(r)
    }

    /** state.json is replaced; a failure of the last sync comes after the fact. */
    method Persist(next: Status, ghost origin: Origin, c: Conditions) returns (err: Option<Error>)
      requires At(Saving(next, origin))
      modifies dir`state, dir`run
      ensures err == if c.stageState.Some? then c.stageState else c.syncState
      ensures err.None? ==> At(Publishing(next, origin))
      ensures err.Some? ==> Persisting()
      ensures dir.state == if c.stageState.Some? then old(dir.state) else Some(next)
    {
      hide Run, Honest;
      err := dir.WriteState(next, c.stageState, c.syncState);
      if c.stageState.Some? {
        return;
      }
      Take(Proceed(c.now));
      if err.None? {
        Take(Proceed(c.now));
      }
    }

    method Publish(next: Status, ghost origin: Origin, c: Conditions)
      requires At(Publishing(next, origin))
      modifies this`active, this`booted, dir`run
      ensures Valid() && active == next
    {
      hide Run, Honest;
      Take(Proceed(c.now));
      active, booted := next, true;
    }

    /** An error is recorded in memory and the lock released. */
    method RecordError(error: Error) returns (code: string)
      requires booted && Follows()
      requires var pc := World().process.writer; !pc.Idle? && !pc.Publishing?
      requires var pc := World().process.writer;
               (pc.Opening? || pc.Reading? || pc.Compiling? || pc.Testing?) ==> pc.goal.Activation?
      modifies this`active, dir`run
      ensures code == Recorded(error)
      ensures Valid() && active == old(active).(lastError := code)
    {
      hide Run, Honest;
      Take(Fault(error));
      code := Recorded(error);
      active := active.(lastError := code);
    }

    // ----- Operations -----

    /** Artifact, then state.json, then the switch of the readers. */
    method Install(next: Status, archive: Archive, ghost origin: Origin, c: Conditions) returns (err: Option<Error>)
      requires booted && At(Storing(next, archive, origin)) && env.seals(archive) == Some(next.revision)
      modifies this`active, this`booted, dir`state, dir`artifacts, dir`run
      ensures var saved := c.Stores(next.revision in old(dir.artifacts)) && c.Saves();
              && (err.None? <==> saved && c.syncState.None?)
              && dir.state == (if saved then Some(next) else old(dir.state))
      ensures if err.None? then Valid() && active == next else Persisting() && active == old(active) && booted
      ensures dir.artifacts == Kept(old(dir.artifacts), next.revision, archive, c)
    {
      hide Run, Step, Honest;
      ArtifactsIntact(env, dir.run);
      err := StoreArtifact(next, archive, origin, c);
      if err.Some? {
        return;
      }
      if c.cancelled.Some? {
        return c.cancelled;
      }
      err := Persist(next, origin, c);
      if err.Some? {
        return;
      }
      Publish(next, origin, c);
    }

    /** The artifacts after an attempt to store one. */
    function Kept(artifacts: map<Revision, Archive>, r: Revision, archive: Archive, c: Conditions):
      map<Revision, Archive>
    {
      if r in artifacts || c.look.Some? || c.stageArtifact.Some? then artifacts else artifacts[r := archive]
    }

    /** Compile and test; the status to publish is then determined. */
    method Validate(goal: Goal, archive: Archive, c: Conditions) returns (r: Result<Revision, Error>)
      requires goal.Activation? && At(Reading(goal, archive))
      modifies engine, dir`run
      ensures r.Ok? <==> Validates(archive, old(engine.State()), c)
      ensures r.Ok? ==>
        && env.seals(archive) == Some(r.value)
        && At(Storing(Activated(active, r.value, goal.source, goal.etag, c.now), archive, goal.origin))
      ensures r.Err? ==> Validating(goal)
      ensures engine.State() == Compiled(archive, old(engine.State()), c)
    {
      hide Run, Step, Honest;
      r := Compile(goal, archive, c);
      if r.Err? {
        return;
      }
      var failed := Test(goal, archive, r.value, c);
      if failed.Some? {
        return Err(failed.value);
      }
      TestGoes(env, World(), goal, archive, r.value, c.now);
      Take(Proceed(c.now));
    }

    /** Validation, the artifact and the rename of state.json all succeed. */
    predicate ReachesDisk(
        archive: Archive, cache: Cache<Archive>, artifacts: map<Revision, Archive>, c: Conditions)
    {
      Validates(archive, cache, c) && c.Stores(env.seals(archive).value in artifacts) && c.Saves()
    }

    /**
     What an operation leaves behind that wanted next to be active: next is durable from the
     rename on, and active if the sync after it succeeds too.
     */
    ghost predicate Leaves(
        err: Option<string>, reached: bool, next: Status, was: Status, durable: Option<Status>, c: Conditions)
      reads this, dir
    {
      && (err.None? <==> reached && c.syncState.None?)
      && dir.state == (if reached then Some(next) else durable)
      && active == (if err.None? then next else was.(lastError := err.value))
    }

    /**
     After a failure a restart comes back to the revision that is still active iff it would have
     done so before, or, past the rename, iff the candidate has that revision and can be read back.
     */
    ghost predicate Retains(reached: bool, next: Status, durable: Option<Status>)
      reads this, dir
    {
      var s := if reached then Some(next) else durable;
      s.Some? ==> (Resumes(active.revision) <==> s.value.revision == active.revision && env.reload(s.value).Some?)
    }

    lemma FailureRetains(
        err: Option<string>, reached: bool, next: Status, was: Status, durable: Option<Status>, c: Conditions)
      requires Valid() && Leaves(err, reached, next, was, durable, c)
      ensures Retains(reached, next, durable)
    {
      if dir.state.Some? { ResumesDurable(active.revision); }
    }

    ghost function Candidate(goal: Goal, archive: Archive, was: Status, c: Conditions): Status
      requires goal.Activation?
    {
      if env.seals(archive).None? then was
      else Activated(was, env.seals(archive).value, goal.source, goal.etag, c.now)
    }

    /** Validate the bytes in hand, store them, make them durable, then switch readers. */
    method ActivateBytes(goal: Goal, archive: Archive, c: Conditions) returns (err: Option<string>)
      requires booted && goal.Activation? && At(Reading(goal, archive))
      modifies this`active, this`booted, engine, dir`state, dir`artifacts, dir`run
      ensures Valid()
      ensures var reached := ReachesDisk(archive, old(engine.State()), old(dir.artifacts), c);
              var next := Candidate(goal, archive, old(active), c);
              Leaves(err, reached, next, old(active), old(dir.state), c)
      ensures dir.artifacts == if Validates(archive, old(engine.State()), c)
                               then Kept(old(dir.artifacts), env.seals(archive).value, archive, c)
                               else old(dir.artifacts)
      ensures engine.State() == Compiled(archive, old(engine.State()), c)
    {
      hide Run, Step, Honest;
      var r := Validate(goal, archive, c);
      if r.Err? {
        var code := RecordError(r.error);
        return Some(code);
      }
      var next := Activated(active, r.value, goal.source, goal.etag, c.now);
      var failed := Install(next, archive, goal.origin, c);
      if failed.Some? {
        var code := RecordError(failed.value);
        return Some(code);
      }
      return None;
    }

    method Activate(archive: Archive, source: Text, etag: Text, c: Conditions) returns (err: Option<string>)
      requires Valid()
      modifies this`active, this`booted, engine, dir`state, dir`artifacts, dir`run
      ensures Valid()
      ensures var reached := ReachesDisk(archive, old(engine.State()), old(dir.artifacts), c);
              var next := Candidate(Activation(source, etag, Supplied), archive, old(active), c);
              && Leaves(err, reached, next, old(active), old(dir.state), c)
              && Retains(reached, next, old(dir.state))
      ensures dir.artifacts == if Validates(archive, old(engine.State()), c)
                               then Kept(old(dir.artifacts), env.seals(archive).value, archive, c)
                               else old(dir.artifacts)
      ensures engine.State() == Compiled(archive, old(engine.State()), c)
      ensures err.None? ==>
        && active.ready && env.seals(archive) == Some(active.revision) && active.source == source
        && active.etag == etag && active.refreshedAt == c.now && active.lastError == ""
        && active.previous ==
             (if old(active).revision == active.revision then old(active).previous else old(active).revision)
    {
      hide Run, Honest;
      ghost var goal := Activation(source, etag, Supplied);
      ghost var reached := ReachesDisk(archive, engine.State(), dir.artifacts, c);
      ghost var was, durable := active, dir.state;
      Take(Action.Activate(archive, source, etag));
      err := ActivateBytes(Activation(source, etag, Supplied), archive, c);
      FailureRetains(err, reached, Candidate(goal, archive, was, c), was, durable, c);
    }

    /** The request names a revision whose artifact is there, and it can be validated and made durable again. */
    predicate ComesBack(
        revision: Revision, cache: Cache<Archive>, artifacts: map<Revision, Archive>, c: Conditions)
    {
      && Bundle.IsDigest(revision) && revision in artifacts && c.Recovers() && c.Saves() && c.look.None?
      && !cache.closed && (revision in cache.revisions || |cache.revisions| < MAX_REVISIONS)
    }

    /** Bring back a revision from its artifact, without an entity tag. */
    method Rollback(revision: Revision, c: Conditions) returns (err: Option<string>)
      requires Valid()
      modifies this`active, this`booted, engine, dir`state, dir`artifacts, dir`run
      ensures Valid()
      ensures var reached := ComesBack(revision, old(engine.State()), old(dir.artifacts), c);
              var next := Activated(old(active), revision, RollbackSource(revision), [], c.now);
              && Leaves(err, reached, next, old(active), old(dir.state), c)
              && Retains(reached, next, old(dir.state))
      ensures dir.artifacts == old(dir.artifacts)
      ensures !Bundle.IsDigest(revision) || revision !in old(dir.artifacts) ==> err == Some(UNKNOWN_REVISION)
      ensures err.None? ==>
        && active.ready && active.revision == revision && active.source == Utf8.Encode("rollback:" + revision)
        && active.etag == [] && active.refreshedAt == c.now && active.lastError == ""
    {
      hide Run, Honest;
      ghost var reached := ComesBack(revision, engine.State(), dir.artifacts, c);
      ghost var next := Activated(active, revision, RollbackSource(revision), [], c.now);
      ghost var was, durable := active, dir.state;
      err := BringBack(revision, c);
      FailureRetains(err, reached, next, was, durable, c);
    }

    method BringBack(revision: Revision, c: Conditions) returns (err: Option<string>)
      requires Valid()
      modifies this`active, this`booted, engine, dir`state, dir`artifacts, dir`run
      ensures Valid()
      ensures var reached := ComesBack(revision, old(engine.State()), old(dir.artifacts), c);
              var next := Activated(old(active), revision, RollbackSource(revision), [], c.now);
              Leaves(err, reached, next, old(active), old(dir.state), c)
      ensures dir.artifacts == old(dir.artifacts)
      ensures !Bundle.IsDigest(revision) || revision !in old(dir.artifacts) ==> err == Some(UNKNOWN_REVISION)
    {
      hide Run, Honest;
      ArtifactsIntact(env, dir.run);
      Take(Action.Rollback(revision));
      if !Bundle.IsDigest(revision) || revision !in dir.artifacts {
        active := active.(lastError := UNKNOWN_REVISION);
        return Some(UNKNOWN_REVISION);
      }
      if c.open.Some? {
        var code := RecordError(Typed(UNKNOWN_REVISION));
        return Some(code);
      }
      if c.read.Some? {
        var code := RecordError(c.read.value);
        return Some(code);
      }
      err := ActivateBytes(Activation(RollbackSource(revision), [], RolledBack), dir.artifacts[revision], c);
    }

    function Sent(s: Status, id: Text): Text {
      if s.source == id then s.etag else []
    }

    /** Whether the reply leads to a new durable status. */
    predicate Takes(
        reply: Reply, id: Text, was: Status, cache: Cache<Archive>, artifacts: map<Revision, Archive>, c: Conditions)
    {
      match reply
      case Failure(_) => false
      case Same => Unchanged(was, id, Sent(was, id)) && c.Saves()
      case Bytes(archive, _) => ReachesDisk(archive, cache, artifacts, c)
    }

    /** That status. */
    ghost function Replied(reply: Reply, id: Text, was: Status, c: Conditions): Status {
      match reply
      case Failure(_) => was
      case Same => was.(refreshedAt := c.now, lastError := "")
      case Bytes(archive, etag) => Candidate(Activation(id, etag, Supplied), archive, was, c)
    }

    /** Ask the source; the entity tag is sent only to the source it came from. */
    method Refresh(from: Option<Text>, fetch: Text -> Reply, c: Conditions) returns (err: Option<string>)
      requires Valid()
      modifies this`active, this`booted, engine, dir`state, dir`artifacts, dir`run
      ensures Valid()
      ensures from.None? ==>
        && err == Some(INVALID_SOURCE) && dir.state == old(dir.state)
        && active == old(active).(lastError := INVALID_SOURCE)
      ensures from.Some? ==>
        var reply := fetch(Sent(old(active), from.value));
        var reached := Takes(reply, from.value, old(active), old(engine.State()), old(dir.artifacts), c);
        var next := Replied(reply, from.value, old(active), c);
        && Leaves(err, reached, next, old(active), old(dir.state), c)
        && Retains(reached, next, old(dir.state))
        && (reply.Failure? ==> err == Some(Recorded(reply.error)))
        && (reply.Same? && !Unchanged(old(active), from.value, Sent(old(active), from.value)) ==>
              err == Some(INVALID_RESPONSE))
        && dir.artifacts == Received(reply, old(engine.State()), old(dir.artifacts), c)
      ensures from.None? ==> dir.artifacts == old(dir.artifacts)
      ensures err.None? ==>
        && from.Some? && active.ready && active.source == from.value
        && active.refreshedAt == c.now && active.lastError == ""
    {
      hide Run, Honest;
      ghost var was, durable, cache, artifacts := active, dir.state, engine.State(), dir.artifacts;
      Take(Action.Refresh(from));
      if from.None? {
        active := active.(lastError := INVALID_SOURCE);
        return Some(INVALID_SOURCE);
      }
      hide Step, Validates;
      var sent := Sent(active, from.value);
      var reply := fetch(sent);
      ActiveReady();
      err := UseReply(from.value, sent, reply, c);
      FailureRetains(
        err, Takes(reply, from.value, was, cache, artifacts, c), Replied(reply, from.value, was, c), was, durable, c);
    }

    /** The artifacts after a reply. */
    function Received(reply: Reply, cache: Cache<Archive>, artifacts: map<Revision, Archive>, c: Conditions):
      map<Revision, Archive>
    {
      if reply.Bytes? && Validates(reply.archive, cache, c)
      then Kept(artifacts, env.seals(reply.archive).value, reply.archive, c) else artifacts
    }

    /** The rest of a refresh, with the reply in hand. */
    method UseReply(id: Text, sent: Text, reply: Reply, c: Conditions) returns (err: Option<string>)
      requires booted && At(Fetching(id, sent, active)) && sent == Sent(active, id)
      modifies this`active, this`booted, engine, dir`state, dir`artifacts, dir`run
      ensures Valid()
      ensures var reached := Takes(reply, id, old(active), old(engine.State()), old(dir.artifacts), c);
              Leaves(err, reached, Replied(reply, id, old(active), c), old(active), old(dir.state), c)
      ensures reply.Failure? ==> err == Some(Recorded(reply.error))
      ensures reply.Same? && !Unchanged(old(active), id, sent) ==> err == Some(INVALID_RESPONSE)
      ensures dir.artifacts == Received(reply, old(engine.State()), old(dir.artifacts), c)
    {
      hide Run, Honest;
      match reply
      case Failure(error) =>
        var code := RecordError(error);
        return Some(code);
      case Same =>
        err := KeepFresh(id, sent, c);
      case Bytes(archive, etag) =>
        Take(Content(archive, etag));
        err := ActivateBytes(Activation(id, etag, Supplied), archive, c);
    }

    /** The not-modified branch of a refresh. */
    method KeepFresh(id: Text, sent: Text, c: Conditions) returns (err: Option<string>)
      requires booted && At(Fetching(id, sent, active))
      modifies this`active, this`booted, dir`state, dir`run
      ensures Valid()
      ensures var reached := Unchanged(old(active), id, sent) && c.Saves();
              Leaves(err, reached, old(active).(refreshedAt := c.now, lastError := ""), old(active), old(dir.state), c)
      ensures !Unchanged(old(active), id, sent) ==> err == Some(INVALID_RESPONSE)
    {
      hide Run, Honest;
      Take(Action.NotModified(c.now));
      if !Unchanged(active, id, sent) {
        active := active.(lastError := INVALID_RESPONSE);
        return Some(INVALID_RESPONSE);
      }
      if c.cancelled.Some? {
        var code := RecordError(c.cancelled.value);
        return Some(code);
      }
      var next := active.(refreshedAt := c.now, lastError := "");
      ghost var origin := World().history.origin;
      var failed := Persist(next, origin, c);
      if failed.Some? {
        var code := RecordError(failed.value);
        return Some(code);
      }
      Publish(next, origin, c);
      return None;
    }

    /**
     The status as callers see it at a time: ready only while it is younger than the limit, not from the
     future, and the engine is open; a status that is no longer ready says that it is stale, unless an
     error is recorded.
     */
    method CurrentStatus(now: Clock) returns (s: Status)
      requires Valid()
      ensures s.ready <==>
        && active.ready && active.revision != "" && !engine.closed
        && active.refreshedAt <= now < active.refreshedAt + env.maxStaleness
      ensures var isStale := !s.ready && active.revision != "" && active.lastError == "";
              s.lastError == if isStale then "ng.policy.stale" else active.lastError
      ensures s == active.(ready := s.ready, lastError := s.lastError)
    {
      hide Run, Honest;
      s := active;
      var healthy, _ := engine.Health(false);
      var elapsed := now - s.refreshedAt;
      s := s.(ready := s.ready && s.revision != "" && elapsed >= 0 && elapsed < env.maxStaleness && healthy);
      if !s.ready && s.revision != "" && s.lastError == "" {
        s := s.(lastError := STALE);
      }
    }

    /** One reader, from its snapshot to its decision, or to the failure of its evaluation. */
    method Evaluate(now: Clock, failure: Option<Error>) returns (r: Result<Answer, Refusal>)
      requires Valid()
      ensures var serves := active.ready && active.revision != "" && !engine.closed &&
                            active.refreshedAt <= now < active.refreshedAt + env.maxStaleness;
              && (r == Err(NotReady) <==> !serves)
              && (r.Ok? <==> serves && failure.None?)
              && (serves && failure.Some? ==> r == Err(Failing(failure.value)))
      ensures r.Ok? ==>
        && r.value.revision == active.revision && active.revision in World().history.validated
        && env.seals(r.value.bundle) == Some(active.revision)
    {
      hide Run, Step, Honest;
      var s := CurrentStatus(now);
      if !s.ready {
        return Err(NotReady);
      }
      if failure.Some? {
        return Err(Failing(failure.value));
      }
      ActiveHeld(env, dir.run);
      var found := engine.Find(s.revision);
      return Ok(Lifecycle.Answer(s.revision, found.value));
    }

    // ----- Restart -----

    /** A revision whose artifact is intact is recovered: nothing fails and the engine has or takes it. */
    static predicate Succeeds(held: set<Revision>, closed: bool, r: Revision, c: Conditions) {
      c.Recovers() && !closed && (r in held || |held| < MAX_REVISIONS)
    }

    /** What the engine holds after the attempt. */
    static function Tried(held: set<Revision>, closed: bool, r: Revision, c: Conditions): set<Revision> {
      if c.open.None? && c.read.None? && c.compile.None? && !closed && |held| < MAX_REVISIONS then held + {r} else held
    }

    /** Open, read and validate the artifact of the target revision. */
    method Recover(goal: Goal, c: Conditions) returns (err: Option<Error>)
      requires goal.Recovery? && At(Opening(goal)) && Usable(goal.target)
      modifies engine, dir`run
      ensures err.None? <==> Succeeds(old(engine.revisions).Keys, old(engine.closed), goal.target, c)
      ensures if err.None? then Recovering(goal) else Validating(goal)
      ensures engine.closed == old(engine.closed)
      ensures engine.revisions.Keys == Tried(old(engine.revisions).Keys, old(engine.closed), goal.target, c)
    {
      hide Run, Step, Honest;
      if c.open.Some? {
        return Some(RECOVERY_FAILED);
      }
      OpenGoes(env, World(), goal, c.now);
      Take(Proceed(c.now));
      if c.read.Some? {
        return c.read;
      }
      err := Revalidate(goal, dir.artifacts[goal.target], c);
    }

    /** The recovered status is about to be written. */
    ghost predicate Recovering(goal: Goal)
      requires goal.Recovery?
      reads this, dir, engine
    {
      && Follows() && World().process.writer.Saving?
      && World().process.writer.next == Recovered(goal.state, goal.target, goal.fallback)
    }

    /** The bytes of the artifact are compiled and tested again. */
    method Revalidate(goal: Goal, archive: Archive, c: Conditions) returns (err: Option<Error>)
      requires goal.Recovery? && At(Reading(goal, archive)) && env.seals(archive) == Some(goal.target)
      requires env.compiles(goal.target) && env.passes(goal.target)
      modifies engine, dir`run
      ensures err.None? <==> Compiles(archive, old(engine.State()), c) && c.test.None?
      ensures if err.None? then Recovering(goal) else Validating(goal)
      ensures engine.State() == Compiled(archive, old(engine.State()), c)
    {
      hide Run, Step, Honest;
      var r := Compile(goal, archive, c);
      if r.Err? {
        return Some(r.error);
      }
      err := Test(goal, archive, r.value, c);
      if err.Some? {
        return;
      }
      PassTests(goal, archive, c.now);
    }

    ghost method PassTests(goal: Goal, archive: Archive, now: Clock)
      requires goal.Recovery? && At(Testing(goal, archive, goal.target))
      requires !engine.closed && env.passes(goal.target)
      modifies dir`run
      ensures Recovering(goal)
    {
      hide Run, Step, Honest;
      TestGoes(env, World(), goal, archive, goal.target, now);
      Take(Proceed(now));
    }

    /** The process is gone; the directory is where the run left it. */
    ghost predicate Abandoned()
      reads this, dir
    {
      World().process.Down? && World().disk == Disk(dir.state, dir.artifacts)
    }

    /** The recovered status is made durable before anyone can read it. */
    method Resume(next: Status, c: Conditions) returns (err: Option<Error>)
      requires !booted && Follows() && World().process.writer.Saving? && World().process.writer.next == next
      modifies this`active, this`booted, dir`state, dir`run
      ensures err.None? <==> c.stageState.None? && c.syncState.None?
      ensures dir.state == if c.stageState.Some? then old(dir.state) else Some(next)
      ensures if err.None? then Valid() && active == next else Abandoned()
    {
      hide Run, Honest;
      ghost var origin := World().process.writer.origin;
      err := Persist(next, origin, c);
      if err.Some? {
        Take(Fault(err.value));
        return;
      }
      Publish(next, origin, c);
    }

    /** The durable revision, or failing that the one before it, once. */
    method RecoverEither(s: Status, first: Conditions, second: Conditions) returns (r: Result<Status, Error>)
      requires !booted && At(Opening(Recovery(s, s.revision, false)))
      requires Usable(s.revision) && (s.previous != "" ==> Usable(s.previous))
      modifies engine, dir`run
      ensures Chosen(s, old(engine.revisions).Keys, old(engine.closed), first, second) ==
              if r.Ok? then Some(r.value) else None
      ensures if r.Ok? then Follows() && World().process.writer.Saving? && World().process.writer.next == r.value
              else Abandoned()
    {
      hide Run, Step, Honest;
      var goal := Recovery(s, s.revision, false);
      var err := Recover(goal, first);
      if err.None? {
        return Ok(Recovered(s, s.revision, false));
      }
      RecoveryFaultGoes(env, World(), goal, err.value);
      Take(Fault(err.value));
      if s.previous == "" {
        return Err(err.value);
      }
      goal := Recovery(s, s.previous, true);
      err := Recover(goal, second);
      if err.None? {
        return Ok(Recovered(s, s.previous, true));
      }
      RecoveryFaultGoes(env, World(), goal, err.value);
      Take(Fault(err.value));
      return Err(err.value);
    }

    /** The status a start settles on: the durable one, else its fallback, else none. */
    static function Chosen(
        s: Status, held: set<Revision>, closed: bool, first: Conditions, second: Conditions): Option<Status>
    {
      if Succeeds(held, closed, s.revision, first) then Some(Recovered(s, s.revision, false))
      else if s.previous != "" && Succeeds(Tried(held, closed, s.revision, first), closed, s.previous, second)
      then Some(Recovered(s, s.previous, true))
      else None
    }

    /** An engine that was used before is one that other compilations filled, or someone closed, since the start. */
    ghost method Preload()
      requires World().process.Up? && World().process.engine == Cache.New() && World().process.compilers == map[]
      requires CacheOk(env, engine.State())
      modifies dir`run
      ensures World() == old(World()).(process := old(World()).process.(engine := engine.State()))
    {
      hide Run, Step;
      var all := engine.revisions;
      assert all - all.Keys == map[];
      PreloadRest(all, all.Keys);
      if engine.closed {
        ClosesEmpty(env, World());
        Take(Action.Close);
      }
    }

    ghost method PreloadRest(all: map<Revision, Archive>, rest: set<Revision>)
      requires rest <= all.Keys && |all| <= MAX_REVISIONS
      requires forall r :: r in all ==> env.seals(all[r]) == Some(r) && env.compiles(r)
      requires World().process.Up? && World().process.compilers == map[]
      requires World().process.engine == Cache(all - rest, false)
      modifies dir`run
      ensures World() == old(World()).(process := old(World()).process.(engine := Cache(all, false)))
      decreases |rest|
    {
      hide Run, Step;
      if rest == {} {
        assert all - rest == all;
      } else {
        var r :| r in rest;
        OneMore(all, rest, r);
        LoadsOne(env, World(), all[r], r);
        Take(Action.Compile(0, all[r]));
        Take(Action.Insert(0));
        PreloadRest(all, rest - {r});
      }
    }

    /**
     Start over a directory that some run left behind, with an engine that may have been used. A
     state file that the decoder does not accept is refused as it is; otherwise the durable status,
     its texts cleaned, or its fallback is written again and becomes active.
     */
    static method NewManager(
        env: Environment, platform: Bundle.Platform, u: JsonText.Unicode, tm: TimeText,
        dir: Directory, engine: Engine<Archive>, first: Conditions, second: Conditions)
      returns (r: Result<Manager, string>)
      requires env.Lawful() && Honest(env, platform) && Faithful(env, u, tm)
      requires Run(env, dir.run).process.Down? && Run(env, dir.run).disk == Disk(dir.state, dir.artifacts)
      requires CacheOk(env, engine.State())
      modifies engine, dir`state, dir`run
      ensures r.Ok? ==>
        && fresh(r.value) && r.value.dir == dir && r.value.engine == engine && r.value.env == env
        && r.value.Valid()
      ensures r.Err? ==> Run(env, dir.run).process.Down? && Run(env, dir.run).disk == Disk(dir.state, dir.artifacts)
      ensures old(dir.state).None? ==> r.Ok? && r.value.active == NOTHING && dir.state.None?
      ensures old(dir.state).Some? && env.reload(old(dir.state).value).None? ==>
        r == Err(INVALID_STATE) && dir.state == old(dir.state)
      ensures old(dir.state).Some? && env.reload(old(dir.state).value).Some? ==>
        var s := Cleaned(old(dir.state).value);
        var chosen := Chosen(s, old(engine.revisions).Keys, old(engine.closed), first, second);
        && (r.Ok? <==> chosen.Some? && first.stageState.None? && first.syncState.None?)
        && dir.state == (if chosen.Some? && first.stageState.None? then chosen else old(dir.state))
        && (r.Ok? ==> Some(r.value.active) == chosen)
    {
      hide Run, Honest, Faithful, CacheOk;
      var m := new Manager(env, platform, dir, engine);
      ghost var run := dir.run;
      m.Take(Boot);
      if dir.state.None? {
        m.Preload();
        m.booted := true;
        return Ok(m);
      }
      StateUsable(env, run);
      var s := Reload(env, u, tm, dir.state.value);
      if s.None? {
        return Err(INVALID_STATE);
      }
      if !ValidState(s.value) {
        assert false;
      }
      m.Preload();
      var state := m.RecoverEither(s.value, first, second);
      if state.Err? {
        return Err(Recorded(state.error));
      }
      var err := m.Resume(state.value, first);
      if err.Some? {
        return Err(Recorded(err.value));
      }
      return Ok(m);
    }
  }

  lemma OneMore(all: map<Revision, Archive>, rest: set<Revision>, r: Revision)
    requires r in rest && rest <= all.Keys
    ensures r !in all - rest && |all - rest| < |all| && (all - rest)[r := all[r]] == all - (rest - {r})
  {
    Ordering.SubsetSize((all - rest).Keys + {r}, all.Keys);
  }

  /** One compilation beside the writer, from start to end. */
  lemma LoadsOne(e: Environment, w: World, archive: Archive, r: Revision)
    requires w.process.Up? && w.process.compilers == map[] && !w.process.engine.closed
    requires r !in w.process.engine.revisions && |w.process.engine.revisions| < MAX_REVISIONS
    requires e.seals(archive) == Some(r) && e.compiles(r)
    ensures Step(e, Step(e, w, Action.Compile(0, archive)), Action.Insert(0)) ==
            w.(process := w.process.(engine := Cache(w.process.engine.revisions[r := archive], false)))
  {
    var v := w.(process := w.process.(compilers := map[0 := archive]));
    assert w.process.compilers[0 := archive] == map[0 := archive];
    assert Step(e, w, Action.Compile(0, archive)) == v;
    InsertEnds(e, v, archive, r);
    hide Step;
  }

  lemma InsertEnds(e: Environment, v: World, archive: Archive, r: Revision)
    requires v.process.Up? && v.process.compilers == map[0 := archive] && !v.process.engine.closed
    requires |v.process.engine.revisions| < MAX_REVISIONS && e.seals(archive) == Some(r) && e.compiles(r)
    ensures Step(e, v, Action.Insert(0)) == v.(process := v.process.(
              compilers := map[], engine := Cache(v.process.engine.revisions[r := archive], false)))
  {
    assert v.process.compilers - {0} == map[];
  }

  lemma ClosesEmpty(e: Environment, w: World)
    requires w.process.Up?
    ensures Step(e, w, Action.Close) == w.(process := w.process.(engine := Cache(map[], true)))
  {
  }

  /** What a state file that is read back names can be recovered. */
  lemma StateUsable(e: Environment, run: seq<Action>)
    requires e.Lawful() && Run(e, run).disk.state.Some?
    ensures var w := Run(e, run);
            var s := Cleaned(w.disk.state.value);
            && w.disk.state.value.refreshedAt < CLOCK_END
            && (e.reload(w.disk.state.value).Some? ==>
                  && e.reload(w.disk.state.value) == Some(s) && ValidState(s)
                  && Recoverable(e, w, s.revision) && (s.previous != "" ==> Recoverable(e, w, s.previous)))
  {
    RunKeeps(e, run);
    var w := Run(e, run);
    if e.reload(w.disk.state.value).Some? {
      ReloadedOk(e, w.disk, w.history);
      RecoverablePart(e, w, Cleaned(w.disk.state.value));
    }
  }
}
