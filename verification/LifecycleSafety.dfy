/** What holds in every reachable world of the lifecycle, and from one world to a later one. */
module LifecycleSafety {
  import opened Wrappers
  import opened EngineCache
  import opened Lifecycle
  import opened LifecycleInvariant
  import Bundle

  // ----- Durability and restart -----

  /** A revision that a restart can use: its artifact seals to it, and it compiled and passed its tests. */
  ghost predicate Recoverable(e: Environment, w: World, r: Revision) {
    && r in w.disk.artifacts && e.seals(w.disk.artifacts[r]) == Some(r)
    && r in w.history.validated && e.compiles(r) && e.passes(r)
  }

  /** state.json always names a recoverable revision, and so does a non-empty previous revision in it. */
  lemma DurableIsRecoverable(e: Environment, run: seq<Action>)
    requires e.Lawful() && Run(e, run).disk.state.Some?
    ensures var s := Run(e, run).disk.state.value;
            && ValidState(s) && Recoverable(e, Run(e, run), s.revision)
            && (s.previous != "" ==> Recoverable(e, Run(e, run), s.previous))
  {
    RunKeeps(e, run);
  }

  /** The writer proceeds n times without a fault. */
  function Proceeds(e: Environment, w: World, now: Clock, n: nat): World
    decreases n
  {
    if n == 0 then w else Proceeds(e, Step(e, w, Proceed(now)), now, n - 1)
  }

  /** The steps of one recovery from the opened state to the published one. */
  lemma RecoverySteps(e: Environment, w: World, goal: Goal, now: Clock)
    requires w.process.Up? && w.process.writer == Opening(goal) && goal.Recovery?
    requires w.process.engine == Cache.New()
    requires Recoverable(e, w, goal.target)
    ensures var v := Proceeds(e, w, now, 7);
            var next := Recovered(goal.state, goal.target, goal.fallback);
            && v.process.Up? && v.process.booted && v.process.writer.Idle?
            && v.process.active == next && v.disk == w.disk.(state := Some(next))
  {
    var r, archive := goal.target, w.disk.artifacts[goal.target];
    var w1 := Step(e, w, Proceed(now));
    assert w1.process.writer == Reading(goal, archive);
    var w2 := Step(e, w1, Proceed(now));
    assert w2.process.writer == Compiling(goal, archive, r);
    var w3 := Step(e, w2, Proceed(now));
    assert w3.process.writer == Testing(goal, archive, r);
    var w4 := Step(e, w3, Proceed(now));
    assert w4.process.writer.Saving?;
    SavingSteps(e, w4, now);
    assert Proceeds(e, w, now, 7) == Proceeds(e, w1, now, 6) == Proceeds(e, w2, now, 5);
    assert Proceeds(e, w2, now, 5) == Proceeds(e, w3, now, 4) == Proceeds(e, w4, now, 3);
  }

  lemma SavingSteps(e: Environment, w: World, now: Clock)
    requires w.process.Up? && w.process.writer.Saving?
    ensures var v := Proceeds(e, w, now, 3);
            && v.process.Up? && v.process.booted && v.process.writer.Idle?
            && v.process.active == w.process.writer.next
            && v.disk == w.disk.(state := Some(w.process.writer.next))
  {
    FlushingSteps(e, Step(e, w, Proceed(now)), now);
    assert Proceeds(e, w, now, 3) == Proceeds(e, Step(e, w, Proceed(now)), now, 2);
  }

  lemma {:induction false} DownStaysDown(e: Environment, w: World, now: Clock, n: nat)
    requires w.process.Down?
    ensures Proceeds(e, w, now, n) == w
    decreases n
  {
    if n > 0 {
      DownStaysDown(e, w, now, n - 1);
    }
  }

  /** A crash, and a restart without faults. */
  ghost function Restarted(e: Environment, w: World, now: Clock): World {
    Proceeds(e, Step(e, Step(e, w, Crash), Boot), now, 7)
  }

  /** What a restart without faults comes to is decided by reading state.json back. */
  lemma RestartOutcome(e: Environment, w: World, now: Clock)
    requires e.Lawful() && Inv(e, w) && w.disk.state.Some?
    ensures match e.reload(w.disk.state.value)
            case None => Restarted(e, w, now) == w.(process := Down)
            case Some(s) =>
              && s == Cleaned(w.disk.state.value)
              && Restarted(e, w, now).process.Up? && Restarted(e, w, now).process.booted
              && Restarted(e, w, now).process.writer.Idle?
              && Restarted(e, w, now).process.active == s
              && Restarted(e, w, now).disk == w.disk.(state := Some(s))
  {
    var down := w.(process := Down);
    var b := BootUp(e, down);
    assert Step(e, Step(e, w, Crash), Boot) == b;
    if e.reload(w.disk.state.value).None? {
      DownStaysDown(e, down, now, 7);
    } else {
      ReloadedOk(e, w.disk, w.history);
      var s := Cleaned(w.disk.state.value);
      RecoverablePart(e, w, s);
      RecoverySteps(e, b, Recovery(s, s.revision, false), now);
    }
  }

  lemma RecoverablePart(e: Environment, w: World, s: Status)
    requires DiskOk(e, w.disk, w.history) && RecoveryOk(e, w.disk, w.history, s)
    ensures ValidState(s) && s.ready && Recoverable(e, w, s.revision)
    ensures s.previous != "" ==> Recoverable(e, w, s.previous)
  {
    hide Bundle.IsDigest, Follows, Traced, LogOk;
  }

  /**
   Crash anywhere and start again without faults. If state.json is accepted, the durable status
   comes back, revision, previous revision and refresh time as they were and both texts with
   what is not UTF-8 replaced; otherwise there is no process, and the disk is as it was.
   */
  lemma RestartRecovers(e: Environment, run: seq<Action>, now: Clock)
    requires e.Lawful() && Run(e, run).disk.state.Some?
    ensures var w := Run(e, run);
            match e.reload(w.disk.state.value)
            case None => Restarted(e, w, now) == w.(process := Down)
            case Some(s) =>
              && s == Cleaned(w.disk.state.value)
              && Restarted(e, w, now).process.Up? && Restarted(e, w, now).process.booted
              && Restarted(e, w, now).process.writer.Idle?
              && Restarted(e, w, now).process.active == s
              && Restarted(e, w, now).disk == w.disk.(state := Some(s))
  {
    RunKeeps(e, run);
    hide Run, Inv, Restarted;
    RestartOutcome(e, Run(e, run), now);
  }

  /**
   If state.json is accepted, one failure to recover the durable revision brings the previous
   one back, without its entity tag, and that status will be accepted again.
   */
  lemma RestartFallsBack(e: Environment, run: seq<Action>, error: Error, now: Clock)
    requires e.Lawful() && Run(e, run).disk.state.Some? && Run(e, run).disk.state.value.previous != ""
    ensures var w := Run(e, run);
            var s := Cleaned(w.disk.state.value);
            var v := Proceeds(e, Step(e, Step(e, Step(e, w, Crash), Boot), Fault(error)), now, 7);
            if e.reload(w.disk.state.value).None? then v == w.(process := Down)
            else
              && v.process.Up? && v.process.booted
              && v.process.active ==
                 s.(revision := s.previous, previous := "", etag := [], lastError := RECOVERED_PREVIOUS)
              && v.disk.state == Some(v.process.active) && e.reload(v.process.active).Some?
  {
    var w := Run(e, run);
    RunKeeps(e, run);
    var down := w.(process := Down);
    var b := BootUp(e, down);
    assert Step(e, Step(e, w, Crash), Boot) == b;
    if e.reload(w.disk.state.value).None? {
      DownStaysDown(e, down, now, 7);
    } else {
      ReloadedOk(e, w.disk, w.history);
      var s := Cleaned(w.disk.state.value);
      RecoverablePart(e, w, s);
      hide Inv, Run, DiskOk;
      assert b.process.writer == Opening(Recovery(s, s.revision, false));
      var f := Step(e, b, Fault(error));
      RecoverySteps(e, f, Recovery(s, s.previous, true), now);
    }
  }

  /** A restart is refused as invalid state exactly when state.json is not accepted. */
  lemma RestartRefusedExactly(e: Environment, run: seq<Action>)
    requires e.Lawful()
    ensures var w := Run(e, run);
            Step(e, Step(e, w, Crash), Boot).process.Up? <==>
            w.disk.state.None? || e.reload(w.disk.state.value).Some?
  {
    RunKeeps(e, run);
    var w := Run(e, run);
    hide Run, Inv;
    CrashStep(e, w);
    BootStep(e, w.(process := Down));
  }

  /**
   Which texts can be in state.json: those of one call or reply, as given or as a restart has
   cleaned them, or else those of a rollback or fallback, which are always accepted.
   */
  lemma DurableTexts(e: Environment, run: seq<Action>)
    requires e.Lawful() && Run(e, run).disk.state.Some?
    ensures var w := Run(e, run);
            var s := w.disk.state.value;
            && Writable(s)
            && if w.history.durableOrigin == Supplied then
                 exists given: Supply, i ::
                   && SuppliedAs(s.source, s.etag, given) && e.seals(given.archive) == Some(s.revision)
                   && 0 <= i < |run| && SuppliedAt(e, run, i, given)
               else e.reload(s).Some?
  {
    RunKeeps(e, run);
    var w := Run(e, run);
    var s := w.disk.state.value;
    if w.history.durableOrigin == Supplied {
      var given :| given in w.history.supplied && SuppliedAs(s.source, s.etag, given) &&
                   e.seals(given.archive) == Some(s.revision);
      SuppliedMeans(e, run, given);
    }
  }

  // ----- Durable against active -----

  /**
   The durable status names the active revision as its own or as its previous one. It is the
   active status, but for the recorded error, unless a rename has not been published yet.
   */
  lemma DurableCoversActive(e: Environment, run: seq<Action>)
    requires e.Lawful() && Run(e, run).process.Up? && Run(e, run).process.booted
    requires Run(e, run).process.active.revision != ""
    ensures var w := Run(e, run);
            var active := w.process.active;
            && w.disk.state.Some? && active.revision in {w.disk.state.value.revision, w.disk.state.value.previous}
            && Recoverable(e, w, active.revision)
            && (w.history.synced ==> w.disk.state.value == active.(lastError := w.disk.state.value.lastError))
  {
    RunKeeps(e, run);
  }

  /** Disk and memory hold the same status, up to the recorded error. */
  ghost predicate Agrees(disk: Disk, s: Status) {
    disk.state.Some? && disk.state.value.(lastError := s.lastError) == s
  }

  ghost predicate InOperation(w: World) {
    w.process.Up? && w.process.booted && !w.process.writer.Idle? && !w.process.writer.Publishing?
  }

  /**
   Disk and memory before and after every action: the rename of state.json makes them agree iff
   it writes the active status again, a publication makes them agree, and nothing else matters.
   */
  lemma PartAndMeet(e: Environment, run: seq<Action>, a: Action)
    requires e.Lawful() && Run(e, run).process.Up? && Step(e, Run(e, run), a).process.Up?
    ensures var w := Run(e, run);
            var v := Step(e, w, a);
            var writer := w.process.writer;
            if a.Proceed? && writer.Saving? then
              Agrees(v.disk, v.process.active) <==>
              writer.next.(lastError := w.process.active.lastError) == w.process.active
            else if a.Proceed? && writer.Publishing? then Agrees(v.disk, v.process.active)
            else Agrees(v.disk, v.process.active) <==> Agrees(w.disk, w.process.active)
  {
    var w := Run(e, run);
    if a.Proceed? && w.process.writer.Publishing? {
      PublishesDurable(e, run);
    } else {
      StepMemory(e, w, a);
      StateKept(e, w, a);
      hide Step, Run;
    }
  }

  lemma StateKept(e: Environment, w: World, a: Action)
    requires w.process.Up?
    ensures Step(e, w, a).disk.state ==
            if a.Proceed? && w.process.writer.Saving? then Some(w.process.writer.next) else w.disk.state
  {
  }

  /**
   When a failed operation retains the active revision: after the failure disk and memory agree
   iff they agreed before, or, if state.json was already renamed, iff it was the same status.
   */
  lemma FailureAgrees(e: Environment, run: seq<Action>, error: Error)
    requires e.Lawful() && InOperation(Run(e, run))
    ensures var w := Run(e, run);
            var v := Step(e, w, Fault(error));
            && v.process.Up? && v.disk == w.disk
            && v.process.active == w.process.active.(lastError := Recorded(error))
            && (Agrees(v.disk, v.process.active) <==>
                if w.process.writer.Flushing?
                then w.process.writer.next.(lastError := w.process.active.lastError) == w.process.active
                else Agrees(w.disk, w.process.active))
  {
    RunKeeps(e, run);
  }

  /** And when a restart after the failure makes a given revision active again. */
  lemma FailureRestarts(e: Environment, run: seq<Action>, error: Error, now: Clock, r: Revision)
    requires e.Lawful() && InOperation(Run(e, run)) && Run(e, run).disk.state.Some?
    ensures var w := Run(e, run);
            var s := if w.process.writer.Flushing? then w.process.writer.next else w.disk.state.value;
            RestartsWith(e, Step(e, w, Fault(error)), now, r) <==> e.reload(s).Some? && s.revision == r
  {
    hide Run, Inv, Step, Restarted, Environment.Lawful;
    RunKeeps(e, run);
    var w := Run(e, run);
    StepKeeps(e, w, Fault(error));
    StateKept(e, w, Fault(error));
    if w.process.writer.Flushing? { FlushedDurable(e, w); }
    RestartOutcome(e, Step(e, w, Fault(error)), now);
  }

  lemma FlushedDurable(e: Environment, w: World)
    requires Inv(e, w) && w.process.Up? && w.process.writer.Flushing?
    ensures w.disk.state == Some(w.process.writer.next)
  {
  }

  /** A crash and a restart without faults make the revision active. */
  ghost predicate RestartsWith(e: Environment, w: World, now: Clock, r: Revision) {
    var v := Restarted(e, w, now);
    v.process.Up? && v.process.booted && v.process.active.revision == r
  }

  /** A failure reported after the rename leaves the durable status ahead of the active one. */
  lemma FailureAfterRename(e: Environment, run: seq<Action>, error: Error)
    requires e.Lawful()
    requires var p := Run(e, run).process; p.Up? && p.booted && p.writer.Flushing?
    ensures var w := Run(e, run);
            var v := Step(e, w, Fault(error));
            && v.process.Up? && v.process.writer.Idle?
            && v.disk.state == Some(w.process.writer.next)
            && v.process.active == w.process.active.(lastError := Recorded(error))
            && v.history.log == w.history.log
  {
    RunKeeps(e, run);
  }

  /** From the bytes in hand to the validated status. */
  lemma ValidationSteps(e: Environment, w: World, goal: Goal, a: Archive, r: Revision, now: Clock)
    requires e.seals(a) == Some(r) && e.compiles(r) && e.passes(r) && goal.Activation?
    requires w.process.Up? && w.process.writer == Reading(goal, a)
    requires !w.process.engine.closed && r !in w.process.engine.revisions
    requires |w.process.engine.revisions| < MAX_REVISIONS
    ensures Proceeds(e, w, now, 7) == Proceeds(
              e, Staged(w, Activated(w.process.active, r, goal.source, goal.etag, now), goal.origin, a), now, 4)
  {
    var w1 := Step(e, w, Proceed(now));
    assert w1.process.writer.Compiling?;
    var w2 := Step(e, w1, Proceed(now));
    assert w2.process.writer.Testing?;
    var w3 := Step(e, w2, Proceed(now));
    assert Proceeds(e, w, now, 7) == Proceeds(e, w1, now, 6) == Proceeds(e, w2, now, 5) == Proceeds(e, w3, now, 4);
  }

  /** The world in which a new revision has been compiled and validated. */
  function Staged(w: World, next: Status, origin: Origin, a: Archive): World
    requires w.process.Up?
  {
    w.(process := w.process.(engine := Cache(w.process.engine.revisions[next.revision := a], false),
                             writer := Storing(next, a, origin)),
       history := w.history.(validated := w.history.validated + {next.revision}))
  }

  /** From the validated status to the unsynced directory. */
  lemma StoringSteps(e: Environment, w: World, next: Status, a: Archive, origin: Origin, now: Clock)
    requires w.process.Up? && w.process.writer == Storing(next, a, origin) && next.revision !in w.disk.artifacts
    ensures var v := Proceeds(e, w, now, 4);
            && v.process == w.process.(writer := Flushing(next, origin))
            && v.disk == Disk(Some(next), w.disk.artifacts[next.revision := a])
  {
    var w1 := Step(e, w, Proceed(now));
    assert w1.process.writer.Writing?;
    var w2 := Step(e, w1, Proceed(now));
    var w3 := Step(e, w2, Proceed(now));
    assert w3.process.writer.Saving?;
    var w4 := Step(e, w3, Proceed(now));
    assert Proceeds(e, w, now, 4) == Proceeds(e, w1, now, 3) == Proceeds(e, w2, now, 2);
    assert Proceeds(e, w2, now, 2) == Proceeds(e, w3, now, 1) == Proceeds(e, w4, now, 0);
  }

  /** The steps of an activation that has been validated, up to the directory sync of state.json. */
  lemma ActivationSteps(e: Environment, w: World, goal: Goal, a: Archive, r: Revision, now: Clock)
    requires e.seals(a) == Some(r) && e.compiles(r) && e.passes(r) && goal.Activation?
    requires w.process.Up? && w.process.booted && w.process.writer == Reading(goal, a)
    requires !w.process.engine.closed && r !in w.process.engine.revisions
    requires |w.process.engine.revisions| < MAX_REVISIONS
    requires r !in w.disk.artifacts
    ensures var v := Proceeds(e, w, now, 7);
            && v.process.Up? && v.process.booted && v.process.writer.Flushing?
            && v.process.writer.next == Activated(w.process.active, r, goal.source, goal.etag, now)
            && v.disk.artifacts == w.disk.artifacts[r := a]
            && v.process.engine == Cache(w.process.engine.revisions[r := a], false)
            && v.process.active == w.process.active
            && v.disk.state == Some(v.process.writer.next)
  {
    hide Step, Proceeds;
    var next := Activated(w.process.active, r, goal.source, goal.etag, now);
    ValidationSteps(e, w, goal, a, r, now);
    StoringSteps(e, Staged(w, next, goal.origin, a), next, a, goal.origin, now);
  }

  /** A first bundle is active, and nothing else is known to the process. */
  ghost predicate FirstActive(w: World, a: Archive, r: Revision) {
    && w.process.Up? && w.process.booted && w.process.writer.Idle? && w.process.active.revision == r
    && w.disk.artifacts == map[r := a] && w.process.engine == Cache(map[r := a], false)
  }

  lemma FlushingSteps(e: Environment, w: World, now: Clock)
    requires w.process.Up? && w.process.writer.Flushing?
    ensures Proceeds(e, w, now, 2) == Publish(w, w.process.writer.next, w.process.writer.origin)
  {
    var publishing := Step(e, w, Proceed(now));
    assert Proceeds(e, w, now, 2) == Proceeds(e, publishing, now, 1);
    assert Proceeds(e, publishing, now, 1) == Proceeds(e, Step(e, publishing, Proceed(now)), now, 0);
  }

  /** The world in which the first operation of a new directory has the bytes in hand. */
  function Begun(a: Archive, source: Text, etag: Text): World {
    World(
      Disk(None, map[]),
      Up(true, NOTHING, Cache.New(), Reading(Activation(source, etag, Supplied), a), map[], map[]),
      History([], {}, {Supply(source, etag, a)}, Supplied, Supplied, true))
  }

  lemma BeginsFirst(e: Environment, a: Archive, source: Text, etag: Text)
    ensures Run(e, [Boot, Activate(a, source, etag)]) == Begun(a, source, etag)
  {
    assert [Boot, Activate(a, source, etag)][..1] == [Boot] && [Boot][..0] == [];
    assert Run(e, [Boot]) == BootUp(e, START);
  }

  lemma FirstActivation(
      e: Environment, w: World, a: Archive, source: Text, etag: Text, r: Revision, now: Clock)
    requires e.seals(a) == Some(r) && e.compiles(r) && e.passes(r)
    requires w == Begun(a, source, etag)
    ensures var v := Proceeds(e, Proceeds(e, w, now, 7), now, 2);
            && FirstActive(v, a, r) && v.disk.state == Some(v.process.active)
            && v.process.active == Activated(NOTHING, r, source, etag, now)
  {
    ActivationSteps(e, w, Activation(source, etag, Supplied), a, r, now);
    FlushingSteps(e, Proceeds(e, w, now, 7), now);
  }

  /** The first bundle of a new directory, activated with a source and a tag. */
  lemma FirstRun(e: Environment, a: Archive, source: Text, etag: Text, r: Revision, now: Clock)
    returns (run: seq<Action>)
    requires e.seals(a) == Some(r) && e.compiles(r) && e.passes(r)
    ensures var w := Run(e, run);
            && FirstActive(w, a, r) && w.disk.state == Some(w.process.active)
            && w.process.active == Activated(NOTHING, r, source, etag, now)
  {
    hide Run, Step, Begun, Proceeds, FirstActive;
    var start := [Boot, Activate(a, source, etag)];
    BeginsFirst(e, a, source, etag);
    ProceedsRuns(e, start, now, 7);
    ProceedsRuns(e, start + Success(now, 7), now, 2);
    FirstActivation(e, Begun(a, source, etag), a, source, etag, r, now);
    run := start + Success(now, 7) + Success(now, 2);
  }

  /** The durable status carries neither source nor tag. */
  ghost predicate Textless(w: World) {
    w.disk.state.Some? && w.disk.state.value.source == [] && w.disk.state.value.etag == []
  }

  /** Revision r is active while q is durable. */
  ghost predicate Apart(w: World, r: Revision, q: Revision) {
    && w.process.Up? && w.process.active.revision == r
    && w.disk.state.Some? && w.disk.state.value.revision == q
  }

  lemma SecondFailsLate(
      e: Environment, w: World, a: Archive, r: Revision, b: Archive, q: Revision, error: Error, now: Clock)
    requires FirstActive(w, a, r) && r != q
    requires e.seals(b) == Some(q) && e.compiles(q) && e.passes(q)
    ensures var v := Step(e, Proceeds(e, Step(e, w, Activate(b, [], [])), now, 7), Fault(error));
            Apart(v, r, q) && Textless(v)
  {
    var begun := Step(e, w, Activate(b, [], []));
    assert begun.process.writer == Reading(Activation([], [], Supplied), b);
    ActivationSteps(e, begun, Activation([], [], Supplied), b, q, now);
  }

  /** Proceeding without a fault, as part of a run. */
  function Success(now: Clock, n: nat): seq<Action> {
    seq(n, _ => Proceed(now))
  }

  lemma {:induction false} ProceedsRuns(e: Environment, run: seq<Action>, now: Clock, n: nat)
    ensures Proceeds(e, Run(e, run), now, n) == Run(e, run + Success(now, n))
    decreases n
  {
    if n == 0 {
      assert run + Success(now, 0) == run;
    } else {
      assert (run + [Proceed(now)])[..|run|] == run;
      ProceedsRuns(e, run + [Proceed(now)], now, n - 1);
      assert run + [Proceed(now)] + Success(now, n - 1) == run + Success(now, n);
    }
  }

  /**
   So durable and active may differ: activate one bundle, then let the directory sync of
   the next activation fail.
   */
  lemma DurableMayRunAhead(e: Environment, a: Archive, b: Archive, r: Revision, q: Revision, error: Error, now: Clock)
    requires e.seals(a) == Some(r) && e.compiles(r) && e.passes(r)
    requires e.seals(b) == Some(q) && e.compiles(q) && e.passes(q)
    requires r != q
    ensures exists run :: Apart(Run(e, run), r, q) && Textless(Run(e, run))
  {
    hide Run, Step, Begun, Proceeds, FirstActive, Apart, Textless;
    var first := FirstRun(e, a, [], [], r, now);
    SecondFailsLate(e, Run(e, first), a, r, b, q, error, now);
    var second := first + [Activate(b, [], [])];
    RunSnoc(e, first, Activate(b, [], []));
    ProceedsRuns(e, second, now, 7);
    RunSnoc(e, second + Success(now, 7), Fault(error));
    var run := second + Success(now, 7) + [Fault(error)];
    assert Apart(Run(e, run), r, q) && Textless(Run(e, run));
  }

  lemma RunSnoc(e: Environment, run: seq<Action>, a: Action)
    ensures Run(e, run + [a]) == Step(e, Run(e, run), a)
  {
    hide Step;
    assert (run + [a])[..|run|] == run;
  }

  /** Then a restart makes the revision active whose activation was reported as failed. */
  lemma FailedCandidateReturns(
      e: Environment, a: Archive, b: Archive, r: Revision, q: Revision, error: Error, now: Clock)
    requires e.Lawful() && r != q
    requires e.seals(a) == Some(r) && e.compiles(r) && e.passes(r)
    requires e.seals(b) == Some(q) && e.compiles(q) && e.passes(q)
    ensures exists run :: Apart(Run(e, run), r, q) && RestartsWith(e, Run(e, run), now, q)
  {
    DurableMayRunAhead(e, a, b, r, q, error, now);
    var run :| Apart(Run(e, run), r, q) && Textless(Run(e, run));
    DurableTexts(e, run);
    assert e.Reloads(Run(e, run).disk.state.value);
    RestartRecovers(e, run, now);
    hide Step, Run;
    assert RestartsWith(e, Run(e, run), now, q);
  }

  // ----- Artifacts -----

  lemma {:induction false} RunSplit(e: Environment, run: seq<Action>, more: seq<Action>, a: Action)
    ensures Run(e, run + (more + [a])) == Step(e, Run(e, run + more), a)
    ensures Run(e, run + []) == Run(e, run)
  {
    assert (run + (more + [a]))[..|run| + |more|] == run + more;
    assert run + [] == run;
  }

  ghost predicate SomeCrash(run: seq<Action>) {
    exists i :: 0 <= i < |run| && run[i].Crash?
  }

  /** Only a file that is absent is written. */
  lemma WritesAbsent(e: Environment, run: seq<Action>)
    requires e.Lawful()
    requires var p := Run(e, run).process; p.Up? && p.writer.Writing?
    ensures Run(e, run).process.writer.next.revision !in Run(e, run).disk.artifacts
  {
    RunKeeps(e, run);
  }

  lemma ArtifactStep(e: Environment, run: seq<Action>, a: Action, r: Revision)
    requires e.Lawful() && r in Run(e, run).disk.artifacts
    ensures r in Step(e, Run(e, run), a).disk.artifacts
    ensures Step(e, Run(e, run), a).disk.artifacts[r] == Run(e, run).disk.artifacts[r]
  {
    var w := Run(e, run);
    if w.process.Up? && w.process.writer.Writing? {
      WritesAbsent(e, run);
    }
  }

  /** An artifact, once renamed into place, is never replaced or removed. */
  lemma {:induction false} ArtifactsNeverChange(e: Environment, run: seq<Action>, more: seq<Action>, r: Revision)
    requires e.Lawful() && r in Run(e, run).disk.artifacts
    ensures r in Run(e, run + more).disk.artifacts
    ensures Run(e, run + more).disk.artifacts[r] == Run(e, run).disk.artifacts[r]
    decreases |more|
  {
    if more == [] {
      assert run + more == run;
    } else {
      var most, a := more[..|more| - 1], more[|more| - 1];
      assert more == most + [a];
      ArtifactsNeverChange(e, run, most, r);
      ArtifactStep(e, run + most, a, r);
      RunSplit(e, run, most, a);
    }
  }

  // ----- What the operations change in memory -----

  /** The active status is the same but for the recorded error, and nothing was published. */
  ghost predicate SameMemory(w: World, v: World) {
    w.process.Up? && v.process.Up? ==>
      && v.process.active == w.process.active.(lastError := v.process.active.lastError)
      && v.history.log == w.history.log && v.history.origin == w.history.origin
  }

  lemma AdvanceMemory(e: Environment, w: World, now: Clock)
    requires w.process.Up? && !w.process.writer.Publishing?
    ensures SameMemory(w, Advance(e, w, now))
  {
  }

  lemma BeginMemory(w: World, a: Action)
    requires w.process.Up?
    ensures SameMemory(w, Begin(w, a))
  {
  }

  lemma BesideMemory(e: Environment, w: World, a: Action)
    requires w.process.Up?
    ensures SameMemory(w, Beside(e, w, a))
  {
  }

  lemma StepMemory(e: Environment, w: World, a: Action)
    requires w.process.Up? && !(a.Proceed? && w.process.writer.Publishing?)
    ensures SameMemory(w, Step(e, w, a))
  {
    match a
    case Proceed(now) => AdvanceMemory(e, w, now);
    case Fault(error) =>
    case _ =>
      if Starts(a) {
        BeginMemory(w, a);
      } else if !a.Boot? && !a.Crash? {
        BesideMemory(e, w, a);
      }
  }

  /** What is being published is durable. */
  lemma PublishesDurable(e: Environment, run: seq<Action>)
    requires e.Lawful()
    requires var p := Run(e, run).process; p.Up? && p.writer.Publishing?
    ensures Run(e, run).disk.state == Some(Run(e, run).process.writer.next)
  {
    RunKeeps(e, run);
  }

  /**
   The active status changes, but for the recorded error, only when a writer publishes the
   status that is already durable; the log of published revisions grows at the same step.
   */
  lemma ChangesOnlyByPublishing(e: Environment, run: seq<Action>, a: Action)
    requires e.Lawful() && Run(e, run).process.Up? && Step(e, Run(e, run), a).process.Up?
    ensures var w := Run(e, run);
            var v := Step(e, w, a);
            if a.Proceed? && w.process.writer.Publishing? then
              && v.process.active == w.process.writer.next && v.disk.state == Some(v.process.active)
              && v.history.log == Extend(w.history.log, v.process.active.revision)
            else
              SameMemory(w, v)
  {
    if a.Proceed? && Run(e, run).process.writer.Publishing? {
      PublishesDurable(e, run);
    } else {
      StepMemory(e, Run(e, run), a);
    }
  }

  lemma ActiveGood(e: Environment, run: seq<Action>)
    requires e.Lawful() && Run(e, run).process.Up? && Run(e, run).process.booted
    ensures var w := Run(e, run); ActiveOk(e, w.disk, w.history, w.process.engine, w.process.active)
  {
    RunKeeps(e, run);
  }

  /** The previous revision is empty, or was published immediately before the active one. */
  ghost predicate PreviousPublished(active: Status, log: seq<Revision>) {
    && (active.revision != "" ==> Last(log, active.revision))
    && (active.previous != "" ==>
          active.previous != active.revision && |log| >= 2 && log[|log| - 2] == active.previous)
  }

  lemma PreviousWasActive(e: Environment, run: seq<Action>)
    requires e.Lawful() && Run(e, run).process.Up? && Run(e, run).process.booted
    ensures PreviousPublished(Run(e, run).process.active, Run(e, run).history.log)
  {
    ActiveGood(e, run);
    PreviousOf(e, Run(e, run));
    hide Run, ActiveOk;
  }

  lemma PreviousOf(e: Environment, w: World)
    requires w.process.Up? && ActiveOk(e, w.disk, w.history, w.process.engine, w.process.active)
    ensures PreviousPublished(w.process.active, w.history.log)
  {
  }

  // ----- Entity tags -----

  /** How bytes came to be supplied: by an activation, or as the reply of the source that was asked. */
  ghost predicate SuppliedAt(e: Environment, run: seq<Action>, i: nat, s: Supply)
    requires i < |run|
  {
    || run[i] == Activate(s.archive, s.source, s.etag)
    || (run[i] == Content(s.archive, s.etag) &&
        var p := Run(e, run[..i]).process;
        p.Up? && p.writer.Fetching? && p.writer.id == s.source)
  }

  /** The record of supplied bytes is truthful. */
  lemma {:induction false} SuppliedMeans(e: Environment, run: seq<Action>, s: Supply)
    requires s in Run(e, run).history.supplied
    ensures exists i :: 0 <= i < |run| && SuppliedAt(e, run, i, s)
  {
    var most, a := run[..|run| - 1], run[|run| - 1];
    var w := Run(e, most);
    if s in w.history.supplied {
      SuppliedMeans(e, most, s);
      var i :| 0 <= i < |most| && SuppliedAt(e, most, i, s);
      assert run[..i] == most[..i];
      assert SuppliedAt(e, run, i, s);
    } else {
      assert SuppliedAt(e, run, |run| - 1, s);
    }
  }

  /**
   A non-empty entity tag was supplied, with the active source and the very bytes that seal to
   the active revision; a restart may have replaced what is not UTF-8 in both.
   */
  lemma EtagTraced(e: Environment, run: seq<Action>)
    requires e.Lawful() && Run(e, run).process.Up? && Run(e, run).process.booted
    requires Run(e, run).process.active.revision != "" && Run(e, run).process.active.etag != []
    ensures var active := Run(e, run).process.active;
            exists given: Supply, i ::
              && SuppliedAs(active.source, active.etag, given) && e.seals(given.archive) == Some(active.revision)
              && 0 <= i < |run| && SuppliedAt(e, run, i, given)
  {
    RunKeeps(e, run);
    var w := Run(e, run);
    var active := w.process.active;
    var given :| given in w.history.supplied && SuppliedAs(active.source, active.etag, given) &&
                 e.seals(given.archive) == Some(active.revision);
    SuppliedMeans(e, run, given);
  }

  /**
   A not-modified answer is accepted only for the source and tag that were supplied with the
   bytes of the active revision, and then extends its freshness alone; after a rollback or a
   fallback it is refused.
   */
  lemma NotModifiedAnswers(e: Environment, run: seq<Action>, now: Clock)
    requires e.Lawful()
    requires var p := Run(e, run).process; p.Up? && p.writer.Fetching?
    ensures var w := Run(e, run);
            var v := Step(e, w, NotModified(now));
            var active := w.process.active;
            if v.process.writer.Saving? then
              && v.process.writer.next == active.(refreshedAt := now, lastError := "")
              && w.history.origin == Supplied && active.revision != ""
              && Provided(e, w.history.supplied, w.process.writer.id, w.process.writer.sent, active.revision)
            else
              v == RecordError(w, INVALID_RESPONSE)
  {
    RunKeeps(e, run);
    hide Run, DiskOk, Provided;
  }

  /**
   A source that is asked is sent the active tag if it is the active source and nothing otherwise; a tag that is
   sent was supplied for this very source with bytes that seal to the active revision.
   */
  lemma TagSentHome(e: Environment, run: seq<Action>)
    requires e.Lawful()
    requires var p := Run(e, run).process; p.Up? && p.writer.Fetching?
    ensures var p := Run(e, run).process;
            && p.writer.sent == (if p.active.source == p.writer.id then p.active.etag else [])
            && (p.writer.sent != [] ==>
                  exists given :: given in Run(e, run).history.supplied
                    && SuppliedAs(p.writer.id, p.writer.sent, given)
                    && e.seals(given.archive) == Some(p.active.revision))
  {
    RunKeeps(e, run);
    hide Run, DiskOk, ReadersOk, CacheOk;
  }

  lemma OriginKept(e: Environment, w: World, a: Action)
    requires Step(e, w, a).process.Down?
    ensures Step(e, w, a).history.origin == w.history.origin
  {
  }

  /** After a rollback or a fallback recovery only a publication of another origin admits such an answer again. */
  lemma OriginStep(e: Environment, run: seq<Action>, a: Action)
    requires e.Lawful() && Run(e, run).process.Up? && Run(e, run).history.origin != Supplied
    requires Step(e, Run(e, run), a).history.origin == Supplied
    ensures var w := Run(e, run);
            && a.Proceed? && w.process.writer.Publishing? && w.process.writer.origin == Supplied
            && w.disk.state == Some(w.process.writer.next)
  {
    var w := Run(e, run);
    if a.Proceed? && w.process.writer.Publishing? {
      PublishesDurable(e, run);
    } else {
      StepMemory(e, w, a);
      OriginKept(e, w, a);
    }
  }

  // ----- Readers -----

  /** The snapshot a reader holds was the active status when it was taken. */
  lemma {:induction false} SnapshotWasActive(e: Environment, run: seq<Action>, id: nat)
    requires Run(e, run).process.Up? && id in Run(e, run).process.readers
    ensures exists i ::
              0 <= i < |run| && run[i] == Read(id) && ActiveAt(e, run, i, Run(e, run).process.readers[id].snapshot)
  {
    var most, a := run[..|run| - 1], run[|run| - 1];
    var w := Run(e, most);
    SnapshotStep(e, w, a, id);
    if a == Read(id) && w.process.Up? && w.process.booted {
      assert ActiveAt(e, run, |run| - 1, Run(e, run).process.readers[id].snapshot);
    } else {
      SnapshotWasActive(e, most, id);
      var s := w.process.readers[id].snapshot;
      var i :| 0 <= i < |most| && most[i] == Read(id) && ActiveAt(e, most, i, s);
      assert run[..i] == most[..i];
      assert ActiveAt(e, run, i, s);
    }
  }

  /** After i steps the given status was the active one. */
  ghost predicate ActiveAt(e: Environment, run: seq<Action>, i: nat, s: Status)
    requires i <= |run|
  {
    Run(e, run[..i]).process.Up? && Run(e, run[..i]).process.active == s
  }

  /** A snapshot is taken whole, and kept. */
  lemma SnapshotStep(e: Environment, w: World, a: Action, id: nat)
    requires Step(e, w, a).process.Up? && id in Step(e, w, a).process.readers
    ensures w.process.Up?
    ensures if a == Read(id) && w.process.booted then Step(e, w, a).process.readers[id].snapshot == w.process.active
            else id in w.process.readers && Step(e, w, a).process.readers[id].snapshot == w.process.readers[id].snapshot
  {
  }

  /**
   A decision carries the revision of the snapshot its reader took, which was validated, and
   was computed from a bundle that seals to it. The lookup itself never fails but for a closed
   engine; what else can be answered is that readers are not served, or an evaluation error.
   */
  lemma DecisionCarriesSnapshot(e: Environment, run: seq<Action>, id: nat)
    requires e.Lawful() && Run(e, run).process.Up?
    requires id in Run(e, run).process.readers && Run(e, run).process.readers[id].Answered?
    ensures var w := Run(e, run);
            var reader := w.process.readers[id];
            match reader.answer
            case Ok(answer) =>
              && answer.revision == reader.snapshot.revision && answer.revision in w.history.validated
              && e.seals(answer.bundle) == Some(answer.revision)
            case Err(Missing(code)) => code == CLOSED && w.process.engine.closed
            case Err(_) => true
  {
    RunKeeps(e, run);
    assert ReaderOk(e, Run(e, run).history.validated, Run(e, run).process.engine, Run(e, run).process.readers[id]);
  }

  /** Every revision a reader has passed on is in the engine until the engine is closed. */
  lemma SnapshotHeld(e: Environment, run: seq<Action>, id: nat)
    requires e.Lawful() && Run(e, run).process.Up?
    requires id in Run(e, run).process.readers && Run(e, run).process.readers[id].Passed?
    ensures var p := Run(e, run).process;
            p.engine.closed || p.readers[id].snapshot.revision in p.engine.revisions
  {
    RunKeeps(e, run);
    assert ReaderOk(e, Run(e, run).history.validated, Run(e, run).process.engine, Run(e, run).process.readers[id]);
  }

  // ----- The engine's cache, under any interleaving -----

  lemma CacheBounded(e: Environment, run: seq<Action>)
    requires e.Lawful() && Run(e, run).process.Up?
    ensures |Run(e, run).process.engine.revisions| <= MAX_REVISIONS
    ensures Run(e, run).process.engine.closed ==> Run(e, run).process.engine.revisions == map[]
    ensures forall r :: r in Run(e, run).process.engine.revisions ==>
              e.compiles(r) && e.seals(Run(e, run).process.engine.revisions[r]) == Some(r)
  {
    RunKeeps(e, run);
  }

  lemma AdvanceEngine(e: Environment, w: World, now: Clock)
    requires w.process.Up?
    ensures w.process.engine.LeadsTo(Advance(e, w, now).process.engine)
  {
    if w.process.writer.Compiling? {
      assert w.process.engine.Insert(w.process.writer.revision, w.process.writer.archive).Ok? ==>
        w.process.engine.LeadsTo(w.process.engine.Insert(w.process.writer.revision, w.process.writer.archive).value);
    }
  }

  lemma BeginEngine(w: World, a: Action)
    requires w.process.Up?
    ensures w.process.engine.LeadsTo(Begin(w, a).process.engine)
  {
  }

  lemma BesideEngine(e: Environment, w: World, a: Action)
    requires w.process.Up?
    ensures w.process.engine.LeadsTo(Beside(e, w, a).process.engine)
  {
  }

  lemma EngineLeadsTo(e: Environment, w: World, a: Action)
    requires w.process.Up? && !a.Crash? && Step(e, w, a).process.Up?
    ensures w.process.engine.LeadsTo(Step(e, w, a).process.engine)
  {
    match a
    case Proceed(now) => AdvanceEngine(e, w, now);
    case Fault(error) =>
    case _ =>
      if Starts(a) {
        BeginEngine(w, a);
      } else if !a.Boot? {
        BesideEngine(e, w, a);
      }
  }

  /** A run in which the process stays up. */
  ghost predicate StaysUp(e: Environment, run: seq<Action>, more: seq<Action>) {
    forall n :: 0 <= n <= |more| ==> Run(e, run + more[..n]).process.Up?
  }

  /** Closed and empty for ever; and until then, what is cached stays cached. */
  lemma {:induction false} EngineOverTime(e: Environment, run: seq<Action>, more: seq<Action>)
    requires e.Lawful() && StaysUp(e, run, more) && !SomeCrash(more)
    ensures Run(e, run).process.Up? && Run(e, run + more).process.Up?
    ensures Run(e, run).process.engine.LeadsTo(Run(e, run + more).process.engine)
    decreases |more|
  {
    assert run + more[..0] == run && more[..|more|] == more;
    if more == [] {
    } else {
      var most, a := more[..|more| - 1], more[|more| - 1];
      assert more == most + [a];
      forall n | 0 <= n <= |most|
        ensures Run(e, run + most[..n]).process.Up?
      {
        assert most[..n] == more[..n];
      }
      EngineOverTime(e, run, most);
      RunSplit(e, run, most, a);
      EngineLeadsTo(e, Run(e, run + most), a);
    }
  }

  // ----- Rollback -----

  /** A rollback works on bytes that seal to the very revision that was asked for. */
  lemma RollbackTarget(e: Environment, run: seq<Action>, revision: Revision)
    requires e.Lawful()
    requires var p := Run(e, run).process; p.Up? && p.booted && p.writer.Idle?
    ensures var w := Run(e, run);
            var v := Step(e, w, Rollback(revision));
            if Bundle.IsDigest(revision) && revision in w.disk.artifacts then
              && v.process.writer.Reading? && e.seals(v.process.writer.archive) == Some(revision)
              && v.process.writer.goal == Activation(RollbackSource(revision), [], RolledBack)
            else
              v == RecordError(w, UNKNOWN_REVISION)
  {
    RunKeeps(e, run);
  }
}
