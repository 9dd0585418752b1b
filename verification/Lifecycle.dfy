/**
 The policy lifecycle as a state machine: one writer at a time, any number of lock-free
 readers and other compilations, a durable directory, and crashes between any two steps.
 */
module Lifecycle {
  import opened Wrappers
  import opened EngineCache
  import Bundle
  import Sealing
  import Utf8

  type Archive = seq<Sealing.Entry>

  /** A Go string that comes from outside: bytes, UTF-8 or not. */
  type Text = seq<Utf8.Byte>

  /** The nanoseconds from the zero time, 0, to the end of the year 9999, the last that RFC 3339 can spell. */
  const CLOCK_END: nat := 315_537_897_600_000_000_000

  /** A reading of the clock. */
  type Clock = n: nat | 0 < n < CLOCK_END witness 1

  const STALE := "ng.policy.stale"
  const INVALID_SOURCE := "ng.policy.invalid_source"
  const INVALID_RESPONSE := "ng.policy.invalid_response"
  const ACTIVATION_FAILED := "ng.policy.activation_failed"
  const RECOVERED_PREVIOUS := "ng.policy.recovered_previous"

  datatype Status = Status(
    ready: bool,
    revision: Revision,
    previous: Revision,
    source: Text,
    etag: Text,
    refreshedAt: nat,
    lastError: string)

  const NOTHING := Status(false, "", "", [], [], 0, "")

  /** The source that a rollback records. */
  function RollbackSource(revision: Revision): Text {
    Utf8.Encode("rollback:" + revision)
  }

  /** A status with its texts as they come back from state.json. */
  function Cleaned(s: Status): Status {
    s.(source := Utf8.Clean(s.source), etag := Utf8.Clean(s.etag))
  }

  /** A status as an operation makes it durable: its error is none or the one of a fallback. */
  predicate Writable(s: Status) {
    && s.ready && Bundle.IsDigest(s.revision) && (s.previous != "" ==> Bundle.IsDigest(s.previous))
    && 0 < s.refreshedAt < CLOCK_END && (s.lastError == "" || s.lastError == RECOVERED_PREVIOUS)
  }

  /**
   The revision an archive seals to, the verdicts of the compiler and of the bundled tests,
   and what reading state.json back gives for a status that was written to it.
   */
  datatype Environment = Environment(
    seals: Archive -> Option<Revision>,
    compiles: Revision -> bool,
    passes: Revision -> bool,
    reload: Status -> Option<Status>,
    maxStaleness: nat)
  {
    ghost predicate Lawful() {
      && (forall a :: seals(a).Some? ==> Bundle.IsDigest(seals(a).value))
      && (forall s :: Reloads(s))
    }

    /**
     What is accepted comes back with its texts cleaned, and is accepted again, itself and with
     the previous revision in its place; the status of a rollback, or without texts, is always accepted.
     */
    ghost predicate Reloads(s: Status) {
      && (reload(s).Some? ==> reload(s) == Some(Cleaned(s)) && reload(Cleaned(s)) == Some(Cleaned(s)))
      && (reload(s).Some? && Writable(s) && s.previous != "" ==>
            reload(Recovered(Cleaned(s), s.previous, true)).Some?)
      && (Writable(s) && (s.source == RollbackSource(s.revision) || s.source == []) && s.etag == [] ==> reload(s).Some?)
    }
  }

  // ----- State -----

  datatype Disk = Disk(state: Option<Status>, artifacts: map<Revision, Archive>)

  /** How the current status came about. */
  datatype Origin = Supplied | RolledBack | FellBack

  datatype Goal =
    | Activation(source: Text, etag: Text, origin: Origin)
    | Recovery(state: Status, target: Revision, fallback: bool)

  /** What the holder of the manager's lock does next. */
  datatype Writer =
    | Idle
    | Fetching(id: Text, sent: Text, seen: Status)
    | Opening(goal: Goal)
    | Reading(goal: Goal, archive: Archive)
    | Compiling(goal: Goal, archive: Archive, revision: Revision)
    | Testing(goal: Goal, archive: Archive, revision: Revision)
    | Storing(next: Status, archive: Archive, origin: Origin)
    | Writing(next: Status, archive: Archive, origin: Origin)
    | Syncing(next: Status, origin: Origin)
    | Saving(next: Status, origin: Origin)
    | Flushing(next: Status, origin: Origin)
    | Publishing(next: Status, origin: Origin)

  /** A decision names a revision and was computed from the bundle cached under it. */
  datatype Answer = Answer(revision: Revision, bundle: Archive)

  /** Why a reader gets no decision: not ready, refused by the cache, or the evaluation failed. */
  datatype Refusal = NotReady | Missing(code: string) | Failing(error: Error)

  datatype Reader =
    | Loaded(snapshot: Status)
    | Passed(snapshot: Status)
    | Answered(snapshot: Status, answer: Result<Answer, Refusal>)

  datatype Process =
    | Down
    | Up(
        booted: bool,
        active: Status,
        engine: Cache<Archive>,
        writer: Writer,
        readers: map<nat, Reader>,
        compilers: map<nat, Archive>)

  datatype Supply = Supply(source: Text, etag: Text, archive: Archive)

  /**
   What happened so far: the distinct revisions published, those that passed validation,
   the bytes supplied with each source and entity tag, the origins of the active and the
   durable status, and whether the durable status has been published.
   */
  datatype History = History(
    log: seq<Revision>,
    validated: set<Revision>,
    supplied: set<Supply>,
    origin: Origin,
    durableOrigin: Origin,
    synced: bool)

  datatype World = World(disk: Disk, process: Process, history: History)

  const START := World(Disk(None, map[]), Down, History([], {}, {}, Supplied, Supplied, true))

  // ----- Actions -----

  datatype Error = Typed(code: string) | Untyped

  datatype Action =
    | Boot
    | Crash
    | Activate(archive: Archive, source: Text, etag: Text)
    | Rollback(revision: Revision)
    | Refresh(from: Option<Text>)
    | NotModified(now: Clock)
    | Content(archive: Archive, etag: Text)
    | Proceed(now: Clock)
    | Fault(error: Error)
    | Read(reader: nat)
    | Check(reader: nat, now: Clock)
    | Lookup(reader: nat, failure: Option<Error>)
    | Compile(client: nat, archive: Archive)
    | Insert(client: nat)
    | Close

  function Recorded(error: Error): string {
    match error
    case Typed(code) => code
    case Untyped => ACTIVATION_FAILED
  }

  predicate ValidState(s: Status) {
    && Bundle.IsDigest(s.revision)
    && s.refreshedAt != 0
    && (s.previous != "" ==> Bundle.IsDigest(s.previous))
  }

  function Activated(active: Status, revision: Revision, source: Text, etag: Text, now: Clock): Status {
    var previous := if active.revision == revision then active.previous else active.revision;
    Status(true, revision, previous, source, etag, now, "")
  }

  function Recovered(state: Status, revision: Revision, fallback: bool): Status {
    if fallback
    then state.(ready := true, revision := revision, previous := "", etag := [], lastError := RECOVERED_PREVIOUS)
    else state.(ready := true)
  }

  function Extend(log: seq<Revision>, r: Revision): seq<Revision> {
    if log != [] && log[|log| - 1] == r then log else log + [r]
  }

  function At(w: World, writer: Writer): World
    requires w.process.Up?
  {
    w.(process := w.process.(writer := writer))
  }

  /** Records an error and releases the lock. */
  function RecordError(w: World, code: string): World
    requires w.process.Up?
  {
    w.(process := w.process.(active := w.process.active.(lastError := code), writer := Idle))
  }

  /** A new process reads state.json, and refuses what the strict decoder or the patterns refuse. */
  function BootUp(e: Environment, w: World): World {
    match w.disk.state
    case None => w.(process := Up(true, NOTHING, Cache.New(), Idle, map[], map[]))
    case Some(written) =>
      match e.reload(written)
      case None => w
      case Some(s) =>
        if ValidState(s)
        then w.(process := Up(false, NOTHING, Cache.New(), Opening(Recovery(s, s.revision, false)), map[], map[]))
        else w
  }

  /** A recovery that cannot use its target turns to the previous revision once, or gives up. */
  function RecoveryFailed(w: World, goal: Goal): World
    requires w.process.Up? && goal.Recovery?
  {
    if !goal.fallback && goal.state.previous != ""
    then At(w, Opening(Recovery(goal.state, goal.state.previous, true)))
    else w.(process := Down)
  }

  /** The writer's current step fails: for a reason of input and output, time or policy. */
  function Failed(w: World, error: Error): World
    requires w.process.Up?
  {
    var writer := w.process.writer;
    if writer.Idle? || writer.Publishing? then w
    else if (writer.Opening? || writer.Reading? || writer.Compiling? || writer.Testing?) && writer.goal.Recovery?
    then RecoveryFailed(w, writer.goal)
    else if !w.process.booted then w.(process := Down)
    else RecordError(w, Recorded(error))
  }

  // ----- The writer's micro-steps -----

  function OpenStep(w: World, goal: Goal): World
    requires w.process.Up?
  {
    if goal.Recovery? && goal.target in w.disk.artifacts
    then At(w, Reading(goal, w.disk.artifacts[goal.target]))
    else w
  }

  function ReadStep(e: Environment, w: World, goal: Goal, archive: Archive): World
    requires w.process.Up?
  {
    if e.seals(archive).None? then w else
      var r := e.seals(archive).value;
      match w.process.engine.Check(r)
      case Err(_) => w
      case Ok(cached) => At(w, if cached then Testing(goal, archive, r) else Compiling(goal, archive, r))
  }

  function CompileStep(e: Environment, w: World, goal: Goal, archive: Archive, r: Revision): World
    requires w.process.Up?
  {
    if !e.compiles(r) then w else
      match w.process.engine.Insert(r, archive)
      case Err(_) => w
      case Ok(engine) => w.(process := w.process.(engine := engine, writer := Testing(goal, archive, r)))
  }

  function TestStep(e: Environment, w: World, goal: Goal, archive: Archive, r: Revision, now: Clock): World
    requires w.process.Up?
  {
    if w.process.engine.closed || !e.passes(r) || (goal.Recovery? && r != goal.target) then w else
      var v := w.(history := w.history.(validated := w.history.validated + {r}));
      match goal
      case Activation(source, etag, origin) =>
        At(v, Storing(Activated(w.process.active, r, source, etag, now), archive, origin))
      case Recovery(state, _, fallback) =>
        At(v, Saving(Recovered(state, r, fallback), if fallback then FellBack else w.history.durableOrigin))
  }

  function StoreStep(e: Environment, w: World, next: Status, archive: Archive, origin: Origin): World
    requires w.process.Up?
  {
    if next.revision !in w.disk.artifacts then At(w, Writing(next, archive, origin))
    else if e.seals(w.disk.artifacts[next.revision]) == Some(next.revision) then At(w, Saving(next, origin))
    else w
  }

  /** The rename of an artifact takes effect; the directory is not yet synced. */
  function RenameArtifact(w: World, next: Status, archive: Archive, origin: Origin): World
    requires w.process.Up?
  {
    At(w.(disk := w.disk.(artifacts := w.disk.artifacts[next.revision := archive])), Syncing(next, origin))
  }

  /** The rename of state.json takes effect; the directory is not yet synced. */
  function RenameState(w: World, next: Status, origin: Origin): World
    requires w.process.Up?
  {
    At(w.(disk := w.disk.(state := Some(next)),
          history := w.history.(durableOrigin := origin, synced := false)),
       Flushing(next, origin))
  }

  /** Readers switch to the new status. */
  function Publish(w: World, next: Status, origin: Origin): World
    requires w.process.Up?
  {
    World(w.disk,
          w.process.(booted := true, active := next, writer := Idle),
          w.history.(log := Extend(w.history.log, next.revision), origin := origin, synced := true))
  }

  /** The writer's next step succeeds, where it can. */
  function Advance(e: Environment, w: World, now: Clock): World
    requires w.process.Up?
  {
    match w.process.writer
    case Idle => w
    case Fetching(_, _, _) => w
    case Opening(goal) => OpenStep(w, goal)
    case Reading(goal, archive) => ReadStep(e, w, goal, archive)
    case Compiling(goal, archive, r) => CompileStep(e, w, goal, archive, r)
    case Testing(goal, archive, r) => TestStep(e, w, goal, archive, r, now)
    case Storing(next, archive, origin) => StoreStep(e, w, next, archive, origin)
    case Writing(next, archive, origin) => RenameArtifact(w, next, archive, origin)
    case Syncing(next, origin) => At(w, Saving(next, origin))
    case Saving(next, origin) => RenameState(w, next, origin)
    case Flushing(next, origin) => At(w, Publishing(next, origin))
    case Publishing(next, origin) => Publish(w, next, origin)
  }

  // ----- Starting an operation -----

  function Supplies(w: World, source: Text, etag: Text, archive: Archive): World {
    w.(history := w.history.(supplied := w.history.supplied + {Supply(source, etag, archive)}))
  }

  function StartActivate(w: World, archive: Archive, source: Text, etag: Text): World
    requires w.process.Up?
  {
    At(Supplies(w, source, etag, archive), Reading(Activation(source, etag, Supplied), archive))
  }

  function StartRollback(w: World, revision: Revision): World
    requires w.process.Up?
  {
    if !Bundle.IsDigest(revision) || revision !in w.disk.artifacts
    then RecordError(w, UNKNOWN_REVISION)
    else At(w, Reading(Activation(RollbackSource(revision), [], RolledBack), w.disk.artifacts[revision]))
  }

  function StartRefresh(w: World, source: Option<Text>): World
    requires w.process.Up?
  {
    match source
    case None => RecordError(w, INVALID_SOURCE)
    case Some(id) =>
      var active := w.process.active;
      At(w, Fetching(id, if active.source == id then active.etag else [], active))
  }

  /** Whether a not-modified answer can be believed. */
  predicate Unchanged(seen: Status, id: Text, sent: Text) {
    seen.revision != "" && seen.source == id && sent != []
  }

  function AnswerNotModified(w: World, now: Clock): World
    requires w.process.Up? && w.process.writer.Fetching?
  {
    var f := w.process.writer;
    if !Unchanged(f.seen, f.id, f.sent) then RecordError(w, INVALID_RESPONSE)
    else At(w, Saving(f.seen.(refreshedAt := now, lastError := ""), w.history.origin))
  }

  function AnswerContent(w: World, archive: Archive, etag: Text): World
    requires w.process.Up? && w.process.writer.Fetching?
  {
    var id := w.process.writer.id;
    At(Supplies(w, id, etag, archive), Reading(Activation(id, etag, Supplied), archive))
  }

  // ----- Readers and other compilations, which take no lock of the manager -----

  predicate Fresh(e: Environment, s: Status, now: Clock) {
    0 <= now - s.refreshedAt < e.maxStaleness
  }

  function Load(w: World, id: nat): World
    requires w.process.Up?
  {
    w.(process := w.process.(readers := w.process.readers[id := Loaded(w.process.active)]))
  }

  function CheckReader(e: Environment, w: World, id: nat, now: Clock): World
    requires w.process.Up? && id in w.process.readers && w.process.readers[id].Loaded?
  {
    var s := w.process.readers[id].snapshot;
    var ready := s.ready && s.revision != "" && Fresh(e, s, now) && !w.process.engine.closed;
    var reader := if ready then Passed(s) else Answered(s, Err(NotReady));
    w.(process := w.process.(readers := w.process.readers[id := reader]))
  }

  /** The evaluation itself: the revision is looked up, or the evaluation fails for a reason of its own. */
  function LookUp(w: World, id: nat, failure: Option<Error>): World
    requires w.process.Up? && id in w.process.readers && w.process.readers[id].Passed?
  {
    var s := w.process.readers[id].snapshot;
    var found := w.process.engine.Find(s.revision);
    var answer := if failure.Some? then Err(Failing(failure.value))
                  else if found.Err? then Err(Missing(found.error))
                  else Ok(Answer(s.revision, found.value));
    w.(process := w.process.(readers := w.process.readers[id := Answered(s, answer)]))
  }

  function StartCompile(e: Environment, w: World, id: nat, archive: Archive): World
    requires w.process.Up?
  {
    if e.seals(archive).Some? && w.process.engine.Check(e.seals(archive).value) == Ok(false)
    then w.(process := w.process.(compilers := w.process.compilers[id := archive]))
    else w
  }

  function FinishCompile(e: Environment, w: World, id: nat): World
    requires w.process.Up? && id in w.process.compilers && e.seals(w.process.compilers[id]).Some?
  {
    var archive := w.process.compilers[id];
    var r := e.seals(archive).value;
    var left := w.process.compilers - {id};
    if !e.compiles(r) || w.process.engine.Insert(r, archive).Err?
    then w.(process := w.process.(compilers := left))
    else w.(process := w.process.(compilers := left, engine := w.process.engine.Insert(r, archive).value))
  }

  // ----- Runs -----

  /** Actions of the clients that read or compile beside the writer. */
  function Beside(e: Environment, w: World, a: Action): World
    requires w.process.Up?
  {
    var p := w.process;
    match a
    case Read(id) => if p.booted then Load(w, id) else w
    case Check(id, now) => if id in p.readers && p.readers[id].Loaded? then CheckReader(e, w, id, now) else w
    case Lookup(id, failure) => if id in p.readers && p.readers[id].Passed? then LookUp(w, id, failure) else w
    case Compile(id, archive) => StartCompile(e, w, id, archive)
    case Insert(id) => if id in p.compilers && e.seals(p.compilers[id]).Some? then FinishCompile(e, w, id) else w
    case Close => w.(process := p.(engine := p.engine.Close()))
    case _ => w
  }

  /** Actions that start an operation, or the answer of a source. */
  function Begin(w: World, a: Action): World
    requires w.process.Up?
  {
    var p := w.process;
    if !p.booted then w
    else match a
      case Activate(archive, source, etag) => if p.writer.Idle? then StartActivate(w, archive, source, etag) else w
      case Rollback(revision) => if p.writer.Idle? then StartRollback(w, revision) else w
      case Refresh(source) => if p.writer.Idle? then StartRefresh(w, source) else w
      case NotModified(now) => if p.writer.Fetching? then AnswerNotModified(w, now) else w
      case Content(archive, etag) => if p.writer.Fetching? then AnswerContent(w, archive, etag) else w
      case _ => w
  }

  predicate Starts(a: Action) {
    a.Activate? || a.Rollback? || a.Refresh? || a.NotModified? || a.Content?
  }

  /** One step of the whole system; an action that is not possible changes nothing. */
  function Step(e: Environment, w: World, a: Action): World {
    if w.process.Down? then if a.Boot? then BootUp(e, w) else w
    else match a
      case Boot => w
      case Crash => w.(process := Down)
      case Proceed(now) => Advance(e, w, now)
      case Fault(error) => Failed(w, error)
      case _ => if Starts(a) then Begin(w, a) else Beside(e, w, a)
  }

  function Run(e: Environment, run: seq<Action>): World {
    if run == [] then START else Step(e, Run(e, run[..|run| - 1]), run[|run| - 1])
  }
}
