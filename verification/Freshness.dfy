/**
 How old a served status can be: where the time of a status comes from, and what a
 reader's check of it decides, in the arithmetic of the clock.
 */
module Freshness {
  import opened Wrappers
  import opened EngineCache
  import opened Lifecycle
  import opened LifecycleInvariant
  import opened LifecycleSafety

  // ----- Where the time of a status comes from -----

  /** The action fixes the time t: a candidate passes its tests, or the source answers that nothing changed. */
  ghost predicate Stamps(w: World, a: Action, t: nat) {
    w.process.Up? && w.process.booted &&
    match a
    case Proceed(now) => now == t && w.process.writer.Testing? && w.process.writer.goal.Activation?
    case NotModified(now) => now == t && w.process.writer.Fetching?
    case _ => false
  }

  ghost predicate StampedAt(e: Environment, run: seq<Action>, i: nat, t: nat)
    requires i < |run|
  {
    Stamps(Run(e, run[..i]), run[i], t)
  }

  ghost predicate Stamped(e: Environment, run: seq<Action>, t: nat) {
    exists i :: 0 <= i < |run| && StampedAt(e, run, i, t)
  }

  /** The writer carries the status that is to become durable and active. */
  predicate Carries(writer: Writer) {
    || writer.Storing? || writer.Writing? || writer.Syncing?
    || writer.Saving? || writer.Flushing? || writer.Publishing?
  }

  lemma CarriedBegin(w: World, a: Action)
    requires w.process.Up? && Carries(Begin(w, a).process.writer)
    ensures Begin(w, a).process.booted == w.process.booted && Begin(w, a).disk == w.disk
    ensures var next := Begin(w, a).process.writer.next;
            (Carries(w.process.writer) && next == w.process.writer.next) || Stamps(w, a, next.refreshedAt)
  {
  }

  lemma CarriedAdvance(e: Environment, w: World, now: Clock)
    requires w.process.Up? && Carries(Advance(e, w, now).process.writer)
    ensures Advance(e, w, now).process.booted == w.process.booted
    ensures var next := Advance(e, w, now).process.writer.next;
            || (Carries(w.process.writer) && next == w.process.writer.next)
            || (w.process.writer.Testing? &&
                match w.process.writer.goal {
                  case Activation(_, _, _) => next.refreshedAt == now
                  case Recovery(state, _, _) => next.refreshedAt == state.refreshedAt
                })
  {
  }

  lemma TestedGoal(e: Environment, w: World)
    requires e.Lawful() && Inv(e, w) && w.process.Up? && w.process.writer.Testing?
    ensures match w.process.writer.goal
            case Activation(_, _, _) => w.process.booted
            case Recovery(state, _, _) =>
              !w.process.booted && w.disk.state.Some? && state.refreshedAt == w.disk.state.value.refreshedAt
  {
    if w.disk.state.Some? { assert e.Reloads(w.disk.state.value); }
    hide DiskOk, CacheOk, ReadersOk, RecoveryOk;
  }

  /** Where the status that the writer carries comes from. */
  lemma CarriedStep(e: Environment, w: World, a: Action)
    requires e.Lawful() && Inv(e, w) && Step(e, w, a).process.Up? && Carries(Step(e, w, a).process.writer)
    ensures w.process.Up? && Step(e, w, a).process.booted == w.process.booted
    ensures var next := Step(e, w, a).process.writer.next;
            || (Carries(w.process.writer) && next == w.process.writer.next)
            || (w.process.booted && Stamps(w, a, next.refreshedAt))
            || (!w.process.booted && w.disk.state.Some? && next.refreshedAt == w.disk.state.value.refreshedAt)
  {
    hide Inv, Advance, Begin, Beside, Failed, BootUp;
    if w.process.Down? {
      if a.Boot? { CarriedBoot(e, w); }
    } else if a.Proceed? {
      CarriedAdvance(e, w, a.now);
      if w.process.writer.Testing? { TestedGoal(e, w); }
    } else if a.Fault? {
      CarriedFault(w, a.error);
    } else if Starts(a) {
      CarriedBegin(w, a);
    } else if !a.Boot? && !a.Crash? {
      CarriedBeside(e, w, a);
    }
  }

  lemma CarriedBoot(e: Environment, w: World)
    requires w.process.Down? && BootUp(e, w).process.Up?
    ensures !Carries(BootUp(e, w).process.writer)
  {
  }

  lemma CarriedFault(w: World, error: Error)
    requires w.process.Up? && Failed(w, error).process.Up? && Carries(Failed(w, error).process.writer)
    ensures Failed(w, error) == w
  {
  }

  lemma CarriedBeside(e: Environment, w: World, a: Action)
    requires w.process.Up?
    ensures var v := Beside(e, w, a).process;
            v.Up? && v.writer == w.process.writer && v.booted == w.process.booted
  {
  }

  lemma PrefixStamped(e: Environment, most: seq<Action>, a: Action, t: nat)
    requires Stamped(e, most, t)
    ensures Stamped(e, most + [a], t)
  {
    var i :| 0 <= i < |most| && StampedAt(e, most, i, t);
    assert (most + [a])[..i] == most[..i];
    assert StampedAt(e, most + [a], i, t);
  }

  lemma StampsNow(e: Environment, most: seq<Action>, a: Action, t: nat)
    requires Stamps(Run(e, most), a, t)
    ensures Stamped(e, most + [a], t)
  {
    assert (most + [a])[..|most|] == most;
    assert StampedAt(e, most + [a], |most|, t);
  }

  lemma AdvanceTimes(e: Environment, w: World, now: Clock)
    requires w.process.Up?
    ensures var v := Advance(e, w, now);
            && v.process.Up?
            && (v.disk.state == w.disk.state ||
                (w.process.writer.Saving? && v.disk.state == Some(w.process.writer.next)))
            && (v.process.active == w.process.active ||
                (w.process.writer.Publishing? && v.process.active == w.process.writer.next))
  {
  }

  lemma BeginTimes(w: World, a: Action)
    requires w.process.Up?
    ensures var v := Begin(w, a);
            && v.process.Up? && v.disk == w.disk && v.process.active.refreshedAt == w.process.active.refreshedAt
            && v.process.active.revision == w.process.active.revision
  {
  }

  lemma BesideTimes(e: Environment, w: World, a: Action)
    requires w.process.Up?
    ensures var v := Beside(e, w, a); v.process.Up? && v.disk == w.disk && v.process.active == w.process.active
  {
  }

  /** When the durable and the active time change. */
  lemma TimesStep(e: Environment, w: World, a: Action)
    ensures var v := Step(e, w, a);
            && (v.disk.state == w.disk.state ||
                (w.process.Up? && w.process.writer.Saving? && v.disk.state == Some(w.process.writer.next)))
            && (v.process.Up? ==>
                  || (w.process.Up? && v.process.active.refreshedAt == w.process.active.refreshedAt &&
                      v.process.active.revision == w.process.active.revision)
                  || (w.process.Up? && w.process.writer.Publishing? && v.process.active == w.process.writer.next)
                  || v.process.active == NOTHING)
  {
    if w.process.Up? {
      match a
      case Proceed(now) => AdvanceTimes(e, w, now);
      case Boot =>
      case Crash =>
      case Fault(_) =>
      case _ =>
        if Starts(a) { BeginTimes(w, a); } else { BesideTimes(e, w, a); }
    }
    hide Advance, Begin, Beside;
  }

  /** Every time that is durable, active or about to be is the clock of an action of the run that fixes a time. */
  ghost predicate AllStamped(e: Environment, run: seq<Action>) {
    var w := Run(e, run);
    && (w.disk.state.Some? ==> Stamped(e, run, w.disk.state.value.refreshedAt))
    && (w.process.Up? && w.process.active.revision != "" ==> Stamped(e, run, w.process.active.refreshedAt))
    && (w.process.Up? && Carries(w.process.writer) ==> Stamped(e, run, w.process.writer.next.refreshedAt))
  }

  lemma {:induction false} TimesAreStamped(e: Environment, run: seq<Action>)
    requires e.Lawful()
    ensures AllStamped(e, run)
  {
    if run != [] {
      var most, a := run[..|run| - 1], run[|run| - 1];
      assert run == most + [a];
      TimesAreStamped(e, most);
      RunKeeps(e, most);
      StampedStep(e, most, a);
    }
  }

  lemma StampedStep(e: Environment, most: seq<Action>, a: Action)
    requires e.Lawful() && AllStamped(e, most) && Inv(e, Run(e, most))
    ensures AllStamped(e, most + [a])
  {
    var w := Run(e, most);
    assert (most + [a])[..|most|] == most && (most + [a])[|most|] == a;
    var v := Step(e, w, a);
    assert Run(e, most + [a]) == v;
    TimesStep(e, w, a);
    forall t | Stamped(e, most, t)
      ensures Stamped(e, most + [a], t)
    {
      PrefixStamped(e, most, a, t);
    }
    if v.process.Up? && Carries(v.process.writer) {
      CarriedStep(e, w, a);
      if Stamps(w, a, v.process.writer.next.refreshedAt) {
        StampsNow(e, most, a, v.process.writer.next.refreshedAt);
      }
    }
    hide Step, Inv, Stamped, Stamps, Run;
  }

  /**
   The status about to become durable has the time of the action with which its operation fixed it: since that
   action the writer has carried a status.
   */
  lemma {:induction false} CarriedTime(e: Environment, run: seq<Action>)
    requires e.Lawful() && Run(e, run).process.Up? && Run(e, run).process.booted && Carries(Run(e, run).process.writer)
    ensures exists i :: 0 <= i < |run| && StampedAt(e, run, i, Run(e, run).process.writer.next.refreshedAt) &&
              CarriesSince(e, run, i)
  {
    var most, a := run[..|run| - 1], run[|run| - 1];
    RunKeeps(e, most);
    var w := Run(e, most);
    CarriedStep(e, w, a);
    var t := Run(e, run).process.writer.next.refreshedAt;
    if Carries(w.process.writer) && Run(e, run).process.writer.next == w.process.writer.next {
      CarriedTime(e, most);
      var i :| 0 <= i < |most| && StampedAt(e, most, i, t) && CarriesSince(e, most, i);
      CarriesOn(e, run, i, t);
    } else {
      assert StampedAt(e, run, |run| - 1, t);
      assert run[..|run|] == run;
      assert CarriesSince(e, run, |run| - 1);
    }
  }

  ghost predicate CarriesSince(e: Environment, run: seq<Action>, i: nat) {
    forall j :: i < j <= |run| ==> CarriesAt(e, run, j)
  }

  ghost predicate CarriesAt(e: Environment, run: seq<Action>, j: nat)
    requires j <= |run|
  {
    var w := Run(e, run[..j]);
    w.process.Up? && Carries(w.process.writer)
  }

  lemma CarriesOn(e: Environment, run: seq<Action>, i: nat, t: nat)
    requires i < |run| - 1 && StampedAt(e, run[..|run| - 1], i, t) && CarriesSince(e, run[..|run| - 1], i)
    requires Run(e, run).process.Up? && Carries(Run(e, run).process.writer)
    ensures StampedAt(e, run, i, t) && CarriesSince(e, run, i)
  {
    var most := run[..|run| - 1];
    assert most[..i] == run[..i];
    forall j | i < j <= |run|
      ensures CarriesAt(e, run, j)
    {
      if j == |run| {
        assert run[..j] == run;
      } else {
        assert CarriesAt(e, most, j);
        assert most[..j] == run[..j];
      }
    }
  }

  // ----- What a reader's check decides -----

  /** The status is ready, names a revision, is younger than the limit and not from the future; the engine is open. */
  predicate Serves(e: Environment, s: Status, now: nat, closed: bool) {
    s.ready && s.revision != "" && s.refreshedAt <= now && now < s.refreshedAt + e.maxStaleness && !closed
  }

  /** The check passes exactly the reader whose snapshot is ready and young enough, and refuses any other. */
  lemma CheckDecides(e: Environment, run: seq<Action>, id: nat, now: Clock)
    requires Run(e, run).process.Up? && id in Run(e, run).process.readers && Run(e, run).process.readers[id].Loaded?
    ensures var w := Run(e, run);
            var s := w.process.readers[id].snapshot;
            var v := Run(e, run + [Action.Check(id, now)]);
            && v.process.Up? && id in v.process.readers
            && v.process.readers[id] ==
                 if Serves(e, s, now, w.process.engine.closed) then Passed(s) else Answered(s, Err(NotReady))
  {
    var a := Action.Check(id, now);
    assert (run + [a])[..|run|] == run && (run + [a])[|run|] == a;
  }

  /** At step i the reader, which held the status s, was checked, and was to be served or not. */
  ghost predicate CheckedAt(e: Environment, run: seq<Action>, i: nat, id: nat, s: Status, served: bool)
    requires i < |run|
  {
    var p := Run(e, run[..i]).process;
    && run[i].Check? && run[i].reader == id && p.Up? && id in p.readers && p.readers[id] == Loaded(s)
    && (served <==> Serves(e, s, run[i].now, p.engine.closed))
  }

  ghost predicate Served(r: Reader) {
    r.Passed? || (r.Answered? && r.answer != Err(NotReady))
  }

  lemma ReaderMoves(e: Environment, w: World, a: Action, id: nat)
    requires Step(e, w, a).process.Up? && id in Step(e, w, a).process.readers
    requires !Step(e, w, a).process.readers[id].Loaded?
    ensures w.process.Up? && id in w.process.readers
    ensures var r, q := w.process.readers[id], Step(e, w, a).process.readers[id];
            && r.snapshot == q.snapshot
            && if r.Loaded?
               then a.Check? && a.reader == id &&
                    (Served(q) <==> Serves(e, r.snapshot, a.now, w.process.engine.closed))
               else Served(r) <==> Served(q)
  {
  }

  /**
   Whoever has passed or got a decision was checked while its snapshot was ready and younger than the limit,
   with the engine open; whoever was refused as not ready was checked when one of these failed.
   */
  lemma {:induction false} ServedFresh(e: Environment, run: seq<Action>, id: nat)
    requires Run(e, run).process.Up? && id in Run(e, run).process.readers && !Run(e, run).process.readers[id].Loaded?
    ensures var r := Run(e, run).process.readers[id];
            exists i :: 0 <= i < |run| && CheckedAt(e, run, i, id, r.snapshot, Served(r))
  {
    var most, a := run[..|run| - 1], run[|run| - 1];
    var w := Run(e, most);
    var r := Run(e, run).process.readers[id];
    ReaderMoves(e, w, a, id);
    if w.process.readers[id].Loaded? {
      assert CheckedAt(e, run, |run| - 1, id, r.snapshot, Served(r));
    } else {
      ServedFresh(e, most, id);
      var i :| 0 <= i < |most| && CheckedAt(e, most, i, id, r.snapshot, Served(r));
      assert run[..i] == most[..i];
      assert CheckedAt(e, run, i, id, r.snapshot, Served(r));
    }
  }

  lemma EarlierStamped(e: Environment, run: seq<Action>, n: nat, t: nat)
    requires n <= |run| && Stamped(e, run[..n], t)
    ensures Stamped(e, run, t)
  {
    var i :| 0 <= i < n && StampedAt(e, run[..n], i, t);
    assert run[..n][..i] == run[..i];
    assert StampedAt(e, run, i, t);
  }

  /**
   A reader that is served is served within the limit of the clock of an activation or of a not-modified answer
   of the run: that clock is the time of its snapshot.
   */
  lemma ServedWithinLimit(e: Environment, run: seq<Action>, id: nat)
    requires e.Lawful() && Run(e, run).process.Up? && id in Run(e, run).process.readers
    requires Served(Run(e, run).process.readers[id])
    ensures exists i, k ::
              && 0 <= i < |run| && run[i].Check? && run[i].reader == id
              && 0 <= k < |run| && (run[k].Proceed? || run[k].NotModified?) && StampedAt(e, run, k, run[k].now)
              && run[k].now <= run[i].now < run[k].now + e.maxStaleness
              && Run(e, run).process.readers[id].snapshot.refreshedAt == run[k].now
  {
    var s := Run(e, run).process.readers[id].snapshot;
    ServedFresh(e, run, id);
    var i :| 0 <= i < |run| && CheckedAt(e, run, i, id, s, true);
    SnapshotWasActive(e, run, id);
    var n :| 0 <= n < |run| && run[n] == Read(id) && ActiveAt(e, run, n, s);
    TimesAreStamped(e, run[..n]);
    EarlierStamped(e, run, n, s.refreshedAt);
    hide Run;
    var k :| 0 <= k < |run| && StampedAt(e, run, k, s.refreshedAt);
    assert run[k].now == s.refreshedAt;
  }
}
