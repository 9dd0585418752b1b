/** The engine's cache of compiled revisions, read and written under separate locks. */
module EngineCache {
  import opened Wrappers

  type Revision = string

  const MAX_REVISIONS: nat := 128
  const CLOSED := "ng.policy.closed"
  const REVISION_LIMIT := "ng.policy.revision_limit"
  const UNKNOWN_REVISION := "ng.policy.unknown_revision"

  /** What is kept under a revision is the bundle it was compiled from. */
  datatype Cache<P> = Cache(revisions: map<Revision, P>, closed: bool) {
    static function New(): Cache<P> {
      Cache(map[], false)
    }

    /** First phase of a compilation, under the read lock: whether the work can be skipped. */
    function Check(r: Revision): Result<bool, string> {
      if closed then Err(CLOSED) else Ok(r in revisions)
    }

    /** Last phase, under the write lock; the state may have changed since the first phase. */
    function Insert(r: Revision, p: P): Result<Cache<P>, string> {
      if closed then Err(CLOSED)
      else if |revisions| >= MAX_REVISIONS then Err(REVISION_LIMIT)
      else Ok(Cache(revisions[r := p], false))
    }

    function Close(): Cache<P> {
      Cache(map[], true)
    }

    function Find(r: Revision): Result<P, string> {
      if closed then Err(CLOSED)
      else if r !in revisions then Err(UNKNOWN_REVISION)
      else Ok(revisions[r])
    }

    /** Never more than the limit, and empty once closed. */
    predicate Bounded() {
      |revisions| <= MAX_REVISIONS && (closed ==> revisions == map[])
    }

    /** The cache may only grow until it is closed, and stays closed. */
    predicate LeadsTo(later: Cache<P>) {
      if closed then later.closed else later.closed || revisions.Keys <= later.revisions.Keys
    }
  }

  class Engine<P> {
    var revisions: map<Revision, P>
    var closed: bool

    constructor ()
      ensures State() == Cache<P>.New()
    {
      revisions, closed := map[], false;
    }

    function State(): Cache<P>
      reads this
    {
      Cache(revisions, closed)
    }

    method Check(r: Revision) returns (cached: Result<bool, string>)
      ensures cached == State().Check(r)
    {
      if closed {
        return Err(CLOSED);
      }
      return Ok(r in revisions);
    }

    method Insert(r: Revision, p: P) returns (err: Option<string>)
      modifies this
      ensures match old(State()).Insert(r, p)
              case Ok(next) => err.None? && State() == next
              case Err(code) => err == Some(code) && State() == old(State())
    {
      if closed {
        return Some(CLOSED);
      }
      if |revisions| >= MAX_REVISIONS {
        return Some(REVISION_LIMIT);
      }
      revisions := revisions[r := p];
      return None;
    }

    method Find(r: Revision) returns (p: Result<P, string>)
      ensures p == State().Find(r)
    {
      if closed {
        return Err(CLOSED);
      }
      if r !in revisions {
        return Err(UNKNOWN_REVISION);
      }
      return Ok(revisions[r]);
    }

    method Close()
      modifies this
      ensures State() == old(State()).Close()
    {
      closed := true;
      revisions := map[];
    }

    method Health(cancelled: bool) returns (ready: bool, count: nat)
      ensures ready <==> !State().closed && !cancelled
      ensures count == |State().revisions|
    {
      return !closed && !cancelled, |revisions|;
    }
  }
}
