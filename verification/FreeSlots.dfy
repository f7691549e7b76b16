/**
  When a slot can stay free while somebody waits, over whole serial runs and whatever
  has expired: exactly when some refill gives up on a line of dead entries.
 */
module FreeSlots {
  import opened Lists
  import opened RedisModel
  import opened Requests
  import opened Admission
  import opened SerialRuns
  import opened Heartbeats

  /** The store from which the admitPending of a request starts, if the request refills the room. */
  function RefillsFrom(db: Db, r: Request): Option<Db> {
    match r
    case LeaveRoom(sid, _) => if sid != NO_SESSION && sid in db.active then Some(Leave(db, sid)) else None
    case ChangeCapacity(n, _) => if n > 0 then Some(SetCapacity(db, n)) else None
    case ReleaseSlots(victims, _) => Some(Release(db, victims))
    case AdmitTick(_) => Some(db)
    case ReapTick(_) => if Evicted(db) > 0 then Some(Reap(db)) else None
    case _ => None
  }

  /** Fifty dead entries in a row stand between that store's free slots and somebody in line. */
  ghost predicate GivesUp(db: Db, r: Request) {
    RefillsFrom(db, r).Some? && exists k: nat :: Blocked(RefillsFrom(db, r).value, k)
  }

  lemma RefillIsAdmission(db: Db, r: Request)
    requires RefillsFrom(db, r).Some?
    ensures Serve(db, r) == AdmitPending(RefillsFrom(db, r).value, r.stamp).0
  {}

  /** A refill fills, unless it gives up. */
  lemma RefillFillsIff(db: Db, r: Request)
    requires RefillsFrom(db, r).Some?
    ensures Filled(Serve(db, r)) <==> !GivesUp(db, r)
  {
    RefillIsAdmission(db, r);
    GivesUpIff(RefillsFrom(db, r).value, r.stamp);
  }

  lemma VisitKeepsFilled(db: Db, sid: Sid, atRoot: bool, stamp: int)
    requires Filled(db)
    ensures Filled(ServeVisit(db, sid, atRoot, stamp))
  {}

  lemma IdleReapKeepsFilled(db: Db)
    requires Filled(db) && Evicted(db) <= 0
    ensures Filled(Reap(db))
  {
    KeepMembers(db.queue, Live(db));
    assert db.active == db.active * Live(db) + (db.active - Live(db));
    assert db.active - Live(db) == {};
    assert db.active * Live(db) == db.active;
  }

  lemma IdleLeaveKeepsFilled(db: Db, sid: Sid)
    requires Filled(db) && sid !in db.active
    ensures Filled(Leave(db, sid))
  {
    assert db.active - {sid} == db.active;
  }

  /** The requests that do not refill neither free a slot nor let anybody queue before a free one. */
  lemma OthersKeepFilled(db: Db, r: Request)
    requires Filled(db) && RefillsFrom(db, r).None?
    ensures Filled(Serve(db, r))
  {
    match r
    case Visit(sid, atRoot, stamp) => VisitKeepsFilled(db, sid, atRoot, stamp);
    case LeaveRoom(sid, stamp) =>
      if sid != NO_SESSION {
        IdleLeaveKeepsFilled(db, sid);
      }
    case ReapTick(stamp) => IdleReapKeepsFilled(db);
    case _ =>
  }

  /** The worker's tick fills the room from any store, unless fifty dead entries block the line. */
  lemma AdmitTickFillsIff(db: Db, stamp: int)
    ensures Filled(Serve(db, AdmitTick(stamp))) <==> !exists k: nat :: Blocked(db, k)
  {
    RefillFillsIff(db, AdmitTick(stamp));
  }

  // ---- Whole runs ----

  /** Event `i` is a request whose refill gives up. */
  ghost predicate GivesUpAt(start: Db, events: seq<Event>, i: nat)
    requires i < |events|
  {
    events[i].Handle? && GivesUp(After(start, events[..i]), events[i].r)
  }

  lemma EventKeepsFilled(db: Db, e: Event)
    requires Filled(db) && (e.Handle? ==> !GivesUp(db, e.r))
    ensures Filled(Happen(db, e))
  {
    if e.Handle? {
      if RefillsFrom(db, e.r).Some? {
        RefillFillsIff(db, e.r);
      } else {
        OthersKeepFilled(db, e.r);
      }
    }
  }

  lemma {:induction false} FilledUntilGiveUp(start: Db, events: seq<Event>, n: nat)
    requires Filled(start) && n <= |events|
    requires forall i :: 0 <= i < n ==> !GivesUpAt(start, events, i)
    ensures Filled(After(start, events[..n]))
  {
    if n > 0 {
      FilledUntilGiveUp(start, events, n - 1);
      AfterOneMore(start, events, n - 1);
      assert !GivesUpAt(start, events, n - 1);
      EventKeepsFilled(After(start, events[..n - 1]), events[n - 1]);
    }
  }

  lemma GiveUpLeavesASlot(start: Db, events: seq<Event>, i: nat)
    requires i < |events| && GivesUpAt(start, events, i)
    ensures !Filled(After(start, events[..i + 1]))
  {
    AfterOneMore(start, events, i);
    RefillFillsIff(After(start, events[..i]), events[i].r);
  }

  /** No slot is free while somebody waits, at any moment of the run. */
  ghost predicate AlwaysFilled(start: Db, events: seq<Event>) {
    forall i :: 0 <= i <= |events| ==> Filled(After(start, events[..i]))
  }

  /** Over whole runs, whatever has expired: no slot is ever free while somebody waits exactly when no refill gives up. */
  lemma FilledThroughoutIff(start: Db, events: seq<Event>)
    requires Filled(start)
    ensures AlwaysFilled(start, events) <==> forall i :: 0 <= i < |events| ==> !GivesUpAt(start, events, i)
  {
    if AlwaysFilled(start, events) {
      forall i | 0 <= i < |events| ensures !GivesUpAt(start, events, i) {
        assert Filled(After(start, events[..i + 1]));
        if GivesUpAt(start, events, i) {
          GiveUpLeavesASlot(start, events, i);
        }
      }
    }
    if forall i :: 0 <= i < |events| ==> !GivesUpAt(start, events, i) {
      forall i | 0 <= i <= |events| ensures Filled(After(start, events[..i])) {
        FilledUntilGiveUp(start, events, i);
      }
    }
  }

  /** A visitor takes a free slot past a line that somebody else heads. */
  predicate PassesTheLine(db: Db, e: Event) {
    && e.Handle? && e.r.Visit? && e.r.atRoot
    && !Full(db) && e.r.sid !in db.active
    && db.queue != [] && db.queue[0] != e.r.sid
  }

  /** Such a visitor does get in. */
  lemma PasserIsAdmitted(db: Db, e: Event)
    requires PassesTheLine(db, e)
    ensures e.r.sid in Happen(db, e).active && Happen(db, e).queue == db.queue
  {}

  /** It happens only after some refill gave up. */
  lemma PassedOnlyAfterGiveUp(clock: int, capacity: Option<int>, events: seq<Event>, n: nat) returns (i: nat)
    requires n < |events| && PassesTheLine(After(Empty(clock, capacity), events[..n]), events[n])
    ensures i < n && GivesUpAt(Empty(clock, capacity), events, i)
  {
    var start := Empty(clock, capacity);
    if forall j :: 0 <= j < n ==> !GivesUpAt(start, events, j) {
      FilledUntilGiveUp(start, events, n);
      assert false;
    }
    i :| 0 <= i < n && GivesUpAt(start, events, i);
  }
}
