/**
  Whole runs in which requests, worker ticks and the passing of time follow one
  another, each taken whole: the waiting room's strong guarantees.
 */
module SerialRuns {
  import opened Lists
  import opened RedisModel
  import opened Requests
  import opened Admission
  import opened Interleavings

  datatype Event = Handle(r: Request) | Wait(ms: nat)

  function Happen(db: Db, e: Event): Db {
    match e
    case Handle(r) => Serve(db, r)
    case Wait(ms) => Advance(db, ms)
  }

  /** The store after a sequence of events. */
  function After(start: Db, events: seq<Event>): Db {
    if events == [] then start
    else Happen(After(start, events[..|events| - 1]), events[|events| - 1])
  }

  /** Hashes, active set and queue tell the same story. */
  ghost predicate Agreement(db: Db) {
    && (forall sid: Sid :: sid in db.active <==> StatusOf(db, sid) == Some(Active))
    && (forall sid: Sid :: sid in db.queue <==> StatusOf(db, sid) == Some(Queued))
    && NoDup(db.queue)
  }

  /** No slot is free while somebody waits. */
  ghost predicate Filled(db: Db) { Full(db) || db.queue == [] }

  predicate Member(db: Db, sid: Sid) { sid in db.active || sid in db.queue }

  /** Everybody inside or waiting has been given a heartbeat key. */
  ghost predicate Beating(db: Db) {
    forall sid: Sid :: Member(db, sid) ==> sid in db.heartbeats
  }

  /** No session hash has outlived its 24 hours. */
  ghost predicate Current(db: Db) {
    forall sid :: sid in db.sessions ==> db.clock <= db.sessions[sid].expiresAt
  }

  /** Everything but `Filled`: what each single eviction keeps. */
  ghost predicate Orderly(db: Db) { Agreement(db) && Beating(db) && Current(db) }

  ghost predicate Invariant(db: Db) { Orderly(db) && Filled(db) }

  // ---- Single operations ----

  lemma OrderlyIsClean(db: Db)
    requires Orderly(db)
    ensures CleanQueue(db)
  {}

  /** After an admission, the admitted sessions have moved from queue to active set. */
  lemma AdmitsKeepsOrderly(db: Db, stamp: int, admitted: seq<Sid>, last: Db)
    requires Orderly(db) && db.queue == admitted + last.queue && Admits(db, stamp, admitted, last)
    ensures Orderly(last)
  {
    var moved := Elems(admitted);
    assert forall sid :: sid in db.queue <==> sid in moved || sid in last.queue;
    assert NoDup(last.queue) && moved !! Elems(last.queue) by {
      SplitNoDup(admitted, last.queue);
    }
    forall sid: Sid
      ensures StatusOf(last, sid) == if sid in moved then Some(Active) else StatusOf(db, sid)
    {
      if sid in moved {
        assert sid in db.queue;
        assert StatusOf(db, sid) == Some(Queued);
      }
    }
  }

  lemma SplitNoDup<T(!new)>(a: seq<T>, b: seq<T>)
    requires NoDup(a + b)
    ensures NoDup(a) && NoDup(b) && Elems(a) !! Elems(b)
  {
    var s := a + b;
    assert forall i :: 0 <= i < |a| ==> s[i] == a[i];
    assert forall i :: 0 <= i < |b| ==> s[|a| + i] == b[i];
  }

  /** Filling the room makes a merely orderly store good again. */
  lemma RefillRestores(db: Db, stamp: int)
    requires Orderly(db)
    ensures var (last, admitted) := AdmitPending(db, stamp);
      && Invariant(last)
      && db.queue == admitted + last.queue
      && Admits(db, stamp, admitted, last)
  {
    OrderlyIsClean(db);
    FillsExactly(db, stamp);
    var (last, admitted) := AdmitPending(db, stamp);
    AdmitsKeepsOrderly(db, stamp, admitted, last);
  }

  /** Forgetting a set of sessions everywhere at once, their heartbeats apart. */
  function Forget(db: Db, gone: set<Sid>): Db {
    db.(active := db.active - gone,
        queue := Keep(db.queue, Elems(db.queue) - gone),
        sessions := db.sessions - gone)
  }

  lemma ForgetKeepsOrderly(db: Db, gone: set<Sid>)
    requires Orderly(db)
    ensures Orderly(Forget(db, gone))
    ensures forall sid: Sid :: Member(Forget(db, gone), sid) <==> Member(db, sid) && sid !in gone
  {
    var after := Forget(db, gone);
    KeepMembers(db.queue, Elems(db.queue) - gone);
    KeepNoDup(db.queue, Elems(db.queue) - gone);
    forall sid: Sid
      ensures StatusOf(after, sid) == if sid in gone then None else StatusOf(db, sid)
    {}
  }

  /** In an orderly store each eviction forgets exactly the sessions it names. */
  lemma LeaveForgets(db: Db, sid: Sid)
    requires Orderly(db)
    ensures Leave(db, sid) == Forget(db, {sid}).(heartbeats := db.heartbeats - {sid})
  {
    if sid in db.active {
      assert StatusOf(db, sid) == Some(Active);
      assert Elems(db.queue) - {sid} == Elems(db.queue);
      KeepAll(db.queue, Elems(db.queue));
    } else {
      RemoveFirstNoDup(db.queue, sid);
    }
  }

  lemma ReleaseForgets(db: Db, victims: set<Sid>)
    requires Orderly(db)
    ensures Release(db, victims) == Forget(db, victims * db.active).(heartbeats := db.heartbeats - victims * db.active)
  {
    OrderlyIsClean(db);
    assert Elems(db.queue) - victims * db.active == Elems(db.queue);
    KeepAll(db.queue, Elems(db.queue));
  }

  /** The members whose heartbeat key has expired. */
  function Silent(db: Db): set<Sid> { (db.active + Elems(db.queue)) - Live(db) }

  lemma ReapForgets(db: Db)
    requires Orderly(db)
    ensures Reap(db) == Forget(db, Silent(db))
    ensures Evicted(db) > 0 <==> Silent(db) != {}
  {
    var live := Live(db);
    assert db.active - Silent(db) == db.active * live;
    KeepExtensional(db.queue, live, Elems(db.queue) - Silent(db));
    KeepMembers(db.queue, live);
    KeepAll(db.queue, live);
    assert Silent(db) == (db.active - live) + (Elems(db.queue) - live);
  }

  // ---- What one request does to the line ----

  /** The sessions a request takes out of the room or the line. */
  function Removes(db: Db, r: Request): set<Sid> {
    match r
    case LeaveRoom(sid, _) => if sid == NO_SESSION then {} else {sid}
    case ReleaseSlots(victims, _) => victims * db.active
    case ReapTick(_) => Silent(db)
    case _ => {}
  }

  datatype Effect =
    | Entered(sid: Sid)              // straight into an empty line's free slot
    | Joined(sid: Sid)               // to the end of the line
    | Moved(admitted: seq<Sid>)      // the head of the line into the room

  /** The three things that can happen to room and line. */
  ghost predicate EffectOf(db: Db, gone: set<Sid>, e: Effect, after: Db) {
    match e
    case Entered(sid) =>
      gone == {} && db.queue == [] && after.queue == [] && after.active == db.active + {sid}
    case Joined(sid) =>
      gone == {} && !Member(db, sid) && after.queue == db.queue + [sid] && after.active == db.active
    case Moved(admitted) =>
      && Keep(db.queue, Elems(db.queue) - gone) == admitted + after.queue
      && after.active == db.active - gone + Elems(admitted)
  }

  lemma FilledNeedsNoRefill(db: Db, stamp: int)
    requires Filled(db)
    ensures AdmitPending(db, stamp) == (db, [])
  {}

  /** Taking some sessions out and refilling the room from the head of the line. */
  lemma RefillEffect(db: Db, mid: Db, gone: set<Sid>, stamp: int) returns (e: Effect)
    requires Orderly(db) && Orderly(mid)
    requires mid.active == db.active - gone && mid.queue == Keep(db.queue, Elems(db.queue) - gone)
    ensures var after := AdmitPending(mid, stamp).0;
      Invariant(after) && EffectOf(db, gone, e, after)
  {
    RefillRestores(mid, stamp);
    e := Moved(AdmitPending(mid, stamp).1);
  }

  lemma RefreshKeepsInvariant(db: Db, sid: Sid)
    requires Invariant(db)
    ensures Invariant(SetHeartbeat(db, sid))
  {}

  /** With a free slot the line is empty, so a visitor enters without passing anybody. */
  lemma EnterEffect(db: Db, sid: Sid, stamp: int)
    requires Invariant(db) && !Full(db) && StatusOf(db, sid) != Some(Active)
    ensures var after := SetHeartbeat(TryAdmit(db, sid, stamp), sid);
      Invariant(after) && EffectOf(db, {}, Entered(sid), after)
  {}

  lemma JoinEffect(db: Db, sid: Sid) returns (e: Effect)
    requires Invariant(db) && Full(db) && StatusOf(db, sid) != Some(Active)
    ensures var after := SetHeartbeat(JoinQueue(db, sid), sid);
      Invariant(after) && EffectOf(db, {}, e, after)
  {
    var after := SetHeartbeat(JoinQueue(db, sid), sid);
    if StatusOf(db, sid).Some? {
      RefreshKeepsInvariant(db, sid);
      e := NothingMoved(db, after);
    } else {
      e := Joined(sid);
      forall x: Sid
        ensures StatusOf(after, x) == if x == sid then Some(Queued) else StatusOf(db, x)
      {}
    }
  }

  lemma NothingMoved(db: Db, after: Db) returns (e: Effect)
    requires after.active == db.active && after.queue == db.queue
    ensures EffectOf(db, {}, e, after)
  {
    e := Moved([]);
    assert Elems(db.queue) - {} == Elems(db.queue);
    KeepAll(db.queue, Elems(db.queue));
    assert Elems<Sid>([]) == {};
  }

  lemma AgreementIsBacked(db: Db)
    requires Agreement(db)
    ensures StatusBacked(db)
  {}

  /** The gate's recovery branch does not fire while every active hash has its slot. */
  lemma RecoveryIsDead(db: Db, sid: Sid)
    requires StatusBacked(db)
    ensures Recover(db, sid) == db
    ensures Admitted(db, sid) <==> StatusOf(db, sid) == Some(Active)
  {}

  ghost predicate Served(db: Db, r: Request, e: Effect, after: Db) {
    Invariant(after) && EffectOf(db, Removes(db, r), e, after)
  }

  lemma VisitEffect(db: Db, r: Request) returns (e: Effect)
    requires Invariant(db) && r.Visit?
    ensures Served(db, r, e, Serve(db, r))
  {
    AgreementIsBacked(db);
    RecoveryIsDead(db, r.sid);
    if Admitted(db, r.sid) || !r.atRoot {
      e := NothingMoved(db, db);
    } else if Full(db) {
      e := JoinEffect(db, r.sid);
    } else {
      EnterEffect(db, r.sid, r.stamp);
      e := Entered(r.sid);
    }
  }

  /** Taking sessions out, with or without their heartbeats, and refilling. */
  lemma ForgetEffect(db: Db, gone: set<Sid>, mid: Db, stamp: int) returns (e: Effect)
    requires Invariant(db)
    requires mid == Forget(db, gone).(heartbeats := mid.heartbeats)
    requires forall sid :: sid in db.heartbeats && sid !in gone ==> sid in mid.heartbeats
    ensures var after := AdmitPending(mid, stamp).0;
      Invariant(after) && EffectOf(db, gone, e, after)
  {
    ForgetKeepsOrderly(db, gone);
    assert forall sid: Sid :: StatusOf(mid, sid) == StatusOf(Forget(db, gone), sid);
    e := RefillEffect(db, mid, gone, stamp);
  }

  lemma LeaveEffect(db: Db, sid: Sid, stamp: int) returns (e: Effect)
    requires Invariant(db)
    ensures var after := ServeLeave(db, sid, stamp);
      Invariant(after) && EffectOf(db, {sid}, e, after)
  {
    LeaveForgets(db, sid);
    var mid := Leave(db, sid);
    if sid !in db.active {
      KeepMembers(db.queue, Elems(db.queue) - {sid});
      assert mid.active == db.active;
      assert db.queue == [] ==> mid.queue == [];
      FilledNeedsNoRefill(mid, stamp);
    }
    e := ForgetEffect(db, {sid}, mid, stamp);
  }

  lemma ReleaseEffect(db: Db, victims: set<Sid>, stamp: int) returns (e: Effect)
    requires Invariant(db)
    ensures var after := AdmitPending(Release(db, victims), stamp).0;
      Invariant(after) && EffectOf(db, victims * db.active, e, after)
  {
    ReleaseForgets(db, victims);
    e := ForgetEffect(db, victims * db.active, Release(db, victims), stamp);
  }

  lemma ReapEffect(db: Db, stamp: int) returns (e: Effect)
    requires Invariant(db)
    ensures var after := ServeReap(db, stamp);
      Invariant(after) && EffectOf(db, Silent(db), e, after)
  {
    ReapForgets(db);
    var mid := Reap(db);
    if Evicted(db) <= 0 {
      assert Elems(db.queue) - {} == Elems(db.queue);
      KeepAll(db.queue, Elems(db.queue));
      FilledNeedsNoRefill(mid, stamp);
    }
    e := ForgetEffect(db, Silent(db), mid, stamp);
  }

  lemma CapacityEffect(db: Db, mid: Db, stamp: int) returns (e: Effect)
    requires Invariant(db) && mid == db.(capacity := mid.capacity)
    ensures var after := AdmitPending(mid, stamp).0;
      Invariant(after) && EffectOf(db, {}, e, after)
  {
    assert Elems(db.queue) - {} == Elems(db.queue);
    KeepAll(db.queue, Elems(db.queue));
    assert forall sid: Sid :: StatusOf(mid, sid) == StatusOf(db, sid);
    e := RefillEffect(db, mid, {}, stamp);
  }

  /** The requests that touch at most a heartbeat. */
  lemma PageEffect(db: Db, r: Request) returns (e: Effect)
    requires Invariant(db) && (r.QueuePage? || r.PollPosition? || r.Ping?)
    ensures Served(db, r, e, Serve(db, r))
  {
    AgreementIsBacked(db);
    RecoveryIsDead(db, r.sid);
    assert Serve(db, r) == db || Serve(db, r) == SetHeartbeat(db, r.sid);
    RefreshKeepsInvariant(db, r.sid);
    e := NothingMoved(db, Serve(db, r));
  }

  /** Leaving. */
  lemma LeaveRoomEffect(db: Db, r: Request) returns (e: Effect)
    requires Invariant(db) && r.LeaveRoom?
    ensures Served(db, r, e, Serve(db, r))
  {
    OrderlyIsClean(db);
    if r.sid == NO_SESSION {
      assert Serve(db, r) == db && Removes(db, r) == {};
      e := NothingMoved(db, db);
    } else {
      assert Serve(db, r) == ServeLeave(db, r.sid, r.stamp) && Removes(db, r) == {r.sid};
      e := LeaveEffect(db, r.sid, r.stamp);
    }
  }

  /** Changing the capacity. */
  lemma ChangeCapacityEffect(db: Db, r: Request) returns (e: Effect)
    requires Invariant(db) && r.ChangeCapacity?
    ensures Served(db, r, e, Serve(db, r))
  {
    OrderlyIsClean(db);
    if r.n <= 0 {
      assert Serve(db, r) == db && Removes(db, r) == {};
      e := NothingMoved(db, db);
    } else {
      assert Serve(db, r) == AdmitPending(SetCapacity(db, r.n), r.stamp).0 && Removes(db, r) == {};
      e := CapacityEffect(db, SetCapacity(db, r.n), r.stamp);
    }
  }

  /** The administrator's release. */
  lemma ReleaseSlotsEffect(db: Db, r: Request) returns (e: Effect)
    requires Invariant(db) && r.ReleaseSlots?
    ensures Served(db, r, e, Serve(db, r))
  {
    assert Serve(db, r) == AdmitPending(Release(db, r.victims), r.stamp).0;
    assert Removes(db, r) == r.victims * db.active;
    e := ReleaseEffect(db, r.victims, r.stamp);
  }

  /** The worker's two ticks. */
  lemma AdmitTickEffect(db: Db, r: Request) returns (e: Effect)
    requires Invariant(db) && r.AdmitTick?
    ensures Served(db, r, e, Serve(db, r))
  {
    assert Serve(db, r) == AdmitPending(db, r.stamp).0 && Removes(db, r) == {};
    e := CapacityEffect(db, db, r.stamp);
  }

  lemma ReapTickEffect(db: Db, r: Request) returns (e: Effect)
    requires Invariant(db) && r.ReapTick?
    ensures Served(db, r, e, Serve(db, r))
  {
    assert Serve(db, r) == ServeReap(db, r.stamp) && Removes(db, r) == Silent(db);
    e := ReapEffect(db, r.stamp);
  }

  /** Every request keeps the invariant, and its effect on room and line is one of three. */
  lemma ServeEffect(db: Db, r: Request) returns (e: Effect)
    requires Invariant(db)
    ensures Served(db, r, e, Serve(db, r))
  {
    if r.Visit? {
      e := VisitEffect(db, r);
    } else if r.QueuePage? || r.PollPosition? || r.Ping? {
      e := PageEffect(db, r);
    } else if r.LeaveRoom? {
      e := LeaveRoomEffect(db, r);
    } else if r.ChangeCapacity? {
      e := ChangeCapacityEffect(db, r);
    } else if r.ReleaseSlots? {
      e := ReleaseSlotsEffect(db, r);
    } else if r.AdmitTick? {
      e := AdmitTickEffect(db, r);
    } else {
      e := ReapTickEffect(db, r);
    }
  }

  // ---- The recovery branches ----

  lemma {:induction false} PendingKeepsBacked(db: Db, stamp: int)
    requires StatusBacked(db)
    ensures StatusBacked(AdmitPending(db, stamp).0)
    decreases |db.queue|
  {
    AdmitNextKeepsBacked(db, stamp);
    PendingTurn(db, stamp);
    var (next, popped) := AdmitNext(db, stamp);
    if popped.Some? {
      AdmitNextShrinks(db, stamp);
      StepKeepsBacked(next, CmdSetHeartbeat(popped.value));
      PendingKeepsBacked(SetHeartbeat(next, popped.value), stamp);
    }
  }

  lemma VisitKeepsBacked(db: Db, sid: Sid, atRoot: bool, stamp: int)
    requires StatusBacked(db)
    ensures StatusBacked(ServeVisit(db, sid, atRoot, stamp))
  {
    RecoveryIsDead(db, sid);
    StepKeepsBacked(db, CmdTryAdmit(sid, stamp));
    StepKeepsBacked(TryAdmit(db, sid, stamp), CmdSetHeartbeat(sid));
    StepKeepsBacked(db, CmdJoinQueue(sid));
    StepKeepsBacked(JoinQueue(db, sid), CmdSetHeartbeat(sid));
  }

  lemma LeaveKeepsBacked(db: Db, sid: Sid, stamp: int)
    requires StatusBacked(db)
    ensures StatusBacked(ServeLeave(db, sid, stamp))
  {
    StepKeepsBacked(db, CmdLeave(sid));
    PendingKeepsBacked(Leave(db, sid), stamp);
  }

  lemma ReapTickKeepsBacked(db: Db, stamp: int)
    requires StatusBacked(db)
    ensures StatusBacked(ServeReap(db, stamp))
  {
    StepKeepsBacked(db, CmdReap);
    PendingKeepsBacked(Reap(db), stamp);
  }

  lemma RefillKeepsBacked(db: Db, r: Request)
    requires StatusBacked(db) && (r.ChangeCapacity? || r.ReleaseSlots? || r.AdmitTick?)
    ensures StatusBacked(Serve(db, r))
  {
    match r
    case ChangeCapacity(n, stamp) =>
      StepKeepsBacked(db, CmdSetCapacity(n));
      PendingKeepsBacked(SetCapacity(db, n), stamp);
    case ReleaseSlots(victims, stamp) =>
      StepKeepsBacked(db, CmdRelease(victims));
      PendingKeepsBacked(Release(db, victims), stamp);
    case AdmitTick(stamp) => PendingKeepsBacked(db, stamp);
  }

  lemma PageKeepsBacked(db: Db, r: Request)
    requires StatusBacked(db) && (r.QueuePage? || r.PollPosition? || r.Ping?)
    ensures StatusBacked(Serve(db, r))
  {
    RecoveryIsDead(db, r.sid);
    StepKeepsBacked(db, CmdSetHeartbeat(r.sid));
  }

  /** Whatever has expired, a request leaves every hash that says active with its slot. */
  lemma ServeKeepsBacked(db: Db, r: Request)
    requires StatusBacked(db)
    ensures StatusBacked(Serve(db, r))
  {
    if r.Visit? {
      VisitKeepsBacked(db, r.sid, r.atRoot, r.stamp);
      assert Serve(db, r) == ServeVisit(db, r.sid, r.atRoot, r.stamp);
    } else if r.LeaveRoom? {
      LeaveKeepsBacked(db, r.sid, r.stamp);
    } else if r.ReapTick? {
      ReapTickKeepsBacked(db, r.stamp);
    } else if r.ChangeCapacity? || r.ReleaseSlots? || r.AdmitTick? {
      RefillKeepsBacked(db, r);
    } else {
      PageKeepsBacked(db, r);
    }
  }

  lemma {:induction false} RunsAreBacked(start: Db, events: seq<Event>)
    requires StatusBacked(start)
    ensures StatusBacked(After(start, events))
  {
    if events != [] {
      var n := |events| - 1;
      RunsAreBacked(start, events[..n]);
      match events[n] {
        case Handle(r) => ServeKeepsBacked(After(start, events[..n]), r);
        case Wait(ms) => StepKeepsBacked(After(start, events[..n]), CmdAdvance(ms));
      }
    }
  }

  /** In no state of any serial run, whatever has expired, does a recovery branch fire. */
  lemma RecoveryNeverFires(clock: int, capacity: Option<int>, events: seq<Event>, sid: Sid)
    ensures var db := After(Empty(clock, capacity), events);
      Recover(db, sid) == db && (StatusOf(db, sid) == Some(Active) ==> sid in db.active)
  {
    RunsAreBacked(Empty(clock, capacity), events);
    RecoveryIsDead(After(Empty(clock, capacity), events), sid);
  }
}
