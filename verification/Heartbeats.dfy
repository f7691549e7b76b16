/**
  The heartbeat keys over whole serial runs against the log of the requests that wrote
  them, and the reaper's timing. Nothing here depends on session hashes being alive.
 */
module Heartbeats {
  import opened Lists
  import opened RedisModel
  import opened Requests
  import opened Admission
  import opened Interleavings
  import opened SerialRuns

  const REAPER_PERIOD := 5_000

  // ---- One request ----

  /** The sessions whose heartbeat key a request writes, by itself or by admitting them. */
  function Written(db: Db, r: Request): set<Sid> {
    match r
    case Visit(sid, atRoot, _) => if atRoot && !Admitted(db, sid) then {sid} else {}
    case QueuePage(sid) => if sid == NO_SESSION || Admitted(db, sid) then {} else {sid}
    case PollPosition(_) => {}
    case Ping(sid) => if sid == NO_SESSION || StatusOf(db, sid).None? then {} else {sid}
    case LeaveRoom(sid, stamp) =>
      if sid == NO_SESSION || sid !in db.active then {} else Elems(AdmitPending(Leave(db, sid), stamp).1)
    case ChangeCapacity(n, stamp) => if n <= 0 then {} else Elems(AdmitPending(SetCapacity(db, n), stamp).1)
    case ReleaseSlots(victims, stamp) => Elems(AdmitPending(Release(db, victims), stamp).1)
    case AdmitTick(stamp) => Elems(AdmitPending(db, stamp).1)
    case ReapTick(stamp) => if Evicted(db) > 0 then Elems(AdmitPending(Reap(db), stamp).1) else {}
  }

  /** Those who leave by a request, or whom an administrator throws out. */
  function TakenOut(r: Request): set<Sid> {
    match r
    case LeaveRoom(sid, _) => {sid}
    case ReleaseSlots(victims, _) => victims
    case _ => {}
  }

  /** The keys of `written` are set anew, those of `gone` may go, the others stay. */
  ghost predicate KeysMove(db: Db, written: set<Sid>, gone: set<Sid>, after: Db) {
    && after.clock == db.clock
    && (forall sid :: sid in written ==>
          sid in after.heartbeats && after.heartbeats[sid] == db.clock + HEARTBEAT_TTL)
    && (forall sid :: sid in after.heartbeats && sid !in written ==>
          sid in db.heartbeats && after.heartbeats[sid] == db.heartbeats[sid])
    && (forall sid :: sid in db.heartbeats && sid !in gone ==> sid in after.heartbeats)
  }

  /** Whoever is inside or waiting afterwards was so before, or has just been given a key. */
  ghost predicate NoStrangers(db: Db, written: set<Sid>, after: Db) {
    forall sid: Sid :: Member(after, sid) ==> Member(db, sid) || sid in written
  }

  /** A refill writes the keys of those it admits, and admits only who was waiting. */
  lemma RefillKeys(db: Db, stamp: int)
    ensures var (last, admitted) := AdmitPending(db, stamp);
      KeysMove(db, Elems(admitted), {}, last) && NoStrangers(db, {}, last)
  {
    var (last, admitted) := AdmitPending(db, stamp);
    var popped := AdmitPendingMeaning(db, stamp);
    KeepMembers(popped, Hashed(db));
    assert forall sid :: sid in popped || sid in last.queue ==> sid in db.queue;
  }

  lemma ThenRefill(db: Db, gone: set<Sid>, mid: Db, stamp: int)
    requires KeysMove(db, {}, gone, mid) && NoStrangers(db, {}, mid)
    ensures var (last, admitted) := AdmitPending(mid, stamp);
      KeysMove(db, Elems(admitted), gone, last) && NoStrangers(db, {}, last) && NoStrangers(mid, {}, last)
  {
    RefillKeys(mid, stamp);
  }

  lemma LeaveKeys(db: Db, sid: Sid)
    ensures KeysMove(db, {}, {sid}, Leave(db, sid)) && NoStrangers(db, {}, Leave(db, sid))
  {
    RemoveFirstKeepsOthers(db.queue, sid);
  }

  lemma ReapKeys(db: Db)
    ensures KeysMove(db, {}, {}, Reap(db)) && NoStrangers(db, {}, Reap(db))
    ensures forall sid: Sid :: Member(Reap(db), sid) ==> sid in Live(db)
  {
    KeepMembers(db.queue, Live(db));
  }

  /** What the reaper's turn means for the sessions: only the live are left. */
  lemma ReapTickKeys(db: Db, stamp: int)
    ensures var after, written := ServeReap(db, stamp), Written(db, ReapTick(stamp));
      && KeysMove(db, written, {}, after) && NoStrangers(db, {}, after)
      && forall sid: Sid :: Member(after, sid) ==> sid in Live(db)
  {
    ReapKeys(db);
    ThenRefill(db, {}, Reap(db), stamp);
  }

  lemma LeaveRoomKeys(db: Db, sid: Sid, stamp: int)
    ensures var after, written := Serve(db, LeaveRoom(sid, stamp)), Written(db, LeaveRoom(sid, stamp));
      KeysMove(db, written, {sid}, after) && NoStrangers(db, {}, after)
  {
    LeaveKeys(db, sid);
    ThenRefill(db, {sid}, Leave(db, sid), stamp);
  }

  lemma VisitKeys(db: Db, sid: Sid, atRoot: bool, stamp: int)
    ensures var after, written := ServeVisit(db, sid, atRoot, stamp), Written(db, Visit(sid, atRoot, stamp));
      KeysMove(db, written, {}, after) && NoStrangers(db, written, after)
  {}

  /** Every request from every store. */
  lemma ServeKeys(db: Db, r: Request)
    ensures KeysMove(db, Written(db, r), TakenOut(r), Serve(db, r))
    ensures NoStrangers(db, Written(db, r), Serve(db, r))
    ensures r.ReapTick? ==> forall sid: Sid :: Member(Serve(db, r), sid) ==> sid in Live(db)
  {
    match r
    case Visit(sid, atRoot, stamp) => VisitKeys(db, sid, atRoot, stamp);
    case LeaveRoom(sid, stamp) => LeaveRoomKeys(db, sid, stamp);
    case ChangeCapacity(n, stamp) => ThenRefill(db, {}, SetCapacity(db, n), stamp);
    case ReleaseSlots(victims, stamp) => ThenRefill(db, victims, Release(db, victims), stamp);
    case AdmitTick(stamp) => ThenRefill(db, {}, db, stamp);
    case ReapTick(stamp) => ReapTickKeys(db, stamp);
    case _ =>
  }

  // ---- Whole runs ----

  /** The sessions whose heartbeat key an event writes. */
  function WrittenBy(db: Db, e: Event): set<Sid> { if e.Handle? then Written(db, e.r) else {} }

  predicate IsReap(e: Event) { e.Handle? && e.r.ReapTick? }

  /** When the reaper last ran; the worker starts with the run. */
  function LastReap(start: Db, events: seq<Event>): int {
    if events == [] then start.clock else
      var n := |events| - 1;
      if IsReap(events[n]) then After(start, events[..n]).clock else LastReap(start, events[..n])
  }

  /** When a session was last refreshed: the log's answer, not the store's. */
  function LastRefresh(start: Db, events: seq<Event>, sid: Sid): Option<int> {
    if events == [] then None else
      var n := |events| - 1;
      var before := After(start, events[..n]);
      if sid in WrittenBy(before, events[n]) then Some(before.clock) else LastRefresh(start, events[..n], sid)
  }

  /** A key on record is the last refresh plus 30 seconds, and the reaper has passed nobody by who was silent longer. */
  ghost predicate Heard(db: Db, last: Option<int>, reaped: int, sid: Sid) {
    && reaped <= db.clock
    && (sid in db.heartbeats ==> last.Some? && db.heartbeats[sid] == last.value + 30_000)
    && (Member(db, sid) ==> last.Some? && reaped <= last.value + 30_000)
  }

  lemma HappenKeepsTime(db: Db, e: Event)
    ensures db.clock <= Happen(db, e).clock
  {
    if e.Handle? {
      ServeKeys(db, e.r);
    }
  }

  lemma StillHeard(db: Db, e: Event, last: Option<int>, reaped: int, sid: Sid)
    requires Heard(db, last, reaped, sid)
    ensures Heard(Happen(db, e),
                  if sid in WrittenBy(db, e) then Some(db.clock) else last,
                  if IsReap(e) then db.clock else reaped,
                  sid)
  {
    if e.Handle? {
      ServeKeys(db, e.r);
    }
  }

  /** In every state of every serial run, expired hashes or not, the keys are what the log says. */
  lemma {:induction false} KeysRecordRefreshes(clock: int, capacity: Option<int>, events: seq<Event>, sid: Sid)
    ensures var start := Empty(clock, capacity);
      Heard(After(start, events), LastRefresh(start, events, sid), LastReap(start, events), sid)
  {
    var start := Empty(clock, capacity);
    if events != [] {
      var n := |events| - 1;
      KeysRecordRefreshes(clock, capacity, events[..n], sid);
      StillHeard(After(start, events[..n]), events[n],
                 LastRefresh(start, events[..n], sid), LastReap(start, events[..n]), sid);
    }
  }

  /**
    When the reaper runs at least every five seconds, nobody is inside or waiting
    more than 35 seconds after the last refresh.
   */
  lemma SilentAreGone(clock: int, capacity: Option<int>, events: seq<Event>, sid: Sid)
    requires var start := Empty(clock, capacity);
      After(start, events).clock - LastReap(start, events) <= 5_000
    requires Member(After(Empty(clock, capacity), events), sid)
    ensures var start := Empty(clock, capacity);
      var last := LastRefresh(start, events, sid);
      last.Some? && After(start, events).clock <= last.value + 35_000
  {
    KeysRecordRefreshes(clock, capacity, events, sid);
  }

  lemma AfterOneMore(start: Db, events: seq<Event>, k: nat)
    requires k < |events|
    ensures After(start, events[..k + 1]) == Happen(After(start, events[..k]), events[k])
  {
    assert events[..k + 1][..k] == events[..k];
  }

  /** The key holds until 30 seconds after `since` at least. */
  ghost predicate Lasting(db: Db, sid: Sid, since: int) {
    sid in db.heartbeats && since + HEARTBEAT_TTL <= db.heartbeats[sid] && since <= db.clock
  }

  lemma StillLasting(db: Db, e: Event, sid: Sid, since: int)
    requires Lasting(db, sid, since) && (e.Handle? ==> sid !in TakenOut(e.r))
    ensures Lasting(Happen(db, e), sid, since)
  {
    if e.Handle? {
      ServeKeys(db, e.r);
    }
  }

  lemma {:induction false} KeyLasts(start: Db, events: seq<Event>, m: nat, n: nat, sid: Sid, since: int)
    requires m <= n <= |events| && Lasting(After(start, events[..m]), sid, since)
    requires forall i :: m <= i < n && events[i].Handle? ==> sid !in TakenOut(events[i].r)
    ensures Lasting(After(start, events[..n]), sid, since)
  {
    if m < n {
      KeyLasts(start, events, m, n - 1, sid, since);
      AfterOneMore(start, events, n - 1);
      StillLasting(After(start, events[..n - 1]), events[n - 1], sid, since);
    }
  }

  lemma WrittenLasts(db: Db, e: Event, sid: Sid)
    requires sid in WrittenBy(db, e)
    ensures Lasting(Happen(db, e), sid, db.clock)
  {
    ServeKeys(db, e.r);
  }

  /** The reaper leaves the places and the hash of a live session alone. */
  lemma LiveAreSpared(db: Db, sid: Sid)
    requires sid in Live(db)
    ensures sid in Reap(db).active <==> sid in db.active
    ensures Count(Reap(db).queue, sid) == Count(db.queue, sid)
    ensures sid in Reap(db).sessions <==> sid in db.sessions
  {
    FirstIndexAfterKeep(db.queue, Live(db), sid);
  }

  /**
    From any store, over any run: a session whose key was written at most 30 seconds ago
    and that has neither left nor been released since is not touched by the reaper.
   */
  lemma NeverReaped(start: Db, events: seq<Event>, m: nat, n: nat, sid: Sid)
    requires m < n <= |events| && sid in WrittenBy(After(start, events[..m]), events[m])
    requires forall i :: m < i < n && events[i].Handle? ==> sid !in TakenOut(events[i].r)
    requires After(start, events[..n]).clock <= After(start, events[..m]).clock + 30_000
    ensures var db := After(start, events[..n]);
      && sid in Live(db)
      && (sid in Reap(db).active <==> sid in db.active)
      && Count(Reap(db).queue, sid) == Count(db.queue, sid)
      && (sid in Reap(db).sessions <==> sid in db.sessions)
  {
    var since := After(start, events[..m]).clock;
    WrittenLasts(After(start, events[..m]), events[m], sid);
    AfterOneMore(start, events, m);
    KeyLasts(start, events, m + 1, n, sid, since);
    LiveAreSpared(After(start, events[..n]), sid);
  }
}
