/** What whole serial runs guarantee while session hashes are alive: the invariant, strict FIFO order and staying in. */
module Fairness {
  import opened Lists
  import opened RedisModel
  import opened Requests
  import opened Admission
  import opened SerialRuns
  import opened Heartbeats

  /** No hash expires anywhere along the run. */
  ghost predicate NeverStale(start: Db, events: seq<Event>) {
    forall i :: 0 <= i <= |events| ==> Current(After(start, events[..i]))
  }

  lemma NeverStalePrefix(start: Db, events: seq<Event>, n: nat)
    requires NeverStale(start, events) && n <= |events|
    ensures NeverStale(start, events[..n])
  {
    forall i | 0 <= i <= n ensures Current(After(start, events[..n][..i])) {
      assert events[..n][..i] == events[..i];
    }
  }

  // ---- The invariant ----

  /** Waiting keeps the invariant exactly when no session hash runs out meanwhile. */
  lemma WaitKeepsInvariantIff(db: Db, ms: nat)
    requires Invariant(db)
    ensures Agreement(Advance(db, ms)) <==> Current(Advance(db, ms))
    ensures Invariant(Advance(db, ms)) <==> Current(Advance(db, ms))
  {
    var after := Advance(db, ms);
    if Current(after) {
      assert forall sid: Sid :: StatusOf(after, sid) == StatusOf(db, sid);
    } else {
      var sid :| sid in db.sessions && after.clock > db.sessions[sid].expiresAt;
      assert StatusOf(after, sid) == None;
      match db.sessions[sid].status {
        case Active => assert StatusOf(db, sid) == Some(Active);
        case Queued => assert StatusOf(db, sid) == Some(Queued);
      }
    }
  }

  /**
    What goes wrong otherwise: a session inside a full room whose hash has run out
    is put in the waiting line by its next visit while it still holds its slot.
   */
  lemma StaleVisitorQueuesWhileInside(db: Db, sid: Sid, stamp: int)
    requires sid in db.active && StatusOf(db, sid).None? && Full(db)
    ensures var after := Serve(db, Visit(sid, true, stamp));
      sid in after.active && sid in after.queue && StatusOf(after, sid) == Some(Queued)
  {}

  lemma EmptyIsGood(clock: int, capacity: Option<int>)
    ensures Invariant(Empty(clock, capacity))
  {}

  /**
    In every reachable state of every serial run: active set = sessions with status
    active, duplicate-free queue = sessions with status queued, and no slot is free
    while somebody waits.
   */
  lemma {:induction false} InvariantHolds(start: Db, events: seq<Event>)
    requires Invariant(start) && NeverStale(start, events)
    ensures Invariant(After(start, events))
  {
    if events != [] {
      var n := |events| - 1;
      NeverStalePrefix(start, events, n);
      InvariantHolds(start, events[..n]);
      assert events[..|events|] == events;
      var before := After(start, events[..n]);
      match events[n] {
        case Handle(r) => var _ := ServeEffect(before, r);
        case Wait(ms) => WaitKeepsInvariantIff(before, ms);
      }
    }
  }

  // ---- Exactly how far ----

  /** Hashes, active set and queue agree at every moment of the run. */
  ghost predicate AlwaysAgrees(start: Db, events: seq<Event>) {
    forall i :: 0 <= i <= |events| ==> Agreement(After(start, events[..i]))
  }

  lemma {:induction false} AgreementKeepsInvariant(start: Db, events: seq<Event>, n: nat)
    requires Invariant(start) && AlwaysAgrees(start, events) && n <= |events|
    ensures Invariant(After(start, events[..n]))
  {
    if n > 0 {
      AgreementKeepsInvariant(start, events, n - 1);
      AfterOneMore(start, events, n - 1);
      var before := After(start, events[..n - 1]);
      assert Agreement(After(start, events[..n]));
      match events[n - 1] {
        case Handle(r) => var _ := ServeEffect(before, r);
        case Wait(ms) => WaitKeepsInvariantIff(before, ms);
      }
    }
  }

  /** Over whole runs, hashes, set and list agree throughout exactly when no hash ever runs out. */
  lemma AgreementHoldsIff(start: Db, events: seq<Event>)
    requires Invariant(start)
    ensures AlwaysAgrees(start, events) <==> NeverStale(start, events)
  {
    if AlwaysAgrees(start, events) {
      forall i | 0 <= i <= |events| ensures Current(After(start, events[..i])) {
        AgreementKeepsInvariant(start, events, i);
      }
    }
    if NeverStale(start, events) {
      forall i | 0 <= i <= |events| ensures Agreement(After(start, events[..i])) {
        NeverStalePrefix(start, events, i);
        InvariantHolds(start, events[..i]);
      }
    }
  }

  /** A visitor of a room for one comes back a day and a millisecond later. */
  function StaleRun(): seq<Event> {
    [Handle(Visit(1, true, 0)), Wait(86_400_001), Handle(Visit(1, true, 0))]
  }

  lemma StaleRunReaches()
    ensures var start, events := Empty(0, Some(1)), StaleRun();
      var db := After(start, events[..2]);
      1 in db.active && StatusOf(db, 1).None? && Full(db)
  {
    var start, events := Empty(0, Some(1)), StaleRun();
    AfterOneMore(start, events, 0);
    AfterOneMore(start, events, 1);
    assert events[..0] == [];
    assert After(start, events[..1]) == ServeVisit(start, 1, true, 0);
  }

  /** It ends with that visitor inside and in the waiting line at once. */
  lemma StaleRunQueuesWhileInside()
    ensures var db := After(Empty(0, Some(1)), StaleRun());
      1 in db.active && 1 in db.queue && !Agreement(db)
  {
    StaleRunReaches();
    AfterOneMore(Empty(0, Some(1)), StaleRun(), 2);
    assert StaleRun()[..3] == StaleRun();
    StaleVisitorQueuesWhileInside(After(Empty(0, Some(1)), StaleRun()[..2]), 1, 0);
  }

  // ---- When no hash runs out ----

  /** No session hash on record expires before `t`. */
  ghost predicate ExpireFrom(sessions: map<Sid, Session>, t: int) {
    forall sid :: sid in sessions ==> t <= sessions[sid].expiresAt
  }

  /** Admission never shortens a session's life. */
  lemma PendingKeepsExpiry(db: Db, stamp: int, t: int)
    requires ExpireFrom(db.sessions, t)
    ensures ExpireFrom(AdmitPending(db, stamp).0.sessions, t)
  {
    var _ := AdmitPendingMeaning(db, stamp);
  }

  lemma LeaveKeepsExpiry(db: Db, sid: Sid, stamp: int, t: int)
    requires ExpireFrom(db.sessions, t)
    ensures ExpireFrom(ServeLeave(db, sid, stamp).sessions, t)
  {
    PendingKeepsExpiry(Leave(db, sid), stamp, t);
  }

  lemma ReapKeepsExpiry(db: Db, stamp: int, t: int)
    requires ExpireFrom(db.sessions, t)
    ensures ExpireFrom(ServeReap(db, stamp).sessions, t)
  {
    PendingKeepsExpiry(Reap(db), stamp, t);
  }

  lemma VisitKeepsExpiry(db: Db, sid: Sid, atRoot: bool, stamp: int, t: int)
    requires ExpireFrom(db.sessions, t) && t <= db.clock + SESSION_TTL
    ensures ExpireFrom(ServeVisit(db, sid, atRoot, stamp).sessions, t)
  {}

  lemma ServeKeepsExpiry(db: Db, r: Request, t: int)
    requires ExpireFrom(db.sessions, t) && t <= db.clock + SESSION_TTL
    ensures ExpireFrom(Serve(db, r).sessions, t)
  {
    match r
    case Visit(sid, atRoot, stamp) => VisitKeepsExpiry(db, sid, atRoot, stamp, t);
    case LeaveRoom(sid, stamp) => LeaveKeepsExpiry(db, sid, stamp, t);
    case ChangeCapacity(n, stamp) => PendingKeepsExpiry(SetCapacity(db, n), stamp, t);
    case ReleaseSlots(victims, stamp) => PendingKeepsExpiry(Release(db, victims), stamp, t);
    case AdmitTick(stamp) => PendingKeepsExpiry(db, stamp, t);
    case ReapTick(stamp) => ReapKeepsExpiry(db, stamp, t);
    case _ =>
  }

  lemma {:induction false} HashesLastADay(start: Db, events: seq<Event>)
    requires start.sessions == map[]
    ensures start.clock <= After(start, events).clock
    ensures ExpireFrom(After(start, events).sessions, start.clock + SESSION_TTL)
  {
    if events != [] {
      var n := |events| - 1;
      HashesLastADay(start, events[..n]);
      var before := After(start, events[..n]);
      HappenKeepsTime(before, events[n]);
      if events[n].Handle? {
        ServeKeepsExpiry(before, events[n].r, start.clock + SESSION_TTL);
      }
    }
  }

  /** In particular, every run that lasts at most 24 hours is free of expired hashes. */
  lemma DayLongRunsAreNeverStale(clock: int, capacity: Option<int>, events: seq<Event>)
    requires forall i :: 0 <= i <= |events| ==>
      After(Empty(clock, capacity), events[..i]).clock <= clock + 86_400_000
    ensures NeverStale(Empty(clock, capacity), events)
  {
    var start := Empty(clock, capacity);
    forall i | 0 <= i <= |events| ensures Current(After(start, events[..i])) {
      HashesLastADay(start, events[..i]);
    }
  }

  // ---- Strict FIFO ----

  /** Some occurrence of `b` stands before some occurrence of `a`. */
  ghost predicate Ahead(queue: seq<Sid>, b: Sid, a: Sid) {
    exists i, j :: 0 <= i < j < |queue| && queue[i] == b && queue[j] == a
  }

  /** `b` is neither in the room nor before `a` in the line. */
  ghost predicate Behind(db: Db, a: Sid, b: Sid) {
    b !in db.active && !Ahead(db.queue, b, a)
  }

  lemma {:induction false} KeepAhead(s: seq<Sid>, keep: set<Sid>, b: Sid, a: Sid)
    requires Ahead(Keep(s, keep), b, a)
    ensures Ahead(s, b, a)
  {
    var kept := Keep(s, keep);
    var i, j :| 0 <= i < j < |kept| && kept[i] == b && kept[j] == a;
    KeepMembers(s[1..], keep);
    if s[0] in keep && i == 0 {
      assert a in Keep(s[1..], keep) by { assert kept[j] == Keep(s[1..], keep)[j - 1]; }
      var k :| 0 <= k < |s[1..]| && s[1..][k] == a;
      assert s[0] == b && s[k + 1] == a;
    } else {
      var d := if s[0] in keep then 1 else 0;
      assert Keep(s[1..], keep)[i - d] == b && Keep(s[1..], keep)[j - d] == a;
      KeepAhead(s[1..], keep, b, a);
      var k, l :| 0 <= k < l < |s[1..]| && s[1..][k] == b && s[1..][l] == a;
      assert s[k + 1] == b && s[l + 1] == a;
    }
  }

  /** Whatever the effect, nobody gets past `a` while `a` keeps waiting. */
  lemma EffectKeepsOrder(db: Db, gone: set<Sid>, e: Effect, after: Db, a: Sid, b: Sid)
    requires EffectOf(db, gone, e, after)
    requires a in db.queue && a in after.queue && a != b
    requires Behind(db, a, b)
    ensures Behind(after, a, b)
  {
    match e
    case Entered(_) =>
    case Joined(sid) =>
    case Moved(admitted) =>
      var kept := Keep(db.queue, Elems(db.queue) - gone);
      if b in admitted {
        var i :| 0 <= i < |admitted| && admitted[i] == b;
        var j :| 0 <= j < |after.queue| && after.queue[j] == a;
        assert kept[i] == b && kept[|admitted| + j] == a;
        KeepAhead(db.queue, Elems(db.queue) - gone, b, a);
      }
      if Ahead(after.queue, b, a) {
        var i, j :| 0 <= i < j < |after.queue| && after.queue[i] == b && after.queue[j] == a;
        assert kept[|admitted| + i] == b && kept[|admitted| + j] == a;
        KeepAhead(db.queue, Elems(db.queue) - gone, b, a);
      }
  }

  /**
    No overtaking, over whole runs: from any state in which `b` is neither inside nor
    ahead of `a` (it joined later, or has not come yet), `b` is neither inside nor
    ahead of `a` for as long as `a` keeps waiting.
   */
  lemma {:induction false} NoOvertaking(start: Db, events: seq<Event>, a: Sid, b: Sid)
    requires Invariant(start) && NeverStale(start, events)
    requires a != b && Behind(start, a, b)
    requires forall i :: 0 <= i <= |events| ==> a in After(start, events[..i]).queue
    ensures Behind(After(start, events), a, b)
  {
    if events != [] {
      var n := |events| - 1;
      NeverStalePrefix(start, events, n);
      forall i | 0 <= i <= n ensures a in After(start, events[..n][..i]).queue {
        assert events[..n][..i] == events[..i];
      }
      NoOvertaking(start, events[..n], a, b);
      InvariantHolds(start, events[..n]);
      assert events[..|events|] == events;
      var before := After(start, events[..n]);
      if events[n].Handle? {
        var e := ServeEffect(before, events[n].r);
        EffectKeepsOrder(before, Removes(before, events[n].r), e, After(start, events), a, b);
      }
    }
  }

  // ---- Staying in ----

  /** At event `i` the last refresh of `sid` is at most 30 seconds ago. */
  ghost predicate InTime(start: Db, events: seq<Event>, i: nat, sid: Sid)
    requires i <= |events|
  {
    var last := LastRefresh(start, events[..i], sid);
    last.Some? && After(start, events[..i]).clock <= last.value + 30_000
  }

  /** Every reaper run from event `m` on comes in time for `sid`. */
  ghost predicate KeptAlive(start: Db, events: seq<Event>, m: nat, sid: Sid) {
    forall i {:trigger InTime(start, events, i, sid)} ::
      m <= i < |events| && IsReap(events[i]) ==> InTime(start, events, i, sid)
  }

  lemma EffectKeepsMember(db: Db, gone: set<Sid>, e: Effect, after: Db, sid: Sid)
    requires EffectOf(db, gone, e, after) && Member(db, sid) && sid !in gone
    ensures Member(after, sid)
  {
    KeepMembers(db.queue, Elems(db.queue) - gone);
    if e.Moved? && sid in db.queue {
      assert sid in e.admitted + after.queue;
    }
  }

  /** The reaper finds a session that was kept alive. */
  lemma ReaperFindsLive(clock: int, capacity: Option<int>, events: seq<Event>, m: nat, k: nat, sid: Sid)
    requires KeptAlive(Empty(clock, capacity), events, m, sid)
    requires m <= k < |events| && IsReap(events[k])
    requires var db := After(Empty(clock, capacity), events[..k]); SerialRuns.Invariant(db) && Member(db, sid)
    ensures sid in Live(After(Empty(clock, capacity), events[..k]))
  {
    assert InTime(Empty(clock, capacity), events, k, sid);
    KeysRecordRefreshes(clock, capacity, events[..k], sid);
  }

  lemma StaysOnce(db: Db, e: Event, sid: Sid)
    requires SerialRuns.Invariant(db) && Member(db, sid)
    requires e.Handle? ==> sid !in TakenOut(e.r)
    requires IsReap(e) ==> sid in Live(db)
    ensures Member(Happen(db, e), sid)
  {
    if e.Handle? {
      var effect := ServeEffect(db, e.r);
      EffectKeepsMember(db, Removes(db, e.r), effect, Serve(db, e.r), sid);
    }
  }

  lemma StaysAt(clock: int, capacity: Option<int>, events: seq<Event>, m: nat, k: nat, sid: Sid)
    requires NeverStale(Empty(clock, capacity), events) && KeptAlive(Empty(clock, capacity), events, m, sid)
    requires m <= k < |events| && (events[k].Handle? ==> sid !in TakenOut(events[k].r))
    requires Member(After(Empty(clock, capacity), events[..k]), sid)
    ensures Member(After(Empty(clock, capacity), events[..k + 1]), sid)
  {
    var start := Empty(clock, capacity);
    NeverStalePrefix(start, events, k);
    EmptyIsGood(clock, capacity);
    InvariantHolds(start, events[..k]);
    if IsReap(events[k]) {
      ReaperFindsLive(clock, capacity, events, m, k, sid);
    }
    StaysOnce(After(start, events[..k]), events[k], sid);
    AfterOneMore(start, events, k);
  }

  /** Nobody takes `sid` out between two moments. */
  ghost predicate LeftAlone(events: seq<Event>, m: nat, n: nat, sid: Sid) {
    forall i :: m <= i < n && i < |events| && events[i].Handle? ==> sid !in TakenOut(events[i].r)
  }

  /** At which moments of the run the session is inside or in line. */
  ghost function Presence(start: Db, events: seq<Event>, sid: Sid): (p: seq<bool>)
    ensures |p| == |events| + 1
  {
    seq(|events| + 1, k requires 0 <= k <= |events| => Member(After(start, events[..k]), sid))
  }

  lemma PresenceStep(clock: int, capacity: Option<int>, events: seq<Event>, m: nat, k: nat, sid: Sid)
    requires NeverStale(Empty(clock, capacity), events) && KeptAlive(Empty(clock, capacity), events, m, sid)
    requires m <= k < |events| && LeftAlone(events, k, k + 1, sid)
    ensures var p := Presence(Empty(clock, capacity), events, sid); p[k] ==> p[k + 1]
  {
    if Presence(Empty(clock, capacity), events, sid)[k] {
      StaysAt(clock, capacity, events, m, k, sid);
    }
  }

  /** A session refreshed in time that neither leaves nor is released stays inside or in line. */
  lemma RefreshedStay(clock: int, capacity: Option<int>, events: seq<Event>, m: nat, n: nat, sid: Sid)
    requires NeverStale(Empty(clock, capacity), events) && KeptAlive(Empty(clock, capacity), events, m, sid)
    requires m <= n <= |events| && LeftAlone(events, m, n, sid)
    ensures var p := Presence(Empty(clock, capacity), events, sid); p[m] ==> p[n]
  {
    var p := Presence(Empty(clock, capacity), events, sid);
    if p[m] {
      forall k | m <= k < n && p[k] ensures p[k + 1] {
        assert LeftAlone(events, k, k + 1, sid);
        PresenceStep(clock, capacity, events, m, k, sid);
      }
      PassedOn(p, m, n);
    }
  }
}
