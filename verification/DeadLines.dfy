/**
  How a refill comes to give up although every tab is open and the reaper on time: a
  full room and fifty visitors wait for a day, so that their hashes expire in line.
 */
module DeadLines {
  import opened Lists
  import opened RedisModel
  import opened Requests
  import opened Admission
  import opened SerialRuns
  import opened Heartbeats
  import opened FreeSlots

  // ---- The run ----

  /** Visitors 2 to n + 1 come. */
  function Joins(n: nat): seq<Event> {
    if n == 0 then [] else Joins(n - 1) + [Handle(Visit(n + 1, true, 0))]
  }

  /** Visitor 1 takes the only slot, the others queue. */
  function Arrivals(n: nat): seq<Event> { [Handle(Visit(1, true, 0))] + Joins(n) }

  /** Every tab beats: pings count with a hash, the queue page's own refresh without one. */
  function Refreshes(n: nat): seq<Event> {
    if n == 0 then [Handle(Ping(1)), Handle(QueuePage(1))] else Refreshes(n - 1) + [Handle(QueuePage(n + 1))]
  }

  /** Five seconds of waiting with everybody refreshed, and the reaper. */
  function Round(n: nat): seq<Event> { Refreshes(n) + [Wait(REAPER_PERIOD), Handle(ReapTick(0))] }

  function Rounds(n: nat, k: nat): seq<Event> {
    if k == 0 then [] else Rounds(n, k - 1) + Round(n)
  }

  /** At the end one more visitor queues, and the one inside leaves. */
  function DayInLine(n: nat, k: nat): seq<Event> {
    Arrivals(n) + Rounds(n, k) + [Handle(Visit(n + 2, true, 0))] + [Handle(LeaveRoom(1, 0))]
  }

  lemma {:induction false} AfterConcat(start: Db, a: seq<Event>, b: seq<Event>)
    ensures After(start, a + b) == After(After(start, a), b)
  {
    if b == [] {
      assert a + b == a;
    } else {
      var n := |b| - 1;
      assert (a + b)[..|a + b| - 1] == a + b[..n];
      AfterConcat(start, a, b[..n]);
    }
  }

  lemma AfterOne(start: Db, a: seq<Event>, e: Event)
    ensures After(start, a + [e]) == Happen(After(start, a), e)
  {
    assert (a + [e])[..|a|] == a;
  }

  // ---- Its states ----

  function Waiters(n: nat): seq<Sid> { seq(n, i => i + 2) }

  /** One inside, `n` in line, everybody's hash from the first moment. */
  ghost predicate Standing(db: Db, n: nat) {
    && db.capacity == Some(1) && db.active == {1} && db.queue == Waiters(n)
    && forall sid :: sid in db.sessions ==> sid <= n + 1 && db.sessions[sid].expiresAt == SESSION_TTL
  }

  lemma ArrivalStands(db: Db, n: nat)
    requires Standing(db, n) && db.clock == 0
    ensures var after := Serve(db, Visit(n + 2, true, 0)); Standing(after, n + 1) && after.clock == 0
  {
    assert Waiters(n + 1) == Waiters(n) + [n + 2];
  }

  lemma FirstStands()
    ensures var db := After(Empty(0, Some(1)), [Handle(Visit(1, true, 0))]); Standing(db, 0) && db.clock == 0
  {
    AfterOne(Empty(0, Some(1)), [], Handle(Visit(1, true, 0)));
  }

  lemma OneMoreJoin(db: Db, n: nat)
    requires Standing(After(db, Joins(n)), n) && After(db, Joins(n)).clock == 0
    ensures Standing(After(db, Joins(n + 1)), n + 1) && After(db, Joins(n + 1)).clock == 0
  {
    var events := Joins(n);
    ArrivalStands(After(db, events), n);
    AfterOne(db, events, Handle(Visit(n + 2, true, 0)));
    assert Joins(n + 1) == events + [Handle(Visit(n + 2, true, 0))];
  }

  lemma JoinsStand(db: Db, n: nat)
    requires Standing(db, 0) && db.clock == 0
    ensures Standing(After(db, Joins(n)), n) && After(db, Joins(n)).clock == 0
  {
    var stands := seq(n + 1, j requires 0 <= j <= n =>
      var later := After(db, Joins(j));
      Standing(later, j) && later.clock == 0);
    forall j | 0 <= j < n && stands[j] ensures stands[j + 1] {
      OneMoreJoin(db, j);
    }
    PassedOn(stands, 0, n);
  }

  lemma ArrivalsStand(n: nat)
    ensures var db := After(Empty(0, Some(1)), Arrivals(n)); Standing(db, n) && db.clock == 0
  {
    var first := [Handle(Visit(1, true, 0))];
    FirstStands();
    JoinsStand(After(Empty(0, Some(1)), first), n);
    AfterConcat(Empty(0, Some(1)), first, Joins(n));
  }

  /** Only heartbeats differ, and those of visitors 1 to n + 1 are new. */
  ghost predicate AllBeat(db: Db, n: nat, after: Db) {
    && after == db.(heartbeats := after.heartbeats)
    && forall sid: Sid :: 1 <= sid <= n + 1 ==>
         sid in after.heartbeats && after.heartbeats[sid] == db.clock + HEARTBEAT_TTL
  }

  lemma FirstBeats(db: Db)
    ensures AllBeat(db, 0, After(db, Refreshes(0)))
  {
    AfterOne(db, [], Handle(Ping(1)));
    AfterOne(db, [Handle(Ping(1))], Handle(QueuePage(1)));
    assert [] + [Handle(Ping(1))] == [Handle(Ping(1))];
    assert [Handle(Ping(1))] + [Handle(QueuePage(1))] == Refreshes(0);
    assert After(db, []) == db;
    assert AllBeat(db, 0, Serve(Serve(db, Ping(1)), QueuePage(1)));
  }

  lemma NextBeats(db: Db, n: nat, mid: Db)
    requires db.active == {1} && AllBeat(db, n, mid)
    ensures AllBeat(db, n + 1, Serve(mid, QueuePage(n + 2)))
  {}

  lemma OneMoreRefresh(db: Db, n: nat)
    requires db.active == {1} && AllBeat(db, n, After(db, Refreshes(n)))
    ensures AllBeat(db, n + 1, After(db, Refreshes(n + 1)))
  {
    var events := Refreshes(n);
    NextBeats(db, n, After(db, events));
    AfterOne(db, events, Handle(QueuePage(n + 2)));
    assert Refreshes(n + 1) == events + [Handle(QueuePage(n + 2))];
  }

  lemma {:induction false} RefreshesBeat(db: Db, n: nat)
    requires db.active == {1}
    ensures AllBeat(db, n, After(db, Refreshes(n)))
  {
    if n == 0 {
      FirstBeats(db);
    } else {
      RefreshesBeat(db, n - 1);
      OneMoreRefresh(db, n - 1);
    }
  }

  /** A reaper that finds everybody alive changes nothing. */
  lemma NobodyReaped(db: Db, stamp: int)
    requires db.active <= Live(db) && Elems(db.queue) <= Live(db)
    ensures Serve(db, ReapTick(stamp)) == db
  {
    KeepAll(db.queue, Live(db));
    assert db.active - Live(db) == {};
    assert db.active * Live(db) == db.active;
    assert (db.active + Elems(db.queue)) - Live(db) == {};
    assert db.sessions - {} == db.sessions;
  }

  lemma RoundEnds(db: Db, n: nat, beaten: Db)
    requires Standing(db, n) && AllBeat(db, n, beaten)
    ensures var waited := Advance(beaten, REAPER_PERIOD);
      Serve(waited, ReapTick(0)) == waited && Standing(waited, n)
  {
    var waited := Advance(beaten, REAPER_PERIOD);
    forall sid: Sid | sid in waited.active || sid in waited.queue ensures sid in Live(waited) {
      assert 1 <= sid <= n + 1;
    }
    NobodyReaped(waited, 0);
  }

  lemma RoundStands(db: Db, n: nat)
    requires Standing(db, n)
    ensures Standing(After(db, Round(n)), n) && After(db, Round(n)).clock == db.clock + REAPER_PERIOD
  {
    var beaten := After(db, Refreshes(n));
    RefreshesBeat(db, n);
    RoundEnds(db, n, beaten);
    AfterOne(db, Refreshes(n), Wait(REAPER_PERIOD));
    AfterOne(db, Refreshes(n) + [Wait(REAPER_PERIOD)], Handle(ReapTick(0)));
    assert Refreshes(n) + [Wait(REAPER_PERIOD)] + [Handle(ReapTick(0))] == Round(n);
  }

  lemma OneMoreRound(db: Db, n: nat, k: nat)
    requires Standing(After(db, Rounds(n, k)), n)
    ensures Standing(After(db, Rounds(n, k + 1)), n)
    ensures After(db, Rounds(n, k + 1)).clock == After(db, Rounds(n, k)).clock + REAPER_PERIOD
  {
    var events := Rounds(n, k);
    RoundStands(After(db, events), n);
    AfterConcat(db, events, Round(n));
    assert Rounds(n, k + 1) == events + Round(n);
  }

  lemma RoundsStand(db: Db, n: nat, k: nat)
    requires Standing(db, n)
    ensures Standing(After(db, Rounds(n, k)), n)
    ensures After(db, Rounds(n, k)).clock == db.clock + k * REAPER_PERIOD
  {
    var stands := seq(k + 1, j requires 0 <= j <= k =>
      var later := After(db, Rounds(n, j));
      Standing(later, n) && later.clock == db.clock + j * REAPER_PERIOD);
    forall j | 0 <= j < k && stands[j] ensures stands[j + 1] {
      OneMoreRound(db, n, j);
    }
    PassedOn(stands, 0, k);
  }

  // ---- The refill gives up ----

  /** The last visitor behind a line of expired hashes, the room still full. */
  ghost predicate LastJoined(db: Db, n: nat) {
    && db.capacity == Some(1) && db.active == {1} && db.queue == Waiters(n) + [n + 2]
    && forall i :: 0 <= i < n ==> db.queue[i] !in Hashed(db)
  }

  lemma LastVisitorJoins(db: Db, n: nat)
    requires Standing(db, n) && db.clock > SESSION_TTL
    ensures LastJoined(Serve(db, Visit(n + 2, true, 0)), n)
  {
    var after := Serve(db, Visit(n + 2, true, 0));
    assert StatusOf(db, n + 2).None?;
    assert after == SetHeartbeat(JoinQueue(db, n + 2), n + 2);
    forall i | 0 <= i < n ensures after.queue[i] !in Hashed(after) {
      assert after.queue[i] == i + 2;
    }
  }

  lemma LeavingGivesUp(db: Db, n: nat)
    requires LastJoined(db, n) && n >= POP_LIMIT
    ensures GivesUp(db, LeaveRoom(1, 0))
  {
    var freed := Leave(db, 1);
    assert Hashed(freed) <= Hashed(db);
    assert freed.active == {} && freed.queue == db.queue;
    assert freed.queue[..0] == [] && Inside(freed, 0) == {};
    assert Blocked(freed, 0);
  }

  lemma DayInLineReaches(n: nat, k: nat)
    requires k * REAPER_PERIOD > SESSION_TTL
    ensures LastJoined(After(Empty(0, Some(1)), Arrivals(n) + Rounds(n, k) + [Handle(Visit(n + 2, true, 0))]), n)
  {
    var start := Empty(0, Some(1));
    ArrivalsStand(n);
    RoundsStand(After(start, Arrivals(n)), n, k);
    AfterConcat(start, Arrivals(n), Rounds(n, k));
    AfterOne(start, Arrivals(n) + Rounds(n, k), Handle(Visit(n + 2, true, 0)));
    LastVisitorJoins(After(start, Arrivals(n) + Rounds(n, k)), n);
  }

  /**
    Fifty or more visitors, everybody refreshed and reaped every five seconds for more
    than a day: when the one inside leaves, the slot stays free with a line before it.
   */
  lemma GiveUpIsReached(n: nat, k: nat)
    requires n >= 50 && k * 5_000 > 86_400_000
    ensures !Filled(After(Empty(0, Some(1)), DayInLine(n, k)))
  {
    var start, before := Empty(0, Some(1)), Arrivals(n) + Rounds(n, k) + [Handle(Visit(n + 2, true, 0))];
    var db := After(start, before);
    DayInLineReaches(n, k);
    LeavingGivesUp(db, n);
    RefillFillsIff(db, LeaveRoom(1, 0));
    AfterOne(start, before, Handle(LeaveRoom(1, 0)));
  }

  /** Nobody is in room or line then but the visitors who came before. */
  lemma NewcomerIsNew(db: Db, n: nat)
    requires LastJoined(db, n)
    ensures var last := AdmitPending(Leave(db, 1), 0).0;
      n + 3 !in last.active && n + 3 !in last.queue
  {
    var freed := Leave(db, 1);
    RefillKeys(freed, 0);
    assert freed.active == {} && freed.queue == Waiters(n) + [n + 2];
    assert !Member(freed, n + 3);
    assert !Member(AdmitPending(freed, 0).0, n + 3);
  }

  /** And then a newcomer walks past that line. */
  lemma NewcomerPasses(n: nat, k: nat)
    requires n >= 50 && k * 5_000 > 86_400_000
    ensures PassesTheLine(After(Empty(0, Some(1)), DayInLine(n, k)), Handle(Visit(n + 3, true, 0)))
  {
    var start, before := Empty(0, Some(1)), Arrivals(n) + Rounds(n, k) + [Handle(Visit(n + 2, true, 0))];
    GiveUpIsReached(n, k);
    DayInLineReaches(n, k);
    AfterOne(start, before, Handle(LeaveRoom(1, 0)));
    RefillIsAdmission(After(start, before), LeaveRoom(1, 0));
    NewcomerIsNew(After(start, before), n);
    assert n + 3 !in After(start, DayInLine(n, k)).queue;
  }
}
