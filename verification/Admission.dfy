/** What admitPending achieves when it runs alone, from any state of the store. */
module Admission {
  import opened Lists
  import opened RedisModel

  /** The given sessions' hashes turned active, their expiry untouched. */
  function Activated(sessions: map<Sid, Session>, chosen: set<Sid>): map<Sid, Session> {
    map sid | sid in sessions ::
      if sid in chosen then sessions[sid].(status := Active) else sessions[sid]
  }

  /** A heartbeat of the given expiry for each of the given sessions. */
  function Refreshed(heartbeats: map<Sid, int>, chosen: set<Sid>, expiry: int): map<Sid, int> {
    heartbeats + map sid | sid in chosen :: expiry
  }

  function Repeat(stamp: int, n: nat): seq<int> { seq(n, _ => stamp) }

  /** The history after `n` recorded admissions with the same stamp. */
  function Pushed(history: seq<int>, stamp: int, n: nat): seq<int> {
    if n == 0 then history else Newest(Repeat(stamp, n) + history)
  }

  /** A head of the queue goes, and exactly its entries that have a hash are admitted, in order. */
  ghost predicate Pops(db: Db, popped: seq<Sid>, admitted: seq<Sid>, last: Db) {
    && db.queue == popped + last.queue
    && admitted == Keep(popped, Hashed(db))
  }

  /** Everything that admitting the sessions of `admitted` writes, and nothing else. */
  ghost predicate Admits(db: Db, stamp: int, admitted: seq<Sid>, last: Db) {
    && last.active == db.active + Elems(admitted)
    && last.sessions == Activated(db.sessions, Elems(admitted))
    && last.heartbeats == Refreshed(db.heartbeats, Elems(admitted), db.clock + HEARTBEAT_TTL)
    && last.history == Pushed(db.history, stamp, |admitted|)
    && last.clock == db.clock
    && last.capacity == db.capacity
  }

  /** The last fifty of the popped entries had no hash. */
  ghost predicate FiftyDead(popped: seq<Sid>, hashed: set<Sid>) {
    && |popped| >= POP_LIMIT
    && forall i :: |popped| - POP_LIMIT <= i < |popped| ==> popped[i] !in hashed
  }

  /** Why the loop stopped: no slot, nobody waiting, or fifty dead entries in a row. */
  ghost predicate Stopped(db: Db, popped: seq<Sid>, last: Db) {
    Full(last) || last.queue == [] || FiftyDead(popped, Hashed(db))
  }

  /** All that a run of the loop promises. */
  ghost predicate Outcome(db: Db, stamp: int, popped: seq<Sid>, admitted: seq<Sid>, last: Db) {
    Pops(db, popped, admitted, last) && Admits(db, stamp, admitted, last) && Stopped(db, popped, last)
  }

  // ---- One script call ----

  lemma {:induction false} DeadHeadIsDropped(queue: seq<Sid>, hashed: set<Sid>, n: nat)
    requires n <= DeadHead(queue, hashed)
    ensures Keep(queue[..n], hashed) == []
    ensures n < |queue| && queue[n] in hashed ==> Keep(queue[..n + 1], hashed) == [queue[n]]
  {
    if n > 0 {
      DeadHeadIsDropped(queue[1..], hashed, n - 1);
      assert queue[..n][1..] == queue[1..][..n - 1];
    }
    if n < |queue| {
      assert queue[..n + 1] == queue[..n] + [queue[n]];
      KeepConcat(queue[..n], [queue[n]], hashed);
    }
  }

  lemma OneAdmission(db: Db, rest: seq<Sid>, sid: Sid, stamp: int)
    requires sid in db.sessions
    ensures var mid := SetHeartbeat(Admit(db.(queue := rest), sid, stamp), sid);
      Admits(db, stamp, [sid], mid) && Hashed(mid) == Hashed(db)
  {}

  /** Popping a dead head and the entry behind it, and admitting that entry. */
  lemma TurnAt(db: Db, dead: nat, stamp: int)
    requires dead < |db.queue| && dead == DeadHead(db.queue, Hashed(db))
    ensures var popped, sid := db.queue[..dead + 1], db.queue[dead];
      var mid := SetHeartbeat(Admit(db.(queue := db.queue[dead + 1..]), sid, stamp), sid);
      && Pops(db, popped, [sid], mid) && Admits(db, stamp, [sid], mid)
      && Hashed(mid) == Hashed(db)
      && |mid.queue| < |db.queue|
  {
    DeadHeadIsDropped(db.queue, Hashed(db), dead);
    OneAdmission(db, db.queue[dead + 1..], db.queue[dead], stamp);
  }

  /** A script call that admits, with the heartbeat that follows it. */
  lemma FirstTurn(db: Db, stamp: int) returns (mid: Db, sid: Sid, popped: seq<Sid>)
    requires AdmitNext(db, stamp).1.Some?
    ensures AdmitPending(db, stamp) == (AdmitPending(mid, stamp).0, [sid] + AdmitPending(mid, stamp).1)
    ensures Pops(db, popped, [sid], mid) && Admits(db, stamp, [sid], mid)
    ensures 0 < |popped| <= POP_LIMIT && popped[|popped| - 1] == sid && sid in Hashed(db)
    ensures Hashed(mid) == Hashed(db)
    ensures |mid.queue| < |db.queue|
  {
    var dead := DeadHead(db.queue, Hashed(db));
    popped, sid := db.queue[..dead + 1], db.queue[dead];
    mid := SetHeartbeat(AdmitNext(db, stamp).0, sid);
    TurnAt(db, dead, stamp);
    PendingTurn(db, stamp);
  }

  lemma AdmitsNobody(db: Db, rest: seq<Sid>, stamp: int)
    ensures Admits(db, stamp, [], db.(queue := rest))
  {}

  lemma StoppedAtOnce(db: Db, stamp: int) returns (popped: seq<Sid>)
    requires AdmitNext(db, stamp).1.None?
    ensures Outcome(db, stamp, popped, [], AdmitNext(db, stamp).0)
  {
    var last := AdmitNext(db, stamp).0;
    var k := |db.queue| - |last.queue|;
    popped := db.queue[..k];
    DeadHeadIsDropped(db.queue, Hashed(db), k);
    AdmitsNobody(db, last.queue, stamp);
    if k == POP_LIMIT {
      DeadHeadIsDead(db.queue, Hashed(db));
    }
  }

  lemma DeadHeadIsDead(queue: seq<Sid>, hashed: set<Sid>)
    requires DeadHead(queue, hashed) >= POP_LIMIT
    ensures FiftyDead(queue[..POP_LIMIT], hashed)
  {}

  // ---- Composition ----

  lemma PushedTwice(history: seq<int>, stamp: int, m: nat, n: nat)
    ensures Pushed(Pushed(history, stamp, m), stamp, n) == Pushed(history, stamp, m + n)
  {}

  /** The new stamps come first and the newest hundred stay. */
  lemma PushedMeaning(history: seq<int>, stamp: int, n: nat)
    requires |history| <= 100
    ensures var after := Pushed(history, stamp, n);
      && after <= Repeat(stamp, n) + history
      && |after| == Min(100, n + |history|)
  {}

  lemma ActivatedTwice(m: map<Sid, Session>, a: set<Sid>, b: set<Sid>)
    ensures Activated(Activated(m, a), b) == Activated(m, a + b)
  {}

  lemma RefreshedTwice(m: map<Sid, int>, a: set<Sid>, b: set<Sid>, t: int)
    ensures Refreshed(Refreshed(m, a, t), b, t) == Refreshed(m, a + b, t)
  {}

  /** Two admissions in a row are one bigger admission. */
  lemma AdmitsCompose(db: Db, stamp: int, first: seq<Sid>, mid: Db, second: seq<Sid>, last: Db)
    requires Admits(db, stamp, first, mid) && Admits(mid, stamp, second, last)
    ensures Admits(db, stamp, first + second, last)
  {
    assert Elems(first + second) == Elems(first) + Elems(second);
    ActivatedTwice(db.sessions, Elems(first), Elems(second));
    RefreshedTwice(db.heartbeats, Elems(first), Elems(second), db.clock + HEARTBEAT_TTL);
    PushedTwice(db.history, stamp, |first|, |second|);
  }

  lemma PopsCompose(db: Db, a: seq<Sid>, first: seq<Sid>, mid: Db, b: seq<Sid>, second: seq<Sid>, last: Db)
    requires Pops(db, a, first, mid) && Hashed(mid) == Hashed(db) && Pops(mid, b, second, last)
    ensures Pops(db, a + b, first + second, last)
  {
    KeepConcat(a, b, Hashed(db));
  }

  lemma FiftyDeadLater(a: seq<Sid>, b: seq<Sid>, hashed: set<Sid>)
    requires FiftyDead(b, hashed)
    ensures FiftyDead(a + b, hashed)
  {}

  lemma TurnThenRest(db: Db, stamp: int, a: seq<Sid>, first: seq<Sid>, mid: Db, b: seq<Sid>, rest: seq<Sid>, last: Db)
    requires Pops(db, a, first, mid) && Admits(db, stamp, first, mid) && Hashed(mid) == Hashed(db)
    requires Outcome(mid, stamp, b, rest, last)
    ensures Outcome(db, stamp, a + b, first + rest, last)
  {
    PopsCompose(db, a, first, mid, b, rest, last);
    AdmitsCompose(db, stamp, first, mid, rest, last);
    if FiftyDead(b, Hashed(mid)) {
      FiftyDeadLater(a, b, Hashed(db));
    }
  }

  // ---- The whole loop ----

  /**
    From any store: a head of the queue goes, exactly its entries that have a hash
    are admitted, in queue order, and the loop stops only for one of three reasons.
   */
  lemma {:induction false} AdmitPendingMeaning(db: Db, stamp: int) returns (popped: seq<Sid>)
    ensures Outcome(db, stamp, popped, AdmitPending(db, stamp).1, AdmitPending(db, stamp).0)
    decreases |db.queue|
  {
    if AdmitNext(db, stamp).1.None? {
      popped := StoppedAtOnce(db, stamp);
    } else {
      var mid, sid, first := FirstTurn(db, stamp);
      var rest := AdmitPendingMeaning(mid, stamp);
      popped := first + rest;
      TurnThenRest(db, stamp, first, [sid], mid, rest, AdmitPending(mid, stamp).1, AdmitPending(mid, stamp).0);
    }
  }

  // ---- When the loop gives up ----

  /** The sessions inside once the hashed ones among the first `k` entries have been let in. */
  function Inside(db: Db, k: nat): set<Sid>
    requires k <= |db.queue|
  {
    db.active + Elems(db.queue[..k]) * Hashed(db)
  }

  /** Fifty dead entries start at `k`, somebody stands behind them, and those before them leave a slot free. */
  ghost predicate Blocked(db: Db, k: nat) {
    && k + 50 < |db.queue|
    && (forall i :: k <= i < k + 50 ==> db.queue[i] !in Hashed(db))
    && |Inside(db, k)| < Cap(db)
  }

  lemma FewerInside(small: set<Sid>, big: set<Sid>)
    requires small <= big
    ensures |small| <= |big|
  {
    assert big == small + (big - small);
  }

  lemma BlockedHasASlot(db: Db, k: nat)
    requires Blocked(db, k)
    ensures !Full(db)
  {
    FewerInside(db.active, Inside(db, k));
  }

  /** Letting in the session at the end of `popped` counts nobody who was not counted before. */
  lemma InsideLater(db: Db, popped: seq<Sid>, sid: Sid, mid: Db, k: nat)
    requires db.queue == popped + mid.queue && |popped| <= k <= |db.queue|
    requires sid in popped && sid in Hashed(db)
    requires mid.active == db.active + {sid} && Hashed(mid) == Hashed(db)
    ensures Inside(mid, k - |popped|) <= Inside(db, k)
  {
    assert db.queue[..k] == popped + mid.queue[..k - |popped|];
  }

  /** An admission before the fifty dead entries leaves them in the way. */
  lemma StillBlocked(db: Db, popped: seq<Sid>, sid: Sid, mid: Db, k: nat)
    requires Blocked(db, k) && db.queue == popped + mid.queue && 0 < |popped| <= POP_LIMIT
    requires sid == popped[|popped| - 1] && sid in Hashed(db)
    requires mid.active == db.active + {sid} && Hashed(mid) == Hashed(db) && mid.capacity == db.capacity
    ensures |popped| <= k && Blocked(mid, k - |popped|)
  {
    assert db.queue[|popped| - 1] == sid;
    InsideLater(db, popped, sid, mid, k);
    FewerInside(Inside(mid, k - |popped|), Inside(db, k));
    assert forall i :: 0 <= i < |mid.queue| ==> mid.queue[i] == db.queue[|popped| + i];
  }

  /** A call that admits nobody meanwhile has met fifty dead entries, and the queue is longer. */
  lemma BlockedStops(db: Db, stamp: int, k: nat)
    requires Blocked(db, k) && !Full(db) && AdmitNext(db, stamp).1.None?
    ensures !Full(AdmitNext(db, stamp).0) && AdmitNext(db, stamp).0.queue != []
  {}

  lemma {:induction false} BlockedGivesUp(db: Db, stamp: int, k: nat)
    requires Blocked(db, k)
    ensures !Full(AdmitPending(db, stamp).0) && AdmitPending(db, stamp).0.queue != []
    decreases |db.queue|
  {
    BlockedHasASlot(db, k);
    if AdmitNext(db, stamp).1.Some? {
      var mid, sid, popped := FirstTurn(db, stamp);
      StillBlocked(db, popped, sid, mid, k);
      BlockedGivesUp(mid, stamp, k - |popped|);
    } else {
      BlockedStops(db, stamp, k);
      PendingTurn(db, stamp);
    }
  }

  /** A dead tail admits nobody. */
  lemma DeadTail(db: Db, popped: seq<Sid>, rest: seq<Sid>, k: nat)
    requires db.queue == popped + rest && k <= |popped|
    requires forall i :: k <= i < |popped| ==> popped[i] !in Hashed(db)
    ensures Inside(db, k) == db.active + Elems(Keep(popped, Hashed(db)))
  {
    KeepMembers(popped, Hashed(db));
    assert db.queue[..k] == popped[..k];
    assert forall x :: x in popped[..k] ==> x in popped;
    assert forall x :: x in popped && x in Hashed(db) ==> x in popped[..k];
  }

  lemma GivenUpIsBlocked(db: Db, stamp: int, popped: seq<Sid>, admitted: seq<Sid>, last: Db)
    requires Outcome(db, stamp, popped, admitted, last)
    requires !Full(last) && last.queue != []
    ensures |popped| >= POP_LIMIT && Blocked(db, |popped| - POP_LIMIT)
  {
    DeadTail(db, popped, last.queue, |popped| - POP_LIMIT);
  }

  /**
    The loop stops with a slot free and somebody still waiting exactly when fifty
    entries without a hash stand in a row before the end of the queue, and those before
    them that have one do not fill the room.
   */
  lemma GivesUpIff(db: Db, stamp: int)
    ensures var last := AdmitPending(db, stamp).0;
      !Full(last) && last.queue != [] <==> exists k: nat :: Blocked(db, k)
  {
    var last := AdmitPending(db, stamp).0;
    if !Full(last) && last.queue != [] {
      var popped := AdmitPendingMeaning(db, stamp);
      GivenUpIsBlocked(db, stamp, popped, AdmitPending(db, stamp).1, last);
    }
    forall k: nat | Blocked(db, k) ensures !Full(last) && last.queue != [] {
      BlockedGivesUp(db, stamp, k);
    }
  }

  /** A line of one live entry, fifty dead ones and another live one, before three free slots. */
  function LongDeadLine(): Db {
    var hash := Session(Queued, SESSION_TTL);
    Db(0, Some(3), {}, [1] + seq(POP_LIMIT, _ => 2) + [3], map[1 := hash, 3 := hash], map[], [])
  }

  /** Its last visitor is left waiting although slots stay free. */
  lemma LongDeadLineGivesUp(stamp: int)
    ensures var last := AdmitPending(LongDeadLine(), stamp).0;
      !Full(last) && last.queue != []
  {
    var db := LongDeadLine();
    assert forall i :: 1 <= i < 1 + POP_LIMIT ==> db.queue[i] == 2;
    assert db.queue[..1] == [1] && Elems([1]) == {1};
    assert Hashed(db) == {1, 3};
    assert Inside(db, 1) == {} + {1} * {1, 3} == {1};
    BlockedGivesUp(db, stamp, 1);
  }

  /** A full room admits nobody. */
  lemma FullAdmitsNobody(db: Db, stamp: int)
    requires Full(db)
    ensures AdmitPending(db, stamp) == (db, [])
  {}

  /** Capacity is never exceeded by admission. */
  lemma {:induction false} AdmitPendingWithinCapacity(db: Db, stamp: int)
    ensures |AdmitPending(db, stamp).0.active| <= Max(|db.active|, Cap(db))
    decreases |db.queue|
  {
    var (next, popped) := AdmitNext(db, stamp);
    if popped.Some? {
      AdmitNextShrinks(db, stamp);
      AdmitPendingWithinCapacity(SetHeartbeat(next, popped.value), stamp);
    }
  }

  /** Nobody in the queue lacks a hash, stands in it twice or already holds a slot. */
  ghost predicate CleanQueue(db: Db) {
    Elems(db.queue) <= Hashed(db) && NoDup(db.queue) && Elems(db.queue) !! db.active
  }

  /** With a clean queue, exactly the free slots are filled from the head, as far as people wait. */
  lemma FillsExactly(db: Db, stamp: int)
    requires CleanQueue(db)
    ensures var (last, admitted) := AdmitPending(db, stamp);
      && |admitted| == Min(Max(Cap(db) - |db.active|, 0), |db.queue|)
      && db.queue == admitted + last.queue
      && Admits(db, stamp, admitted, last)
      && (Full(last) || last.queue == [])
  {
    var popped := AdmitPendingMeaning(db, stamp);
    AdmitPendingWithinCapacity(db, stamp);
    if Full(db) {
      FullAdmitsNobody(db, stamp);
    } else {
      CleanOutcome(db, stamp, popped, AdmitPending(db, stamp).1, AdmitPending(db, stamp).0);
    }
  }

  lemma CleanOutcome(db: Db, stamp: int, popped: seq<Sid>, admitted: seq<Sid>, last: Db)
    requires CleanQueue(db)
    requires Outcome(db, stamp, popped, admitted, last)
    requires !Full(db) && |last.active| <= Max(|db.active|, Cap(db))
    ensures popped == admitted
    ensures |admitted| == Min(Cap(db) - |db.active|, |db.queue|)
    ensures Full(last) || last.queue == []
  {
    CleanHead(popped, last.queue, Hashed(db), db.active);
  }

  lemma CleanHead(head: seq<Sid>, tail: seq<Sid>, hashed: set<Sid>, active: set<Sid>)
    requires Elems(head + tail) <= hashed && NoDup(head + tail) && Elems(head + tail) !! active
    ensures Keep(head, hashed) == head
    ensures |active + Elems(head)| == |active| + |head|
    ensures !FiftyDead(head, hashed)
  {
    assert Elems(head) <= Elems(head + tail) by {
      assert forall x :: x in head ==> x in head + tail;
    }
    assert NoDup(head) by {
      assert forall i :: 0 <= i < |head| ==> (head + tail)[i] == head[i];
    }
    KeepAll(head, hashed);
    ElemsSize(head);
    assert |head| > 0 ==> head[|head| - 1] in Elems(head);
  }
}
