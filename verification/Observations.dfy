/**
  What an observer of the store sees of each operation, session by session and in the
  numbers of the source: 3 slots, 24 hours, 30 seconds, the newest 100 stamps.
 */
module Observations {
  import opened Lists
  import opened RedisModel
  import opened Requests
  import opened Admission
  import opened Interleavings
  import opened SerialRuns
  import opened Heartbeats

  // ---- Pieces ----

  /** One more stamp in front, and the newest hundred of what was there. */
  ghost predicate Stamped(before: seq<int>, stamp: int, after: seq<int>) {
    after <= [stamp] + before && |after| == Min(100, 1 + |before|)
  }

  /** Nobody but `sid` sees its hash change. */
  ghost predicate OthersHashes(db: Db, sid: Sid, after: Db) {
    forall x: Sid :: x != sid ==>
      && (x in after.sessions <==> x in db.sessions)
      && (x in db.sessions ==> after.sessions[x] == db.sessions[x])
  }

  /** Nobody but `sid` sees its heartbeat key change. */
  ghost predicate OthersKeys(db: Db, sid: Sid, after: Db) {
    forall x: Sid :: x != sid ==>
      && (x in after.heartbeats <==> x in db.heartbeats)
      && (x in db.heartbeats ==> after.heartbeats[x] == db.heartbeats[x])
  }

  /** The session's hash was written now: this status, for 24 hours. */
  ghost predicate HashedAs(db: Db, sid: Sid, status: Status, after: Db) {
    sid in after.sessions && after.sessions[sid] == Session(status, db.clock + 86_400_000) && OthersHashes(db, sid, after)
  }

  /** The session's heartbeat was written now, for 30 seconds. */
  ghost predicate Beaten(db: Db, sid: Sid, after: Db) {
    sid in after.heartbeats && after.heartbeats[sid] == db.clock + 30_000 && OthersKeys(db, sid, after)
  }

  /** A slot is free: fewer inside than the capacity key says, 3 without one. */
  predicate SlotFree(db: Db) {
    |db.active| < if db.capacity.Some? then db.capacity.value else 3
  }

  // ---- Scripts ----

  /** luaTryAdmit lets in exactly when a slot is free, and then writes set, hash and history. */
  lemma TryAdmitSeen(db: Db, sid: Sid, stamp: int)
    ensures var after := TryAdmit(db, sid, stamp);
      if SlotFree(db) then
        && (forall x :: x in after.active <==> x in db.active || x == sid)
        && HashedAs(db, sid, Active, after)
        && Stamped(db.history, stamp, after.history)
        && after.queue == db.queue && after.heartbeats == db.heartbeats
        && after.capacity == db.capacity && after.clock == db.clock
      else after == db
  {}

  /** luaJoinQueue puts whoever has no live hash at the end, with a hash that says queued. */
  lemma JoinQueueSeen(db: Db, sid: Sid)
    ensures var after := JoinQueue(db, sid);
      if sid in db.sessions && db.clock <= db.sessions[sid].expiresAt then after == db
      else
        && after.queue == db.queue + [sid]
        && HashedAs(db, sid, Queued, after)
        && after.active == db.active && after.heartbeats == db.heartbeats && after.history == db.history
        && after.capacity == db.capacity && after.clock == db.clock
  {}

  /** luaRelease takes slot, hash and heartbeat of the drawn sessions inside, and nothing of anybody else. */
  lemma ReleaseSeen(db: Db, victims: set<Sid>)
    ensures var after := Release(db, victims);
      && (forall x: Sid :: x in victims && x in db.active ==>
            x !in after.active && x !in after.sessions && x !in after.heartbeats)
      && (forall x: Sid :: !(x in victims && x in db.active) ==>
            && (x in after.active <==> x in db.active)
            && (x in after.sessions <==> x in db.sessions)
            && (x in db.sessions ==> after.sessions[x] == db.sessions[x])
            && (x in after.heartbeats <==> x in db.heartbeats)
            && (x in db.heartbeats ==> after.heartbeats[x] == db.heartbeats[x]))
      && after.queue == db.queue && after.history == db.history
      && after.capacity == db.capacity && after.clock == db.clock
  {}

  lemma {:induction false} RemoveFirstSeen(s: seq<Sid>, x: Sid) returns (i: nat)
    ensures x in s ==> i < |s| && s[i] == x && x !in s[..i] && RemoveFirst(s, x) == s[..i] + s[i + 1..]
    ensures x !in s ==> RemoveFirst(s, x) == s
  {
    i := FirstIndex(s, x);
    if i < |s| {
      RemoveFirstSplit(s[..i], x, s[i + 1..]);
      assert s == s[..i] + [x] + s[i + 1..];
    } else {
      RemoveFirstAbsent(s, x);
    }
  }

  lemma {:induction false} RemoveFirstAbsent(s: seq<Sid>, x: Sid)
    requires x !in s
    ensures RemoveFirst(s, x) == s
  {
    if s != [] {
      assert x !in s[1..] && s[0] in s;
      RemoveFirstAbsent(s[1..], x);
    }
  }

  /** luaLeave takes the slot, or else the first entry in line, and hash and heartbeat in either case. */
  lemma LeaveSeen(db: Db, sid: Sid) returns (i: nat)
    ensures var after := Leave(db, sid);
      && sid !in after.active && sid !in after.sessions && sid !in after.heartbeats
      && (forall x: Sid :: x != sid ==> (x in after.active <==> x in db.active))
      && OthersHashes(db, sid, after) && OthersKeys(db, sid, after)
      && (sid in db.active || sid !in db.queue ==> after.queue == db.queue)
      && (sid !in db.active && sid in db.queue ==>
            i < |db.queue| && db.queue[i] == sid && sid !in db.queue[..i]
            && after.queue == db.queue[..i] + db.queue[i + 1..])
      && after.history == db.history && after.capacity == db.capacity && after.clock == db.clock
  {
    i := RemoveFirstSeen(db.queue, sid);
  }

  /** Somebody whose heartbeat key is gone or has run out. */
  predicate IsSilent(db: Db, sid: Sid) { !(sid in db.heartbeats && db.clock <= db.heartbeats[sid]) }

  lemma {:induction false} CountKept(s: seq<Sid>, keep: set<Sid>, x: Sid)
    ensures Count(Keep(s, keep), x) == if x in keep then Count(s, x) else 0
  {
    if s != [] {
      CountKept(s[1..], keep, x);
      if s[0] in keep {
        assert Keep(s, keep)[1..] == Keep(s[1..], keep);
      }
    }
  }

  /** luaReapStale takes every slot, every entry and the hash of the silent members, and nothing of anybody else. */
  lemma ReapSeen(db: Db)
    ensures var after := Reap(db);
      && (forall x: Sid :: x in after.active <==> x in db.active && !IsSilent(db, x))
      && (forall x: Sid :: Count(after.queue, x) == if IsSilent(db, x) then 0 else Count(db.queue, x))
      && (forall x: Sid :: x in after.sessions <==> x in db.sessions && !(Member(db, x) && IsSilent(db, x)))
      && (forall x :: x in after.sessions ==> after.sessions[x] == db.sessions[x])
      && after.heartbeats == db.heartbeats && after.history == db.history
      && after.capacity == db.capacity && after.clock == db.clock
  {
    forall x: Sid
      ensures Count(Keep(db.queue, Live(db)), x) == if IsSilent(db, x) then 0 else Count(db.queue, x)
    {
      CountKept(db.queue, Live(db), x);
    }
  }

  /** And it answers by how much set and list have shrunk. */
  lemma ReapCounts(db: Db)
    ensures Evicted(db) == (|db.active| - |Reap(db).active|) + (|db.queue| - |Reap(db).queue|)
  {
    assert db.active == db.active * Live(db) + (db.active - Live(db));
  }

  /** luaAdmitNext's answer names an entry with a live hash, which turns active and keeps its expiry. */
  lemma AdmitNextSeen(db: Db, stamp: int)
    requires AdmitNext(db, stamp).1.Some?
    ensures var (after, answer) := AdmitNext(db, stamp);
      var sid := answer.value;
      && SlotFree(db) && sid in db.queue && sid in db.sessions && db.clock <= db.sessions[sid].expiresAt
      && (forall x :: x in after.active <==> x in db.active || x == sid)
      && sid in after.sessions && after.sessions[sid] == Session(Active, db.sessions[sid].expiresAt)
      && OthersHashes(db, sid, after)
      && Stamped(db.history, stamp, after.history)
      && after.heartbeats == db.heartbeats && after.capacity == db.capacity && after.clock == db.clock
  {}

  // ---- Requests ----

  /** A hash that says active without a slot goes; nothing else does. */
  lemma RecoverSeen(db: Db, sid: Sid)
    ensures var after := Recover(db, sid);
      && (StatusOf(after, sid) == Some(Active) ==> sid in db.active)
      && (StatusOf(db, sid) == Some(Active) && sid !in db.active ==> StatusOf(after, sid).None?)
      && (StatusOf(db, sid) != Some(Active) || sid in db.active ==> after == db)
      && OthersHashes(db, sid, after)
      && after == db.(sessions := after.sessions)
  {}

  /** A visit to / with a slot free: inside, refreshed, and the line as it was. */
  lemma EnterSeen(db: Db, sid: Sid, stamp: int)
    requires !Admitted(db, sid) && SlotFree(db)
    ensures var after := Serve(db, Visit(sid, true, stamp));
      && Beaten(db, sid, after) && Admitted(after, sid)
      && HashedAs(db, sid, Active, after) && Stamped(db.history, stamp, after.history)
      && (forall x :: x in after.active <==> x in db.active || x == sid)
      && after.queue == db.queue && after.capacity == db.capacity && after.clock == db.clock
  {
    var clean := Recover(db, sid);
    RecoverSeen(db, sid);
    TryAdmitSeen(clean, sid, stamp);
    assert Serve(db, Visit(sid, true, stamp)) == SetHeartbeat(TryAdmit(clean, sid, stamp), sid);
  }

  /** A visit to / with no slot free: in line, at the end unless there already, and refreshed. */
  lemma QueueUpSeen(db: Db, sid: Sid, stamp: int)
    requires !Admitted(db, sid) && !SlotFree(db)
    ensures var after := Serve(db, Visit(sid, true, stamp));
      && Beaten(db, sid, after) && StatusOf(after, sid) == Some(Queued) && OthersHashes(db, sid, after)
      && after.queue == (if StatusOf(db, sid) == Some(Queued) then db.queue else db.queue + [sid])
      && after.active == db.active && after.history == db.history
      && after.capacity == db.capacity && after.clock == db.clock
  {
    var clean := Recover(db, sid);
    RecoverSeen(db, sid);
    JoinQueueSeen(clean, sid);
    assert StatusOf(clean, sid) in {None, Some(Active), Some(Queued)} by {
      assert StatusOf(clean, sid).Some? ==> StatusOf(clean, sid).value.Active? || StatusOf(clean, sid).value.Queued?;
    }
    assert Serve(db, Visit(sid, true, stamp)) == SetHeartbeat(JoinQueue(clean, sid), sid);
  }

  /** Any other visit changes nothing but what recovery does. */
  lemma OtherVisitsSeen(db: Db, sid: Sid, atRoot: bool, stamp: int)
    requires Admitted(db, sid) || !atRoot
    ensures Serve(db, Visit(sid, atRoot, stamp)) == if Admitted(db, sid) then db else Recover(db, sid)
  {}

  /** A poll leaves no hash that says active without a slot, and changes nothing but that one hash. */
  lemma PollSeen(db: Db, sid: Sid)
    ensures var after := Serve(db, PollPosition(sid));
      && (sid != 0 && StatusOf(after, sid) == Some(Active) ==> sid in after.active)
      && (sid == 0 || StatusOf(db, sid) != Some(Active) || sid in db.active ==> after == db)
      && OthersHashes(db, sid, after) && after == db.(sessions := after.sessions)
  {}

  /** Pings refresh exactly sessions with a live hash, the queue page exactly those not inside; cookieless ones nobody. */
  lemma RefreshesSeen(db: Db, sid: Sid)
    ensures var ping, page := Serve(db, Ping(sid)), Serve(db, QueuePage(sid));
      && (if sid != 0 && sid in db.sessions && db.clock <= db.sessions[sid].expiresAt
          then Beaten(db, sid, ping) && ping == db.(heartbeats := ping.heartbeats) else ping == db)
      && (if sid != 0 && !(StatusOf(db, sid) == Some(Active) && sid in db.active)
          then Beaten(db, sid, page) && page == db.(heartbeats := page.heartbeats) else page == db)
  {}

  /** Leaving the line frees no slot, so nobody is let in for it. */
  lemma LeaveLineSeen(db: Db, sid: Sid, stamp: int)
    requires sid !in db.active
    ensures var after := Serve(db, LeaveRoom(sid, stamp));
      after.active == db.active && after.history == db.history && (sid == 0 ==> after == db)
  {}

  // ---- The capacity in force ----

  lemma PendingKeepsCapacity(db: Db, stamp: int)
    ensures AdmitPending(db, stamp).0.capacity == db.capacity
  {
    var _ := AdmitPendingMeaning(db, stamp);
  }

  lemma LeaveKeepsCapacity(db: Db, sid: Sid, stamp: int)
    ensures ServeLeave(db, sid, stamp).capacity == db.capacity
  {
    PendingKeepsCapacity(Leave(db, sid), stamp);
  }

  lemma ReapKeepsCapacity(db: Db, stamp: int)
    ensures ServeReap(db, stamp).capacity == db.capacity
  {
    PendingKeepsCapacity(Reap(db), stamp);
  }

  /** Only an administrator's positive number changes the capacity, to that number. */
  lemma ServeSetsCapacity(db: Db, r: Request)
    ensures Serve(db, r).capacity == if r.ChangeCapacity? && r.n > 0 then Some(r.n) else db.capacity
  {
    match r
    case LeaveRoom(sid, stamp) => LeaveKeepsCapacity(db, sid, stamp);
    case ChangeCapacity(n, stamp) => PendingKeepsCapacity(SetCapacity(db, n), stamp);
    case ReleaseSlots(victims, stamp) => PendingKeepsCapacity(Release(db, victims), stamp);
    case AdmitTick(stamp) => PendingKeepsCapacity(db, stamp);
    case ReapTick(stamp) => ReapKeepsCapacity(db, stamp);
    case _ =>
  }

  /** An administrator's number that is accepted. */
  predicate Sets(e: Event) { e.Handle? && e.r.ChangeCapacity? && e.r.n > 0 }

  /** No such number from event `m` on. */
  ghost predicate NoneSetFrom(events: seq<Event>, m: nat) {
    forall j :: m <= j < |events| ==> !Sets(events[j])
  }

  /** Over whole serial runs: the capacity in force is the last positive number asked for. */
  lemma {:induction false} LastNumberCounts(start: Db, events: seq<Event>, i: nat)
    requires i < |events| && Sets(events[i]) && NoneSetFrom(events, i + 1)
    ensures Cap(After(start, events)) == events[i].r.n
  {
    var n := |events| - 1;
    var before := After(start, events[..n]);
    if events[n].Handle? {
      ServeSetsCapacity(before, events[n].r);
    }
    if i < n {
      LastNumberCounts(start, events[..n], i);
    }
  }

  /** Before the first one it is the seed, and 3 without a seed. */
  lemma {:induction false} SeedCounts(start: Db, events: seq<Event>)
    requires NoneSetFrom(events, 0)
    ensures Cap(After(start, events)) == if start.capacity.Some? then start.capacity.value else 3
  {
    if events != [] {
      var n := |events| - 1;
      SeedCounts(start, events[..n]);
      if events[n].Handle? {
        ServeSetsCapacity(After(start, events[..n]), events[n].r);
      }
    }
  }
}
