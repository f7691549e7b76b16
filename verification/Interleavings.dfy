/**
  Every schedule of atomic Redis steps: each script and each single command is one
  step, whoever issues it and whatever happened since that handler's last step.
 */
module Interleavings {
  import opened Lists
  import opened RedisModel

  datatype Command =
    | CmdTryAdmit(sid: Sid, stamp: int)
    | CmdJoinQueue(sid: Sid)
    | CmdAdmitNext(stamp: int)
    | CmdRelease(victims: set<Sid>)
    | CmdLeave(sid: Sid)
    | CmdReap
    | CmdSetHeartbeat(sid: Sid)
    | CmdDeleteSession(sid: Sid)
    | CmdSetCapacity(n: int)
    | CmdInitCapacity(n: int)
    | CmdAdvance(ms: nat)

  function Exec(db: Db, c: Command): Db {
    match c
    case CmdTryAdmit(sid, stamp) => TryAdmit(db, sid, stamp)
    case CmdJoinQueue(sid) => JoinQueue(db, sid)
    case CmdAdmitNext(stamp) => AdmitNext(db, stamp).0
    case CmdRelease(victims) => Release(db, victims)
    case CmdLeave(sid) => Leave(db, sid)
    case CmdReap => Reap(db)
    case CmdSetHeartbeat(sid) => SetHeartbeat(db, sid)
    case CmdDeleteSession(sid) => DeleteSession(db, sid)
    case CmdSetCapacity(n) => SetCapacity(db, n)
    case CmdInitCapacity(n) => InitCapacity(db, n)
    case CmdAdvance(ms) => Advance(db, ms)
  }

  /** The store after a schedule of commands. */
  function Run(start: Db, cmds: seq<Command>): Db {
    if cmds == [] then start
    else Exec(Run(start, cmds[..|cmds| - 1]), cmds[|cmds| - 1])
  }

  // ---- Capacity ----

  /** The largest effective capacity in force so far, and at least zero. */
  function PeakCapacity(start: Db, cmds: seq<Command>): int {
    Max(Cap(Run(start, cmds)),
        if cmds == [] then 0 else PeakCapacity(start, cmds[..|cmds| - 1]))
  }

  /** A step adds at most one session to the room, and only when there was a free slot. */
  lemma StepRespectsCapacity(db: Db, c: Command)
    ensures var after := Exec(db, c);
      && |after.active| <= |db.active| + 1
      && (|after.active| > |db.active| ==> |db.active| < Cap(db))
      && (Full(db) ==> after.active <= db.active)
  {
    match c
    case CmdRelease(victims) => SmallerSet(db.active - victims * db.active, db.active);
    case CmdLeave(sid) => SmallerSet(db.active - {sid}, db.active);
    case CmdReap => SmallerSet(db.active * Live(db), db.active);
    case _ =>
  }

  lemma SmallerSet<T>(a: set<T>, b: set<T>)
    requires a <= b
    ensures |a| <= |b|
  {
    assert b == a + (b - a);
  }

  /** In every schedule from an empty room, it never holds more than the largest capacity so far. */
  lemma {:induction false} NeverOverPeak(clock: int, capacity: Option<int>, cmds: seq<Command>)
    ensures |Run(Empty(clock, capacity), cmds).active| <= PeakCapacity(Empty(clock, capacity), cmds)
  {
    var start := Empty(clock, capacity);
    if cmds != [] {
      var n := |cmds| - 1;
      NeverOverPeak(clock, capacity, cmds[..n]);
      StepRespectsCapacity(Run(start, cmds[..n]), cmds[n]);
    }
  }

  // ---- The capacity in force ----

  /** No SET of the capacity key from step `m` on. */
  ghost predicate NoSetFrom(cmds: seq<Command>, m: nat) {
    forall j :: m <= j < |cmds| ==> !cmds[j].CmdSetCapacity?
  }

  /** SET writes its number, SETNX only where there is none, nothing else touches the key. */
  lemma StepSetsCapacity(db: Db, c: Command)
    ensures c.CmdSetCapacity? ==> Exec(db, c).capacity == Some(c.n)
    ensures c.CmdInitCapacity? && db.capacity.None? ==> Exec(db, c).capacity == Some(c.n)
    ensures !c.CmdSetCapacity? && !(c.CmdInitCapacity? && db.capacity.None?) ==> Exec(db, c).capacity == db.capacity
  {}

  /** In every schedule the capacity in force is the number of the last SET. */
  lemma {:induction false} LastSetCounts(start: Db, cmds: seq<Command>, i: nat)
    requires i < |cmds| && cmds[i].CmdSetCapacity? && NoSetFrom(cmds, i + 1)
    ensures Run(start, cmds).capacity == Some(cmds[i].n)
    ensures Cap(Run(start, cmds)) == cmds[i].n
  {
    var n := |cmds| - 1;
    StepSetsCapacity(Run(start, cmds[..n]), cmds[n]);
    if i < n {
      LastSetCounts(start, cmds[..n], i);
    }
  }

  /** Without a SET it is the number of the first SETNX, unless the key was there. */
  lemma {:induction false} FirstSeedCounts(start: Db, cmds: seq<Command>, i: nat)
    requires NoSetFrom(cmds, 0) && start.capacity.None?
    requires i < |cmds| && cmds[i].CmdInitCapacity? && forall j :: 0 <= j < i ==> !cmds[j].CmdInitCapacity?
    ensures Run(start, cmds).capacity == Some(cmds[i].n)
    ensures Cap(Run(start, cmds)) == cmds[i].n
  {
    var n := |cmds| - 1;
    StepSetsCapacity(Run(start, cmds[..n]), cmds[n]);
    if i < n {
      FirstSeedCounts(start, cmds[..n], i);
    } else {
      UnsetCapacityStays(start, cmds[..n]);
    }
  }

  /** Without either, or with the key there and no SET, it stays what it was, and absent it counts as 3. */
  lemma {:induction false} UnsetCapacityStays(start: Db, cmds: seq<Command>)
    requires NoSetFrom(cmds, 0)
    requires start.capacity.Some? || forall j :: 0 <= j < |cmds| ==> !cmds[j].CmdInitCapacity?
    ensures Run(start, cmds).capacity == start.capacity
    ensures Cap(Run(start, cmds)) == if start.capacity.Some? then start.capacity.value else 3
  {
    if cmds != [] {
      var n := |cmds| - 1;
      UnsetCapacityStays(start, cmds[..n]);
      StepSetsCapacity(Run(start, cmds[..n]), cmds[n]);
    }
  }

  /** No number that a step asks for is above `bound`. */
  ghost predicate AsksAtMost(cmds: seq<Command>, bound: int) {
    forall i :: 0 <= i < |cmds| ==>
      (cmds[i].CmdSetCapacity? ==> cmds[i].n <= bound) && (cmds[i].CmdInitCapacity? ==> cmds[i].n <= bound)
  }

  lemma PeakGrows(start: Db, cmds: seq<Command>, n: nat)
    requires |cmds| == n + 1
    ensures PeakCapacity(start, cmds) == Max(Cap(Exec(Run(start, cmds[..n]), cmds[n])), PeakCapacity(start, cmds[..n]))
  {}

  lemma {:induction false} PeakWasAsked(start: Db, cmds: seq<Command>, bound: int)
    requires bound >= 3 && Cap(start) <= bound && AsksAtMost(cmds, bound)
    ensures Cap(Run(start, cmds)) <= bound && PeakCapacity(start, cmds) <= bound
  {
    if cmds != [] {
      var n := |cmds| - 1;
      PeakWasAsked(start, cmds[..n], bound);
      StepSetsCapacity(Run(start, cmds[..n]), cmds[n]);
      PeakGrows(start, cmds, n);
    }
  }

  /** In every schedule the room stays within any bound of 3 and all the numbers ever asked for. */
  lemma RoomIsAsAsked(clock: int, cmds: seq<Command>, bound: int)
    requires bound >= 3 && AsksAtMost(cmds, bound)
    ensures |Run(Empty(clock, None), cmds).active| <= bound
  {
    NeverOverPeak(clock, None, cmds);
    PeakWasAsked(Empty(clock, None), cmds, bound);
  }

  // ---- Status implies place ----

  /** A hash that says active has a slot, one that says queued has a place in line. */
  ghost predicate StatusBacked(db: Db) {
    && (forall sid: Sid :: StatusOf(db, sid) == Some(Active) ==> sid in db.active)
    && (forall sid: Sid :: StatusOf(db, sid) == Some(Queued) ==> sid in db.queue)
  }

  lemma {:induction false} RemoveFirstKeepsOthers(s: seq<Sid>, x: Sid)
    ensures forall y :: y != x ==> (y in RemoveFirst(s, x) <==> y in s)
    ensures forall y :: y in RemoveFirst(s, x) ==> y in s
  {
    if s != [] && s[0] != x {
      RemoveFirstKeepsOthers(s[1..], x);
      assert forall y :: y in s <==> y == s[0] || y in s[1..];
    } else if s != [] {
      assert forall y :: y in s <==> y == s[0] || y in s[1..];
    }
  }

  /** A pop drops only entries without a hash, and the one it admits. */
  lemma HashedEntriesStay(db: Db, stamp: int)
    ensures var (after, popped) := AdmitNext(db, stamp);
      forall x :: x in db.queue && x in Hashed(db) && Some(x) != popped ==> x in after.queue
  {}

  lemma AdmitNextKeepsBacked(db: Db, stamp: int)
    requires StatusBacked(db)
    ensures StatusBacked(AdmitNext(db, stamp).0)
  {
    HashedEntriesStay(db, stamp);
    var (after, popped) := AdmitNext(db, stamp);
    forall sid: Sid
      ensures StatusOf(after, sid) == if popped == Some(sid) then Some(Active) else StatusOf(db, sid)
    {}
  }

  lemma ReapKeepsBacked(db: Db)
    requires StatusBacked(db)
    ensures StatusBacked(Reap(db))
  {
    KeepMembers(db.queue, Live(db));
  }

  lemma StepKeepsBacked(db: Db, c: Command)
    requires StatusBacked(db)
    ensures StatusBacked(Exec(db, c))
  {
    match c
    case CmdAdmitNext(stamp) => AdmitNextKeepsBacked(db, stamp);
    case CmdReap => ReapKeepsBacked(db);
    case CmdLeave(sid) => RemoveFirstKeepsOthers(db.queue, sid);
    case _ =>
  }

  /** In every schedule, hash expiry and deletion included. */
  lemma {:induction false} StatusIsBacked(clock: int, capacity: Option<int>, cmds: seq<Command>)
    ensures StatusBacked(Run(Empty(clock, capacity), cmds))
  {
    if cmds != [] {
      var n := |cmds| - 1;
      StatusIsBacked(clock, capacity, cmds[..n]);
      StepKeepsBacked(Run(Empty(clock, capacity), cmds[..n]), cmds[n]);
    }
  }

  // ---- Positions ----

  lemma {:induction false} FirstIndexAfterKeep(s: seq<Sid>, keep: set<Sid>, sid: Sid)
    requires sid in keep
    ensures FirstIndex(Keep(s, keep), sid) <= FirstIndex(s, sid)
    ensures Count(Keep(s, keep), sid) == Count(s, sid)
  {
    if s != [] {
      FirstIndexAfterKeep(s[1..], keep, sid);
      if s[0] in keep {
        var t := Keep(s, keep);
        assert t[0] == s[0] && t[1..] == Keep(s[1..], keep);
      }
    }
  }

  lemma {:induction false} FirstIndexOfConcat(a: seq<Sid>, b: seq<Sid>, sid: Sid)
    ensures Count(a + b, sid) == Count(a, sid) + Count(b, sid)
    ensures sid in a ==> FirstIndex(a + b, sid) == FirstIndex(a, sid)
    ensures sid !in a ==> FirstIndex(a + b, sid) == |a| + FirstIndex(b, sid) && Count(a, sid) == 0
  {
    if a == [] {
      assert a + b == b;
    } else {
      assert (a + b)[0] == a[0] && (a + b)[1..] == a[1..] + b;
      FirstIndexOfConcat(a[1..], b, sid);
      assert sid in a <==> sid == a[0] || sid in a[1..];
    }
  }

  lemma {:induction false} CountPositive(s: seq<Sid>, sid: Sid)
    ensures Count(s, sid) > 0 <==> sid in s
  {
    if s != [] {
      CountPositive(s[1..], sid);
      assert sid in s <==> sid == s[0] || sid in s[1..];
    }
  }

  /** The position a waiting session is told. */
  function PositionOf(db: Db, sid: Sid): nat { FirstIndex(db.queue, sid) + 1 }

  lemma PopsAHead(db: Db, stamp: int)
    ensures var after := AdmitNext(db, stamp).0;
      |after.queue| <= |db.queue| && db.queue == db.queue[..|db.queue| - |after.queue|] + after.queue
  {}

  lemma SuffixPosition(head: seq<Sid>, tail: seq<Sid>, sid: Sid)
    requires Count(tail, sid) >= Count(head + tail, sid)
    ensures FirstIndex(tail, sid) <= FirstIndex(head + tail, sid)
  {
    FirstIndexOfConcat(head, tail, sid);
    CountPositive(head, sid);
  }

  lemma RemovalPosition(queue: seq<Sid>, x: Sid, sid: Sid)
    requires sid in queue && Count(RemoveFirst(queue, x), sid) >= Count(queue, sid)
    ensures FirstIndex(RemoveFirst(queue, x), sid) <= FirstIndex(queue, sid)
  {}

  /** A step that leaves all of a session's own entries in line never moves it back. */
  lemma StepKeepsPosition(db: Db, c: Command, sid: Sid)
    requires sid in db.queue && Count(Exec(db, c).queue, sid) >= Count(db.queue, sid)
    ensures sid in Exec(db, c).queue
    ensures PositionOf(Exec(db, c), sid) <= PositionOf(db, sid)
  {
    CountPositive(db.queue, sid);
    CountPositive(Exec(db, c).queue, sid);
    match c
    case CmdJoinQueue(x) => FirstIndexOfConcat(db.queue, [x], sid);
    case CmdAdmitNext(stamp) => PopPosition(db, stamp, sid);
    case CmdLeave(x) =>
      if x !in db.active {
        RemovalPosition(db.queue, x, sid);
      }
    case CmdReap =>
      KeepMembers(db.queue, Live(db));
      FirstIndexAfterKeep(db.queue, Live(db), sid);
    case _ =>
  }

  lemma PopPosition(db: Db, stamp: int, sid: Sid)
    requires Count(AdmitNext(db, stamp).0.queue, sid) >= Count(db.queue, sid)
    ensures FirstIndex(AdmitNext(db, stamp).0.queue, sid) <= FirstIndex(db.queue, sid)
  {
    var rest := AdmitNext(db, stamp).0.queue;
    PopsAHead(db, stamp);
    SuffixPosition(db.queue[..|db.queue| - |rest|], rest, sid);
  }

  /** No step takes one of the session's entries out of the line. */
  ghost predicate EntriesStay(start: Db, cmds: seq<Command>, sid: Sid) {
    forall i :: 0 <= i < |cmds| ==>
      Count(Exec(Run(start, cmds[..i]), cmds[i]).queue, sid) >= Count(Run(start, cmds[..i]).queue, sid)
  }

  /** Over any stretch of any schedule in which none of its entries goes, a position never grows. */
  lemma {:induction false} PositionNeverGrows(start: Db, cmds: seq<Command>, n: nat, sid: Sid)
    requires sid in start.queue && EntriesStay(start, cmds, sid) && n <= |cmds|
    ensures sid in Run(start, cmds[..n]).queue
    ensures PositionOf(Run(start, cmds[..n]), sid) <= PositionOf(start, sid)
  {
    if n > 0 {
      assert cmds[..n][..n - 1] == cmds[..n - 1];
      PositionNeverGrows(start, cmds, n - 1, sid);
      StepKeepsPosition(Run(start, cmds[..n - 1]), cmds[n - 1], sid);
    }
  }

  // ---- The timing history ----

  /** The stamp a step records, if it admits somebody. */
  function Recorded(db: Db, c: Command): seq<int> {
    match c
    case CmdTryAdmit(_, stamp) => if Full(db) then [] else [stamp]
    case CmdAdmitNext(stamp) => if AdmitNext(db, stamp).1.Some? then [stamp] else []
    case _ => []
  }

  /** Every admission ever recorded, newest first. */
  function AdmissionLog(start: Db, cmds: seq<Command>): seq<int> {
    if cmds == [] then [] else
      var n := |cmds| - 1;
      Recorded(Run(start, cmds[..n]), cmds[n]) + AdmissionLog(start, cmds[..n])
  }

  /** In every schedule the stored history is the newest hundred entries of the whole log. */
  lemma {:induction false} HistoryIsNewest(clock: int, capacity: Option<int>, cmds: seq<Command>)
    ensures Run(Empty(clock, capacity), cmds).history == Newest(AdmissionLog(Empty(clock, capacity), cmds))
  {
    var start := Empty(clock, capacity);
    if cmds != [] {
      var n := |cmds| - 1;
      HistoryIsNewest(clock, capacity, cmds[..n]);
      var db := Run(start, cmds[..n]);
      StepRecords(db, cmds[n]);
      NewestOfOneMore(Recorded(db, cmds[n]), AdmissionLog(start, cmds[..n]));
    }
  }

  /** In other words: the hundred most recent stamps, or all of them while there are fewer. */
  lemma HistoryIsRecent(clock: int, capacity: Option<int>, cmds: seq<Command>)
    ensures var history, log := Run(Empty(clock, capacity), cmds).history, AdmissionLog(Empty(clock, capacity), cmds);
      history <= log && |history| == Min(100, |log|)
  {
    HistoryIsNewest(clock, capacity, cmds);
  }

  lemma StepRecords(db: Db, c: Command)
    ensures |Recorded(db, c)| <= 1
    ensures Exec(db, c).history ==
            if Recorded(db, c) == [] then db.history else Newest(Recorded(db, c) + db.history)
  {}

  lemma NewestOfOneMore(latest: seq<int>, log: seq<int>)
    ensures Newest(latest + Newest(log)) == Newest(latest + log)
    ensures [] + log == log
  {}
}
