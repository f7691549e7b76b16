/**
  The handlers and the worker as threads with a program counter, one Redis command
  or script a step, running against the shared store in any order.
 */
module Threads {
  import opened Lists
  import opened RedisModel
  import opened Requests
  import opened Interleavings
  import Tickets

  /** The root handler's steps. */
  datatype GateStep = ReadStatus | ReadMember | Recovering | Trying | Joining

  /** The steps of the queue page, the position poll and the heartbeat ping. */
  datatype PageStep = PageStatus | PageMember | PollStatus | PollMember | PollRecovering | PingStatus

  /** Where a thread stands. `seen` is the session's eviction count at the thread's status read. */
  datatype Pc =
    | Gate(at: GateStep, sid: Sid, atRoot: bool, stamp: int, seen: nat)
    | Page(on: PageStep, sid: Sid, seen: nat)
    | Beat(sid: Sid)
    | Script(c: Command, stamp: int)
    | Pending(stamp: int)
    | PendingBeat(sid: Sid, stamp: int)
    | Done

  /** Where the thread that serves a request starts. */
  function StartOf(r: Request): Pc {
    match r
    case Visit(sid, atRoot, stamp) => Gate(ReadStatus, sid, atRoot, stamp, 0)
    case QueuePage(sid) => if sid == NO_SESSION then Done else Page(PageStatus, sid, 0)
    case PollPosition(sid) => if sid == NO_SESSION then Done else Page(PollStatus, sid, 0)
    case Ping(sid) => if sid == NO_SESSION then Done else Page(PingStatus, sid, 0)
    case LeaveRoom(sid, stamp) => if sid == NO_SESSION then Done else Script(CmdLeave(sid), stamp)
    case ChangeCapacity(n, stamp) => if n <= 0 then Done else Script(CmdSetCapacity(n), stamp)
    case ReleaseSlots(victims, stamp) => Script(CmdRelease(victims), stamp)
    case AdmitTick(stamp) => Pending(stamp)
    case ReapTick(stamp) => Script(CmdReap, stamp)
  }

  function GateCommand(pc: Pc): Option<Command>
    requires pc.Gate?
  {
    match pc.at
    case Recovering => Some(CmdDeleteSession(pc.sid))
    case Trying => Some(CmdTryAdmit(pc.sid, pc.stamp))
    case Joining => Some(CmdJoinQueue(pc.sid))
    case _ => None
  }

  /** The command a thread issues next, if it is not a mere read. */
  function CommandOf(pc: Pc): Option<Command> {
    match pc
    case Gate(_, _, _, _, _) => GateCommand(pc)
    case Page(on, sid, _) => if on.PollRecovering? then Some(CmdDeleteSession(sid)) else None
    case Beat(sid) => Some(CmdSetHeartbeat(sid))
    case Script(c, _) => Some(c)
    case Pending(stamp) => Some(CmdAdmitNext(stamp))
    case PendingBeat(sid, _) => Some(CmdSetHeartbeat(sid))
    case Done => None
  }

  function GateNext(db: Db, pc: Pc, evictions: nat): Pc
    requires pc.Gate?
  {
    match pc.at
    case ReadStatus =>
      if StatusOf(db, pc.sid) == Some(Active) then pc.(at := ReadMember, seen := evictions)
      else if pc.atRoot then pc.(at := Trying) else Done
    case ReadMember => if pc.sid in db.active then Done else pc.(at := Recovering)
    case Recovering => if pc.atRoot then pc.(at := Trying) else Done
    case Trying => if Full(db) then pc.(at := Joining) else Beat(pc.sid)
    case Joining => Beat(pc.sid)
  }

  function PageNext(db: Db, pc: Pc, evictions: nat): Pc
    requires pc.Page?
  {
    match pc.on
    case PageStatus => if StatusOf(db, pc.sid) == Some(Active) then pc.(on := PageMember) else Beat(pc.sid)
    case PageMember => if pc.sid in db.active then Done else Beat(pc.sid)
    case PollStatus =>
      if StatusOf(db, pc.sid) == Some(Active) then pc.(on := PollMember, seen := evictions) else Done
    case PollMember => if pc.sid in db.active then Done else pc.(on := PollRecovering)
    case PollRecovering => Done
    case PingStatus => if StatusOf(db, pc.sid).Some? then Beat(pc.sid) else Done
  }

  /** Leaving refills the room when a slot fell free, reaping when somebody was evicted. */
  predicate Refills(db: Db, c: Command) {
    match c
    case CmdLeave(sid) => sid in db.active
    case CmdReap => Evicted(db) > 0
    case _ => true
  }

  /** Where the thread goes on, given the store its step ran on. */
  function NextOf(db: Db, pc: Pc, evictions: nat): Pc {
    match pc
    case Gate(_, _, _, _, _) => GateNext(db, pc, evictions)
    case Page(_, _, _) => PageNext(db, pc, evictions)
    case Beat(_) => Done
    case Script(c, stamp) => if Refills(db, c) then Pending(stamp) else Done
    case Pending(stamp) =>
      var popped := AdmitNext(db, stamp).1;
      if popped.Some? then PendingBeat(popped.value, stamp) else Done
    case PendingBeat(_, stamp) => Pending(stamp)
    case Done => Done
  }

  function Apply(db: Db, c: Option<Command>): Db {
    if c.Some? then Exec(db, c.value) else db
  }

  // ---- A thread left alone serves its request whole ----

  function GateStage(at: GateStep): nat {
    match at
    case ReadStatus => 6
    case ReadMember => 5
    case Recovering => 4
    case Trying => 3
    case Joining => 2
  }

  function PageStage(on: PageStep): nat {
    match on
    case PollStatus => 4
    case PollMember => 3
    case PageStatus => 3
    case _ => 2
  }

  function Stage(pc: Pc): nat {
    match pc
    case Gate(at, _, _, _, _) => GateStage(at)
    case Page(on, _, _) => PageStage(on)
    case Script(_, _) => 2
    case Done => 0
    case _ => 1
  }

  lemma StepDescends(db: Db, pc: Pc)
    requires !pc.Done?
    ensures var next := NextOf(db, pc, 0);
      || Stage(next) < Stage(pc)
      || (pc.Pending? && next.PendingBeat? && |Apply(db, CommandOf(pc)).queue| < |db.queue|)
      || (pc.PendingBeat? && next.Pending? && |Apply(db, CommandOf(pc)).queue| == |db.queue|)
  {}

  /** The store after a thread ran from `pc` to its end with nobody in between. */
  function Finish(db: Db, pc: Pc): Db
    decreases Stage(pc), |db.queue|, if pc.PendingBeat? then 1 else 0
  {
    if pc.Done? then db else
      StepDescends(db, pc);
      Finish(Apply(db, CommandOf(pc)), NextOf(db, pc, 0))
  }

  lemma BeatAlone(db: Db, sid: Sid)
    ensures Finish(db, Beat(sid)) == SetHeartbeat(db, sid)
  {}

  lemma {:induction false} PendingAlone(db: Db, stamp: int)
    ensures Finish(db, Pending(stamp)) == AdmitPending(db, stamp).0
    decreases |db.queue|
  {
    var (next, popped) := AdmitNext(db, stamp);
    if popped.Some? {
      AdmitNextShrinks(db, stamp);
      PendingBeatAlone(next, popped.value, stamp);
      PendingAlone(SetHeartbeat(next, popped.value), stamp);
    } else {
      assert Finish(next, Done) == next;
    }
  }

  lemma PendingBeatAlone(db: Db, sid: Sid, stamp: int)
    ensures Finish(db, PendingBeat(sid, stamp)) == Finish(SetHeartbeat(db, sid), Pending(stamp))
  {}

  lemma ScriptAlone(db: Db, c: Command, stamp: int)
    ensures Finish(db, Script(c, stamp)) ==
            if Refills(db, c) then AdmitPending(Exec(db, c), stamp).0 else Exec(db, c)
  {
    PendingAlone(Exec(db, c), stamp);
    assert Finish(Exec(db, c), Done) == Exec(db, c);
  }

  lemma PageAlone(db: Db, sid: Sid)
    ensures Finish(db, Page(PageStatus, sid, 0)) == if Admitted(db, sid) then db else SetHeartbeat(db, sid)
  {
    BeatAlone(db, sid);
    assert Finish(db, Page(PageMember, sid, 0)) == if sid in db.active then db else SetHeartbeat(db, sid);
  }

  lemma PollAlone(db: Db, sid: Sid)
    ensures Finish(db, Page(PollStatus, sid, 0)) == Recover(db, sid)
  {
    var deleted := DeleteSession(db, sid);
    assert Finish(deleted, Done) == deleted;
    assert Finish(db, Page(PollRecovering, sid, 0)) == deleted;
    assert Finish(db, Page(PollMember, sid, 0)) == if sid in db.active then db else deleted;
  }

  lemma PingAlone(db: Db, sid: Sid)
    ensures Finish(db, Page(PingStatus, sid, 0)) == if StatusOf(db, sid).Some? then SetHeartbeat(db, sid) else db
  {
    BeatAlone(db, sid);
  }

  lemma TryAlone(db: Db, pc: Pc)
    requires pc.Gate? && pc.at.Trying?
    ensures Finish(db, pc) ==
            SetHeartbeat(if Full(db) then JoinQueue(db, pc.sid) else TryAdmit(db, pc.sid, pc.stamp), pc.sid)
  {
    if Full(db) {
      BeatAlone(JoinQueue(db, pc.sid), pc.sid);
      assert Finish(db, pc.(at := Joining)) == Finish(JoinQueue(db, pc.sid), Beat(pc.sid));
    } else {
      BeatAlone(TryAdmit(db, pc.sid, pc.stamp), pc.sid);
    }
  }

  lemma MemberAlone(db: Db, pc: Pc)
    requires pc.Gate? && pc.at.ReadMember?
    ensures Finish(db, pc) ==
            if pc.sid in db.active then db
            else if pc.atRoot then Finish(DeleteSession(db, pc.sid), pc.(at := Trying))
            else DeleteSession(db, pc.sid)
  {
    var deleted := DeleteSession(db, pc.sid);
    assert Finish(deleted, Done) == deleted;
    assert Finish(db, pc.(at := Recovering)) ==
           if pc.atRoot then Finish(deleted, pc.(at := Trying)) else deleted;
  }

  lemma VisitAlone(db: Db, sid: Sid, atRoot: bool, stamp: int)
    ensures Finish(db, Gate(ReadStatus, sid, atRoot, stamp, 0)) == ServeVisit(db, sid, atRoot, stamp)
  {
    if StatusOf(db, sid) == Some(Active) {
      MemberAlone(db, Gate(ReadMember, sid, atRoot, stamp, 0));
      TryAlone(DeleteSession(db, sid), Gate(Trying, sid, atRoot, stamp, 0));
    } else {
      TryAlone(db, Gate(Trying, sid, atRoot, stamp, 0));
    }
  }

  lemma PageRequestAlone(db: Db, r: Request)
    requires r.QueuePage? || r.PollPosition? || r.Ping?
    ensures Finish(db, StartOf(r)) == Serve(db, r)
  {
    PageAlone(db, r.sid);
    PollAlone(db, r.sid);
    PingAlone(db, r.sid);
  }

  lemma LeaveAlone(db: Db, sid: Sid, stamp: int)
    ensures Finish(db, StartOf(LeaveRoom(sid, stamp))) == Serve(db, LeaveRoom(sid, stamp))
  {
    if sid != NO_SESSION {
      ScriptAlone(db, CmdLeave(sid), stamp);
    }
  }

  lemma ReapAlone(db: Db, stamp: int)
    ensures Finish(db, StartOf(ReapTick(stamp))) == Serve(db, ReapTick(stamp))
  {
    ScriptAlone(db, CmdReap, stamp);
  }

  lemma AdminAlone(db: Db, r: Request)
    requires r.ChangeCapacity? || r.ReleaseSlots?
    ensures Finish(db, StartOf(r)) == Serve(db, r)
  {
    if r.ChangeCapacity? {
      ScriptAlone(db, CmdSetCapacity(r.n), r.stamp);
    } else {
      ScriptAlone(db, CmdRelease(r.victims), r.stamp);
    }
  }

  /** The serial model is the interleaved one with the other threads standing still. */
  lemma RunsAlone(db: Db, r: Request)
    ensures Finish(db, StartOf(r)) == Serve(db, r)
  {
    if r.Visit? {
      VisitAlone(db, r.sid, r.atRoot, r.stamp);
    } else if r.AdmitTick? {
      PendingAlone(db, r.stamp);
    } else if r.QueuePage? || r.PollPosition? || r.Ping? {
      PageRequestAlone(db, r);
    } else if r.LeaveRoom? {
      LeaveAlone(db, r.sid, r.stamp);
    } else if r.ReapTick? {
      ReapAlone(db, r.stamp);
    } else {
      AdminAlone(db, r);
    }
  }

  // ---- Any number of threads in any order ----

  /** `evictions` counts, for each session, how often it lost its slot so far. */
  datatype System = System(db: Db, threads: seq<Pc>, evictions: map<Sid, nat>)

  datatype Action = Spawn(r: Request) | Step(t: nat) | Tick(ms: nat)

  function LossesOf(evictions: map<Sid, nat>, sid: Sid): nat {
    if sid in evictions then evictions[sid] else 0
  }

  function CountLosses(evictions: map<Sid, nat>, lost: set<Sid>): map<Sid, nat> {
    map sid | sid in evictions.Keys + lost ::
      LossesOf(evictions, sid) + if sid in lost then 1 else 0
  }

  function PerformCommand(sys: System, c: Option<Command>): System {
    var db := Apply(sys.db, c);
    sys.(db := db, evictions := CountLosses(sys.evictions, sys.db.active - db.active))
  }

  function Perform(sys: System, a: Action): System {
    match a
    case Spawn(r) => sys.(threads := sys.threads + [StartOf(r)])
    case Tick(ms) => PerformCommand(sys, Some(CmdAdvance(ms)))
    case Step(t) =>
      if t >= |sys.threads| then sys else
        var pc := sys.threads[t];
        var next := NextOf(sys.db, pc, if pc.Gate? || pc.Page? then LossesOf(sys.evictions, pc.sid) else 0);
        PerformCommand(sys, CommandOf(pc)).(threads := sys.threads[t := next])
  }

  function Issued(sys: System, a: Action): seq<Command> {
    match a
    case Spawn(_) => []
    case Tick(ms) => [CmdAdvance(ms)]
    case Step(t) =>
      if t < |sys.threads| && CommandOf(sys.threads[t]).Some? then [CommandOf(sys.threads[t]).value] else []
  }

  function Execute(start: System, actions: seq<Action>): System {
    if actions == [] then start
    else Perform(Execute(start, actions[..|actions| - 1]), actions[|actions| - 1])
  }

  function Schedule(start: System, actions: seq<Action>): seq<Command> {
    if actions == [] then [] else
      var n := |actions| - 1;
      Schedule(start, actions[..n]) + Issued(Execute(start, actions[..n]), actions[n])
  }

  /** Whatever the threads do, the store runs through a schedule of commands. */
  lemma {:induction false} ThreadsFollowASchedule(start: System, actions: seq<Action>)
    ensures Execute(start, actions).db == Run(start.db, Schedule(start, actions))
  {
    if actions != [] {
      var n := |actions| - 1;
      ThreadsFollowASchedule(start, actions[..n]);
      var cmds, sys := Schedule(start, actions[..n]), Execute(start, actions[..n]);
      var last := Issued(sys, actions[n]);
      if last == [] {
        assert cmds + last == cmds;
      } else {
        RunOneMore(start.db, cmds, last[0]);
      }
    }
  }

  lemma RunOneMore(start: Db, cmds: seq<Command>, c: Command)
    ensures Run(start, cmds + [c]) == Exec(Run(start, cmds), c)
  {}

  /** No handler or worker thread has started yet. */
  function Boot(clock: int, capacity: Option<int>): System { System(Empty(clock, capacity), [], map[]) }

  /**
    So whatever any number of threads do in whatever order: the room is within the peak
    capacity, a status is backed by a place, and line and calls follow the tickets.
   */
  lemma ThreadsKeepGuarantees(clock: int, capacity: Option<int>, actions: seq<Action>)
    ensures var start, db := Empty(clock, capacity), Execute(Boot(clock, capacity), actions).db;
      var cmds := Schedule(Boot(clock, capacity), actions);
      && |db.active| <= PeakCapacity(start, cmds)
      && StatusBacked(db)
      && Tickets.InOrder(Tickets.Tickets(start, cmds), Tickets.PushLog(start, cmds), db.queue)
      && Tickets.InOrder(Tickets.Called(start, cmds), Tickets.PushLog(start, cmds), Tickets.AdmittedFromLine(start, cmds))
      && Tickets.Before(Tickets.Called(start, cmds), Tickets.Tickets(start, cmds))
  {
    var cmds := Schedule(Boot(clock, capacity), actions);
    ThreadsFollowASchedule(Boot(clock, capacity), actions);
    NeverOverPeak(clock, capacity, cmds);
    StatusIsBacked(clock, capacity, cmds);
    Tickets.QueueFollowsTickets(clock, capacity, cmds);
    Tickets.ServedInTicketOrder(clock, capacity, cmds);
  }

  // ---- The recovery branch ----

  /** A slot is lost only by release, by leaving, or to the reaper for want of a heartbeat. */
  lemma OnlyEvictionsFreeSlots(db: Db, c: Command, sid: Sid)
    requires sid in db.active && sid !in Exec(db, c).active
    ensures || (c.CmdRelease? && sid in c.victims)
            || c == CmdLeave(sid)
            || (c.CmdReap? && sid !in Live(db))
  {}

  predicate ReadActive(pc: Pc) { (pc.Gate? && pc.at.ReadMember?) || (pc.Page? && pc.on.PollMember?) }

  predicate InRecovery(pc: Pc) { (pc.Gate? && pc.at.Recovering?) || (pc.Page? && pc.on.PollRecovering?) }

  /** A thread that read status active still finds its slot unless it lost it since. */
  ghost predicate ReadIsFair(active: set<Sid>, evictions: map<Sid, nat>, pc: Pc) {
    && (ReadActive(pc) ==>
          && pc.seen <= LossesOf(evictions, pc.sid)
          && (pc.seen == LossesOf(evictions, pc.sid) ==> pc.sid in active))
    && (InRecovery(pc) ==> pc.seen < LossesOf(evictions, pc.sid))
  }

  ghost predicate Fair(sys: System) {
    && StatusBacked(sys.db)
    && forall t :: 0 <= t < |sys.threads| ==> ReadIsFair(sys.db.active, sys.evictions, sys.threads[t])
  }

  lemma LossesKeepFair(before: set<Sid>, evictions: map<Sid, nat>, after: set<Sid>, pc: Pc)
    requires ReadIsFair(before, evictions, pc)
    ensures ReadIsFair(after, CountLosses(evictions, before - after), pc)
  {}

  lemma CommandKeepsFair(sys: System, c: Option<Command>)
    requires Fair(sys)
    ensures Fair(PerformCommand(sys, c))
  {
    var after := PerformCommand(sys, c);
    if c.Some? {
      StepKeepsBacked(sys.db, c.value);
    }
    forall t | 0 <= t < |sys.threads| ensures ReadIsFair(after.db.active, after.evictions, after.threads[t]) {
      LossesKeepFair(sys.db.active, sys.evictions, after.db.active, sys.threads[t]);
    }
  }

  /** The read itself: status active means the slot is there now. */
  lemma NextIsFair(db: Db, evictions: map<Sid, nat>, pc: Pc, n: nat)
    requires StatusBacked(db) && ReadIsFair(db.active, evictions, pc)
    requires pc.Gate? || pc.Page? ==> n == LossesOf(evictions, pc.sid)
    ensures ReadIsFair(db.active, evictions, NextOf(db, pc, n))
  {}

  lemma StepKeepsFair(sys: System, t: nat)
    requires Fair(sys) && t < |sys.threads|
    ensures Fair(Perform(sys, Step(t)))
  {
    var pc := sys.threads[t];
    var n := if pc.Gate? || pc.Page? then LossesOf(sys.evictions, pc.sid) else 0;
    var next := NextOf(sys.db, pc, n);
    NextIsFair(sys.db, sys.evictions, pc, n);
    var moved := sys.(threads := sys.threads[t := next]);
    assert Fair(moved);
    CommandKeepsFair(moved, CommandOf(pc));
    assert Perform(sys, Step(t)) == PerformCommand(moved, CommandOf(pc));
  }

  lemma PerformKeepsFair(sys: System, a: Action)
    requires Fair(sys)
    ensures Fair(Perform(sys, a))
  {
    match a
    case Spawn(r) =>
    case Tick(ms) => CommandKeepsFair(sys, Some(CmdAdvance(ms)));
    case Step(t) =>
      if t < |sys.threads| {
        StepKeepsFair(sys, t);
      }
  }

  /**
    In every execution from an empty store, a thread enters the gate's recovery branch
    only after its session lost its slot between the thread's two reads.
   */
  lemma {:induction false} RecoveryFollowsEviction(clock: int, capacity: Option<int>, actions: seq<Action>)
    ensures var sys := Execute(Boot(clock, capacity), actions);
      && Fair(sys)
      && forall t :: 0 <= t < |sys.threads| && InRecovery(sys.threads[t]) ==>
           sys.threads[t].seen < LossesOf(sys.evictions, sys.threads[t].sid)
  {
    if actions != [] {
      var n := |actions| - 1;
      RecoveryFollowsEviction(clock, capacity, actions[..n]);
      PerformKeepsFair(Execute(Boot(clock, capacity), actions[..n]), actions[n]);
    }
  }
}
