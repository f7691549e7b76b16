/**
  The waiting line in every schedule of atomic Redis steps: every RPUSH draws the next
  ticket, and the line and the admissions from it follow the tickets. Who is let in
  without queueing does not wait for them; when that happens is said exactly.
 */
module Tickets {
  import opened Lists
  import opened RedisModel
  import opened Interleavings

  // ---- The log of arrivals and the tickets in line ----

  /** What a step appends to the queue. */
  function Pushes(db: Db, c: Command): seq<Sid> {
    if c.CmdJoinQueue? && StatusOf(db, c.sid).None? then [c.sid] else []
  }

  /** Every RPUSH of the schedule in order; an entry's ticket is its index here. */
  function PushLog(start: Db, cmds: seq<Command>): seq<Sid> {
    if cmds == [] then [] else
      var n := |cmds| - 1;
      PushLog(start, cmds[..n]) + Pushes(Run(start, cmds[..n]), cmds[n])
  }

  /** How many entries an admission pops. */
  function PopCount(db: Db, stamp: int): int { |db.queue| - |AdmitNext(db, stamp).0.queue| }

  function Behind(tickets: seq<nat>, n: int): seq<nat> {
    if 0 <= n <= |tickets| then tickets[n..] else []
  }

  /** The tickets of the given sessions. */
  function TicketsOf(log: seq<Sid>, sids: set<Sid>): set<nat> {
    set t: nat | t < |log| && log[t] in sids
  }

  /** The line without the first ticket of a session. */
  function WithoutFirst(tickets: seq<nat>, own: set<nat>): seq<nat> {
    if tickets == [] then []
    else if tickets[0] in own then tickets[1..]
    else [tickets[0]] + WithoutFirst(tickets[1..], own)
  }

  /** The tickets in line after a step: entries leave at the head, one by one or by the filter, and come at the end. */
  function TicketsAfter(tickets: seq<nat>, log: seq<Sid>, db: Db, c: Command): seq<nat> {
    match c
    case CmdJoinQueue(_) => if Pushes(db, c) == [] then tickets else tickets + [|log|]
    case CmdAdmitNext(stamp) => Behind(tickets, PopCount(db, stamp))
    case CmdLeave(sid) => if sid in db.active then tickets else WithoutFirst(tickets, TicketsOf(log, {sid}))
    case CmdReap => Keep(tickets, TicketsOf(log, Live(db)))
    case _ => tickets
  }

  function Tickets(start: Db, cmds: seq<Command>): seq<nat> {
    if cmds == [] then [] else
      var n := |cmds| - 1;
      TicketsAfter(Tickets(start, cmds[..n]), PushLog(start, cmds[..n]), Run(start, cmds[..n]), cmds[n])
  }

  ghost predicate Increasing(s: seq<nat>) {
    forall i, j :: 0 <= i < j < |s| ==> s[i] < s[j]
  }

  /** Each ticket names the session that drew it. */
  ghost predicate Names(tickets: seq<nat>, log: seq<Sid>, sids: seq<Sid>) {
    && |tickets| == |sids|
    && forall i :: 0 <= i < |tickets| ==> tickets[i] < |log| && log[tickets[i]] == sids[i]
  }

  /** The queue is the log read at strictly increasing tickets. */
  ghost predicate InOrder(tickets: seq<nat>, log: seq<Sid>, queue: seq<Sid>) {
    Increasing(tickets) && Names(tickets, log, queue)
  }

  // ---- One step ----

  lemma TailInOrder(tickets: seq<nat>, log: seq<Sid>, queue: seq<Sid>, n: nat)
    requires InOrder(tickets, log, queue) && n <= |tickets|
    ensures InOrder(tickets[n..], log, queue[n..])
    ensures forall t :: t in tickets[n..] ==> t in tickets
  {}

  lemma ConsInOrder(tickets: seq<nat>, log: seq<Sid>, queue: seq<Sid>, rest: seq<nat>, left: seq<Sid>)
    requires InOrder(tickets, log, queue) && tickets != [] && InOrder(rest, log, left)
    requires forall t :: t in rest ==> t in tickets[1..]
    ensures InOrder([tickets[0]] + rest, log, [queue[0]] + left)
  {
    assert forall t :: t in tickets[1..] ==> tickets[0] < t;
    var all := [tickets[0]] + rest;
    forall i, j | 0 <= i < j < |all| ensures all[i] < all[j] {
      if i == 0 {
        assert all[j] in rest;
      }
    }
  }

  lemma {:induction false} KeepInOrder(tickets: seq<nat>, log: seq<Sid>, queue: seq<Sid>, live: set<Sid>)
    requires InOrder(tickets, log, queue)
    ensures InOrder(Keep(tickets, TicketsOf(log, live)), log, Keep(queue, live))
    ensures forall t :: t in Keep(tickets, TicketsOf(log, live)) ==> t in tickets
  {
    KeepMembers(tickets, TicketsOf(log, live));
    if tickets != [] {
      TailInOrder(tickets, log, queue, 1);
      KeepInOrder(tickets[1..], log, queue[1..], live);
      if queue[0] in live {
        ConsInOrder(tickets, log, queue, Keep(tickets[1..], TicketsOf(log, live)), Keep(queue[1..], live));
      }
    }
  }

  lemma {:induction false} RemoveInOrder(tickets: seq<nat>, log: seq<Sid>, queue: seq<Sid>, sid: Sid)
    requires InOrder(tickets, log, queue)
    ensures InOrder(WithoutFirst(tickets, TicketsOf(log, {sid})), log, RemoveFirst(queue, sid))
    ensures forall t :: t in WithoutFirst(tickets, TicketsOf(log, {sid})) ==> t in tickets
  {
    if tickets != [] {
      TailInOrder(tickets, log, queue, 1);
      RemoveInOrder(tickets[1..], log, queue[1..], sid);
      if queue[0] != sid {
        ConsInOrder(tickets, log, queue, WithoutFirst(tickets[1..], TicketsOf(log, {sid})), RemoveFirst(queue[1..], sid));
      }
    }
  }

  lemma JoinInOrder(tickets: seq<nat>, log: seq<Sid>, queue: seq<Sid>, sid: Sid)
    requires InOrder(tickets, log, queue)
    ensures InOrder(tickets + [|log|], log + [sid], queue + [sid])
  {}

  /** The pops take the tickets of a head of the line. */
  lemma PopInOrder(tickets: seq<nat>, log: seq<Sid>, db: Db, stamp: int)
    requires InOrder(tickets, log, db.queue)
    ensures 0 <= PopCount(db, stamp) <= |tickets|
    ensures AdmitNext(db, stamp).0.queue == db.queue[PopCount(db, stamp)..]
    ensures InOrder(tickets[PopCount(db, stamp)..], log, AdmitNext(db, stamp).0.queue)
  {
    PopsAHead(db, stamp);
    var n := PopCount(db, stamp);
    assert db.queue[n..] == AdmitNext(db, stamp).0.queue;
    TailInOrder(tickets, log, db.queue, n);
  }

  lemma StepInOrder(tickets: seq<nat>, log: seq<Sid>, db: Db, c: Command)
    requires InOrder(tickets, log, db.queue)
    ensures InOrder(TicketsAfter(tickets, log, db, c), log + Pushes(db, c), Exec(db, c).queue)
    ensures forall t :: t in TicketsAfter(tickets, log, db, c) ==> t in tickets || t == |log|
  {
    if Pushes(db, c) == [] {
      assert log + Pushes(db, c) == log;
    }
    match c
    case CmdJoinQueue(sid) => JoinInOrder(tickets, log, db.queue, sid);
    case CmdAdmitNext(stamp) => PopInOrder(tickets, log, db, stamp);
    case CmdLeave(sid) => RemoveInOrder(tickets, log, db.queue, sid);
    case CmdReap => KeepInOrder(tickets, log, db.queue, Live(db));
    case _ =>
  }

  // ---- Every schedule ----

  /** In every schedule the queue holds its tickets in strictly increasing order. */
  lemma {:induction false} QueueFollowsTickets(clock: int, capacity: Option<int>, cmds: seq<Command>)
    ensures var start := Empty(clock, capacity);
      InOrder(Tickets(start, cmds), PushLog(start, cmds), Run(start, cmds).queue)
  {
    var start := Empty(clock, capacity);
    if cmds != [] {
      var n := |cmds| - 1;
      QueueFollowsTickets(clock, capacity, cmds[..n]);
      StepInOrder(Tickets(start, cmds[..n]), PushLog(start, cmds[..n]), Run(start, cmds[..n]), cmds[n]);
    }
  }

  /** From one moment of a schedule to a later one: the log only grows, and tickets still in line are old ones or newer than all. */
  lemma {:induction false} TicketsPersist(clock: int, capacity: Option<int>, cmds: seq<Command>, m: nat)
    requires m <= |cmds|
    ensures var start := Empty(clock, capacity);
      && PushLog(start, cmds[..m]) <= PushLog(start, cmds)
      && forall t :: t in Tickets(start, cmds) ==> t in Tickets(start, cmds[..m]) || t >= |PushLog(start, cmds[..m])|
  {
    if m == |cmds| {
      assert cmds[..m] == cmds;
    } else {
      var start, n := Empty(clock, capacity), |cmds| - 1;
      assert cmds[..n][..m] == cmds[..m];
      TicketsPersist(clock, capacity, cmds[..n], m);
      QueueFollowsTickets(clock, capacity, cmds[..n]);
      StepInOrder(Tickets(start, cmds[..n]), PushLog(start, cmds[..n]), Run(start, cmds[..n]), cmds[n]);
    }
  }

  /**
    Nobody overtakes, in any interleaving: two entries that stand in line at one moment
    and still stand there later keep their order, and whoever came meanwhile stands behind both.
    `i` and `j` are places at the earlier moment, `k` and `l` at the later one.
   */
  lemma NobodyOvertakes(clock: int, capacity: Option<int>, cmds: seq<Command>, m: nat, i: nat, k: nat, l: nat)
    requires m <= |cmds|
    requires var start := Empty(clock, capacity);
      var earlier, later := Tickets(start, cmds[..m]), Tickets(start, cmds);
      i < |earlier| && k < |later| && l < |later| && earlier[i] == later[k]
    ensures var start := Empty(clock, capacity);
      var earlier, later := Tickets(start, cmds[..m]), Tickets(start, cmds);
      && |earlier| == |Run(start, cmds[..m]).queue| && |later| == |Run(start, cmds).queue|
      && Run(start, cmds).queue[k] == Run(start, cmds[..m]).queue[i]
      && (forall j :: 0 <= j < |earlier| && earlier[j] == later[l] ==> (k < l <==> i < j))
      && (later[l] !in earlier ==> k < l)
  {
    var start := Empty(clock, capacity);
    QueueFollowsTickets(clock, capacity, cmds[..m]);
    QueueFollowsTickets(clock, capacity, cmds);
    TicketsPersist(clock, capacity, cmds, m);
    SameOrder(Tickets(start, cmds[..m]), Tickets(start, cmds), |PushLog(start, cmds[..m])|, i, k, l);
  }

  lemma SameOrder(earlier: seq<nat>, later: seq<nat>, issued: nat, i: nat, k: nat, l: nat)
    requires Increasing(earlier) && Increasing(later)
    requires i < |earlier| && k < |later| && l < |later| && earlier[i] == later[k]
    requires earlier[i] < issued && (later[l] in earlier || later[l] >= issued)
    ensures forall j :: 0 <= j < |earlier| && earlier[j] == later[l] ==> (k < l <==> i < j)
    ensures later[l] !in earlier ==> k < l
  {}

  // ---- Admissions ----

  /** The ticket of the session that a step admits from the line. */
  function Calls(tickets: seq<nat>, db: Db, c: Command): seq<nat> {
    if c.CmdAdmitNext? && AdmitNext(db, c.stamp).1.Some? && 0 < PopCount(db, c.stamp) <= |tickets|
    then [tickets[PopCount(db, c.stamp) - 1]] else []
  }

  /** The tickets admitted from the line so far, in order of admission. */
  function Called(start: Db, cmds: seq<Command>): seq<nat> {
    if cmds == [] then [] else
      var n := |cmds| - 1;
      Called(start, cmds[..n]) + Calls(Tickets(start, cmds[..n]), Run(start, cmds[..n]), cmds[n])
  }

  /** The sessions that AdmitNext answered so far. */
  function AdmittedFromLine(start: Db, cmds: seq<Command>): seq<Sid> {
    if cmds == [] then [] else
      var n := |cmds| - 1;
      AdmittedFromLine(start, cmds[..n]) + Answers(Run(start, cmds[..n]), cmds[n])
  }

  function Answers(db: Db, c: Command): seq<Sid> {
    if c.CmdAdmitNext? && AdmitNext(db, c.stamp).1.Some? then [AdmitNext(db, c.stamp).1.value] else []
  }

  /** The ticket called is the last one popped: behind all called before, ahead of all left. */
  lemma CallsInOrder(tickets: seq<nat>, log: seq<Sid>, db: Db, c: Command)
    requires InOrder(tickets, log, db.queue)
    ensures InOrder(Calls(tickets, db, c), log, Answers(db, c))
    ensures forall t :: t in Calls(tickets, db, c) ==> t in tickets
    ensures forall t, u :: t in Calls(tickets, db, c) && u in TicketsAfter(tickets, log, db, c) ==> t < u
  {
    if c.CmdAdmitNext? && AdmitNext(db, c.stamp).1.Some? {
      PopInOrder(tickets, log, db, c.stamp);
      LastPopIsAdmitted(db, c.stamp);
    }
  }

  lemma LastPopIsAdmitted(db: Db, stamp: int)
    requires AdmitNext(db, stamp).1.Some?
    ensures 0 < PopCount(db, stamp) <= |db.queue|
    ensures db.queue[PopCount(db, stamp) - 1] == AdmitNext(db, stamp).1.value
  {}

  /** Everything called came before everything still in line. */
  ghost predicate Before(called: seq<nat>, tickets: seq<nat>) {
    forall t, u :: t in called && u in tickets ==> t < u
  }

  lemma CalledStep(called: seq<nat>, sids: seq<Sid>, tickets: seq<nat>, log: seq<Sid>, db: Db, c: Command)
    requires InOrder(tickets, log, db.queue) && InOrder(called, log, sids) && Before(called, tickets)
    ensures InOrder(called + Calls(tickets, db, c), log + Pushes(db, c), sids + Answers(db, c))
    ensures Before(called + Calls(tickets, db, c), TicketsAfter(tickets, log, db, c))
  {
    StepInOrder(tickets, log, db, c);
    CallsInOrder(tickets, log, db, c);
    AppendInOrder(called, sids, Calls(tickets, db, c), Answers(db, c), log, Pushes(db, c));
  }

  lemma AppendInOrder(a: seq<nat>, x: seq<Sid>, b: seq<nat>, y: seq<Sid>, log: seq<Sid>, more: seq<Sid>)
    requires InOrder(a, log, x) && InOrder(b, log, y) && Before(a, b)
    ensures InOrder(a + b, log + more, x + y)
    ensures forall t :: t in a + b ==> t < |log|
  {
    var all := a + b;
    assert forall i :: 0 <= i < |a| ==> a[i] in a;
    assert forall j :: 0 <= j < |b| ==> b[j] in b;
    forall i, j | 0 <= i < j < |all| ensures all[i] < all[j] {
      if i < |a| <= j {
        assert all[i] == a[i] && all[j] == b[j - |a|];
      }
    }
  }

  /**
    In every interleaving the line is served in ticket order: the tickets admitted from it
    are strictly increasing, each names the session admitted, and all precede those still in line.
   */
  lemma {:induction false} ServedInTicketOrder(clock: int, capacity: Option<int>, cmds: seq<Command>)
    ensures var start := Empty(clock, capacity);
      && InOrder(Called(start, cmds), PushLog(start, cmds), AdmittedFromLine(start, cmds))
      && Before(Called(start, cmds), Tickets(start, cmds))
  {
    var start := Empty(clock, capacity);
    if cmds != [] {
      var n := |cmds| - 1;
      ServedInTicketOrder(clock, capacity, cmds[..n]);
      QueueFollowsTickets(clock, capacity, cmds[..n]);
      CalledStep(Called(start, cmds[..n]), AdmittedFromLine(start, cmds[..n]),
                 Tickets(start, cmds[..n]), PushLog(start, cmds[..n]), Run(start, cmds[..n]), cmds[n]);
    }
  }

  // ---- Admissions past the line ----

  /**
    The step lets in a session ahead of its turn: some entry stays in line although
    every entry the session has there, if any, is behind it.
   */
  ghost predicate Passes(tickets: seq<nat>, log: seq<Sid>, db: Db, c: Command) {
    exists x: Sid, t: nat ::
      && x in Exec(db, c).active && x !in db.active
      && t in tickets && t in TicketsAfter(tickets, log, db, c)
      && NoneBefore(tickets, log, x, t)
  }

  /** Every ticket of `x` in line comes after `t`. */
  ghost predicate NoneBefore(tickets: seq<nat>, log: seq<Sid>, x: Sid, t: nat) {
    forall u :: u in tickets && u in TicketsOf(log, {x}) ==> t < u
  }

  /** luaTryAdmit, which does not look at the queue, takes a free slot for somebody who does not head the line. */
  predicate Bypasses(db: Db, c: Command) {
    && c.CmdTryAdmit? && !Full(db) && c.sid !in db.active
    && db.queue != [] && db.queue[0] != c.sid
  }

  /** Whoever is not at the head of the line has no ticket before the head's. */
  lemma HeadIsFirst(tickets: seq<nat>, log: seq<Sid>, queue: seq<Sid>, x: Sid)
    requires InOrder(tickets, log, queue) && queue != []
    ensures tickets[0] in tickets
    ensures queue[0] != x ==> NoneBefore(tickets, log, x, tickets[0])
    ensures queue[0] == x ==> forall t :: t in tickets ==> !NoneBefore(tickets, log, x, t)
  {
    if queue[0] == x {
      assert tickets[0] in TicketsOf(log, {x});
    } else {
      forall u | u in tickets && u in TicketsOf(log, {x}) ensures tickets[0] < u {
        var k :| 0 <= k < |tickets| && tickets[k] == u;
      }
    }
  }

  lemma TryAdmitPassesIff(tickets: seq<nat>, log: seq<Sid>, db: Db, c: Command)
    requires InOrder(tickets, log, db.queue) && c.CmdTryAdmit?
    ensures Passes(tickets, log, db, c) <==> Bypasses(db, c)
  {
    if db.queue != [] {
      HeadIsFirst(tickets, log, db.queue, c.sid);
      if Bypasses(db, c) {
        assert c.sid in Exec(db, c).active && tickets[0] in TicketsAfter(tickets, log, db, c);
      }
    }
  }

  /** The script that serves the line calls a ticket ahead of all that stay. */
  lemma AdmitNextNeverPasses(tickets: seq<nat>, log: seq<Sid>, db: Db, c: Command)
    requires InOrder(tickets, log, db.queue) && c.CmdAdmitNext?
    ensures !Passes(tickets, log, db, c)
  {
    CallsInOrder(tickets, log, db, c);
    if AdmitNext(db, c.stamp).1.Some? {
      var called := Calls(tickets, db, c);
      PopInOrder(tickets, log, db, c.stamp);
      LastPopIsAdmitted(db, c.stamp);
      assert called[0] in called && called[0] in TicketsOf(log, {AdmitNext(db, c.stamp).1.value});
    }
  }

  /** Exactly the bypass lets somebody in ahead of an earlier entry of the line. */
  lemma PassesIff(tickets: seq<nat>, log: seq<Sid>, db: Db, c: Command)
    requires InOrder(tickets, log, db.queue)
    ensures Passes(tickets, log, db, c) <==> Bypasses(db, c)
  {
    match c
    case CmdTryAdmit(_, _) => TryAdmitPassesIff(tickets, log, db, c);
    case CmdAdmitNext(_) => AdmitNextNeverPasses(tickets, log, db, c);
    case _ =>
  }

  /** Nobody is let in ahead of an earlier entry anywhere in the schedule. */
  ghost predicate FirstComeFirstServed(start: Db, cmds: seq<Command>) {
    forall i :: 0 <= i < |cmds| ==>
      !Passes(Tickets(start, cmds[..i]), PushLog(start, cmds[..i]), Run(start, cmds[..i]), cmds[i])
  }

  /** In every interleaving: first come, first served exactly when luaTryAdmit never finds a free slot and somebody else's line. */
  lemma FirstComeFirstServedIff(clock: int, capacity: Option<int>, cmds: seq<Command>)
    ensures var start := Empty(clock, capacity);
      FirstComeFirstServed(start, cmds) <==>
      forall i :: 0 <= i < |cmds| ==> !Bypasses(Run(start, cmds[..i]), cmds[i])
  {
    var start := Empty(clock, capacity);
    forall i | 0 <= i < |cmds|
      ensures Passes(Tickets(start, cmds[..i]), PushLog(start, cmds[..i]), Run(start, cmds[..i]), cmds[i])
              <==> Bypasses(Run(start, cmds[..i]), cmds[i])
    {
      QueueFollowsTickets(clock, capacity, cmds[..i]);
      PassesIff(Tickets(start, cmds[..i]), PushLog(start, cmds[..i]), Run(start, cmds[..i]), cmds[i]);
    }
  }

  /** A newcomer tries between another visitor's leaving and the refill that follows it. */
  function OvertakingRun(): seq<Command> {
    [CmdTryAdmit(1, 0), CmdJoinQueue(2), CmdLeave(1), CmdTryAdmit(3, 0)]
  }

  lemma OvertakingLine()
    ensures var start := Empty(0, Some(1));
      && Run(start, OvertakingRun()[..2]) == JoinQueue(TryAdmit(start, 1, 0), 2)
      && PushLog(start, OvertakingRun()[..2]) == [2]
  {
    var start, cmds := Empty(0, Some(1)), OvertakingRun();
    OneMore(start, cmds, 0);
    OneMore(start, cmds, 1);
    assert cmds[..0] == [];
    assert Run(start, cmds[..1]) == TryAdmit(start, 1, 0);
  }

  lemma OneInsideOneWaiting()
    ensures var db := Leave(JoinQueue(TryAdmit(Empty(0, Some(1)), 1, 0), 2), 1);
      db.active == {} && db.queue == [2] && Cap(db) == 1
  {
    var inside := TryAdmit(Empty(0, Some(1)), 1, 0);
    assert inside.active == {1} && inside.sessions.Keys == {1};
    assert StatusOf(inside, 2).None?;
  }

  lemma OvertakingSlot()
    ensures var db := Run(Empty(0, Some(1)), OvertakingRun()[..3]);
      && db.active == {} && db.queue == [2] && Cap(db) == 1
      && PushLog(Empty(0, Some(1)), OvertakingRun()[..3]) == [2]
  {
    OvertakingLine();
    LeaveStep(Empty(0, Some(1)), OvertakingRun(), 2, 1);
    OneInsideOneWaiting();
  }

  lemma LeaveStep(start: Db, cmds: seq<Command>, k: nat, sid: Sid)
    requires k < |cmds| && cmds[k] == CmdLeave(sid)
    ensures Run(start, cmds[..k + 1]) == Leave(Run(start, cmds[..k]), sid)
    ensures PushLog(start, cmds[..k + 1]) == PushLog(start, cmds[..k])
  {
    OneMore(start, cmds, k);
  }

  /** It gets in, never having queued, while the one who waits stays outside. */
  lemma NewcomerOvertakes()
    ensures var db := Run(Empty(0, Some(1)), OvertakingRun());
      db.active == {3} && db.queue == [2] && PushLog(Empty(0, Some(1)), OvertakingRun()) == [2]
  {
    OvertakingSlot();
    OneMore(Empty(0, Some(1)), OvertakingRun(), 3);
    assert OvertakingRun()[..4] == OvertakingRun();
  }

  /** So first come, first served fails in that schedule. */
  lemma OvertakingIsUnfair()
    ensures !FirstComeFirstServed(Empty(0, Some(1)), OvertakingRun())
  {
    OvertakingSlot();
    assert Bypasses(Run(Empty(0, Some(1)), OvertakingRun()[..3]), OvertakingRun()[3]);
    FirstComeFirstServedIff(0, Some(1), OvertakingRun());
  }

  lemma OneMore(start: Db, cmds: seq<Command>, k: nat)
    requires k < |cmds|
    ensures Run(start, cmds[..k + 1]) == Exec(Run(start, cmds[..k]), cmds[k])
    ensures PushLog(start, cmds[..k + 1]) == PushLog(start, cmds[..k]) + Pushes(Run(start, cmds[..k]), cmds[k])
  {
    assert cmds[..k + 1][..k] == cmds[..k];
  }
}
