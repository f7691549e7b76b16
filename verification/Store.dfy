/**
  The waiting room's store as the imperative program it is: the Lua scripts with
  their loops, the Go operations that string them together and the handlers on top.
  Every method is proved against the value-level model.
 */
module WaitingRoom {
  import opened Lists
  import opened RedisModel
  import opened Requests
  import opened Evictions
  import opened Eta
  import opened Observations

  datatype Place = Place(pos: nat, total: nat)

  class Store {
    var clock: int
    var capacity: Option<int>
    var active: set<Sid>
    var queue: seq<Sid>
    var sessions: map<Sid, Session>
    var heartbeats: map<Sid, int>
    var history: seq<int>

    ghost function View(): Db
      reads this
    {
      Db(clock, capacity, active, queue, sessions, heartbeats, history)
    }

    constructor (clock: int)
      ensures View() == Empty(clock, None)
    {
      this.clock := clock;
      capacity, active, queue, sessions, heartbeats, history := None, {}, [], map[], map[], [];
    }

    // ---- Plain commands ----

    method HasSession(sid: Sid) returns (found: bool)
      ensures found <==> sid in Hashed(View())
    {
      found := sid in sessions && clock <= sessions[sid].expiresAt;
    }

    method HasHeartbeat(sid: Sid) returns (found: bool)
      ensures found <==> sid in Live(View())
    {
      found := sid in heartbeats && clock <= heartbeats[sid];
    }

    method GetStatus(sid: Sid) returns (status: Option<Status>)
      ensures status == StatusOf(View(), sid)
      ensures status in {None, Some(Active), Some(Queued)}
    {
      var found := HasSession(sid);
      if found {
        match sessions[sid].status {
          case Active => status := Some(Active);
          case Queued => status := Some(Queued);
        }
      } else {
        status := None;
      }
    }

    method SetHeartbeat(sid: Sid)
      modifies this`heartbeats
      ensures View() == RedisModel.SetHeartbeat(old(View()), sid)
    {
      heartbeats := heartbeats[sid := clock + HEARTBEAT_TTL];
    }

    method DeleteSession(sid: Sid)
      modifies this`sessions
      ensures View() == RedisModel.DeleteSession(old(View()), sid)
    {
      sessions := sessions - {sid};
    }

    method InitCapacity(initial: int)
      modifies this`capacity
      ensures View() == RedisModel.InitCapacity(old(View()), initial)
      ensures capacity == if old(capacity).None? then Some(initial) else old(capacity)
    {
      if capacity.None? {
        capacity := Some(initial);
      }
    }

    /** LPUSH and LTRIM on the timing history. */
    method PushHistory(stamp: int)
      modifies this`history
      ensures history == Record(old(history), stamp)
      ensures history <= [stamp] + old(history) && |history| == Min(100, 1 + |old(history)|)
    {
      history := [stamp] + history;
      if |history| > HISTORY_LIMIT {
        history := history[..HISTORY_LIMIT];
      }
    }

    // ---- Scripts ----

    method TryAdmit(sid: Sid, stamp: int) returns (admitted: bool)
      modifies this
      ensures View() == RedisModel.TryAdmit(old(View()), sid, stamp)
      ensures admitted <==> !Full(old(View()))
      ensures admitted ==> Admitted(View(), sid)
      ensures admitted ==> history <= [stamp] + old(history) && |history| == Min(100, 1 + |old(history)|)
    {
      var limit := if capacity.Some? then capacity.value else DEFAULT_CAPACITY;
      if |active| >= limit {
        return false;
      }
      active := active + {sid};
      sessions := sessions[sid := Session(Active, clock + SESSION_TTL)];
      PushHistory(stamp);
      return true;
    }

    method JoinQueue(sid: Sid) returns (joined: bool)
      modifies this
      ensures View() == RedisModel.JoinQueue(old(View()), sid)
      ensures joined <==> StatusOf(old(View()), sid).None?
    {
      var existing := GetStatus(sid);
      if existing == Some(Queued) || existing == Some(Active) {
        return false;
      }
      queue := queue + [sid];
      sessions := sessions[sid := Session(Queued, clock + SESSION_TTL)];
      return true;
    }

    /** SADD, HSET and the history push for a popped session; HSET leaves the key's expiry alone. */
    method AdmitPopped(sid: Sid, stamp: int)
      requires sid in sessions
      modifies this`active, this`sessions, this`history
      ensures View() == Admit(old(View()), sid, stamp)
    {
      active := active + {sid};
      sessions := sessions[sid := sessions[sid].(status := Active)];
      PushHistory(stamp);
    }

    /** The loop pops one entry a turn, at most fifty, until one has a session hash. */
    method AdmitNext(stamp: int) returns (admitted: Option<Sid>)
      modifies this
      ensures (View(), admitted) == RedisModel.AdmitNext(old(View()), stamp)
    {
      var limit := if capacity.Some? then capacity.value else DEFAULT_CAPACITY;
      ghost var before := View();
      assert before.queue[0..] == before.queue;
      var pops := 0;
      while pops < POP_LIMIT
        invariant 0 <= pops <= POP_LIMIT
        invariant pops <= DeadHead(before.queue, Hashed(before))
        invariant pops > 0 ==> !Full(before)
        invariant View() == Popped(before, pops)
      {
        if |active| >= limit {
          return None;
        }
        PopTurn(before, pops, stamp);
        if queue == [] {
          return None;
        }
        var sid := queue[0];
        queue := queue[1..];
        assert View() == Popped(before, pops + 1);
        var found := HasSession(sid);
        if found {
          AdmitPopped(sid, stamp);
          return Some(sid);
        }
        pops := pops + 1;
      }
      PopsExhausted(before, stamp);
      return None;
    }

    /** What follows one SPOP: the session hash and the heartbeat go too. */
    method ExpelMember(sid: Sid)
      modifies this`active, this`sessions, this`heartbeats
      ensures View() == Expel(old(View()), sid)
    {
      active := active - {sid};
      sessions := sessions - {sid};
      heartbeats := heartbeats - {sid};
    }

    /** SPOP draws an arbitrary member each turn; `victims` collects what it drew. */
    method Release(count: int) returns (released: nat, ghost victims: set<Sid>)
      modifies this
      ensures View() == RedisModel.Release(old(View()), victims)
      ensures victims <= old(active)
      ensures released == |victims| == Min(Max(count, 0), |old(active)|)
    {
      released, victims := 0, {};
      ghost var before := View();
      ReleaseNobody(before);
      while released < count && active != {}
        invariant victims <= before.active
        invariant released == |victims| <= Max(count, 0)
        invariant View() == RedisModel.Release(before, victims)
      {
        var sid :| sid in active;
        ReleaseStep(before, victims, sid);
        ExpelMember(sid);
        released := released + 1;
        victims := victims + {sid};
      }
      ReleaseDone(before, victims);
    }

    method Leave(sid: Sid) returns (wasActive: bool)
      modifies this
      ensures View() == RedisModel.Leave(old(View()), sid)
      ensures wasActive <==> sid in old(active)
    {
      wasActive := sid in active;
      active := active - {sid};
      if !wasActive {
        queue := RemoveFirst(queue, sid);
      }
      sessions := sessions - {sid};
      heartbeats := heartbeats - {sid};
    }

    /** SREM from the active set and DEL of the session hash. */
    method EvictMember(sid: Sid)
      modifies this`active, this`sessions
      ensures View() == DropMember(old(View()), sid)
    {
      active := active - {sid};
      sessions := sessions - {sid};
    }

    /** LREM count 1 from the queue and DEL of the session hash. */
    method EvictEntry(sid: Sid)
      modifies this`queue, this`sessions
      ensures View() == DropEntry(old(View()), sid)
    {
      queue := RemoveFirst(queue, sid);
      sessions := sessions - {sid};
    }

    /** The first loop of luaReapStale, over a snapshot of the set in any order. */
    method ReapActive() returns (evicted: nat)
      modifies this
      ensures View() == MembersReaped(old(View()), {})
      ensures evicted == |old(active) - Live(old(View()))|
    {
      ghost var before := View();
      MembersNotYetReaped(before);
      evicted := 0;
      var todo := active;
      while todo != {}
        invariant todo <= before.active
        invariant View() == MembersReaped(before, todo)
        invariant evicted == |before.active - todo - Live(before)|
        decreases todo
      {
        var sid :| sid in todo;
        MembersReapedStep(before, todo, sid);
        todo := todo - {sid};
        var found := HasHeartbeat(sid);
        if !found {
          EvictMember(sid);
          evicted := evicted + 1;
        }
      }
      assert before.active - {} == before.active;
    }

    /** The second loop of luaReapStale: LREM count 1 for every dead entry of a snapshot. */
    method ReapQueue() returns (evicted: nat)
      modifies this
      ensures View() == EntriesReaped(old(View()), |old(queue)|)
      ensures evicted == |old(queue)| - |queue|
    {
      ghost var before := View();
      EntriesNotYetReaped(before);
      evicted := 0;
      var snapshot := queue;
      var i := 0;
      while i < |snapshot|
        invariant 0 <= i <= |snapshot|
        invariant View() == EntriesReaped(before, i)
        invariant evicted == |snapshot| - |queue|
      {
        var sid := snapshot[i];
        EntriesReapedStep(before, i);
        var found := HasHeartbeat(sid);
        if !found {
          EvictEntry(sid);
          evicted := evicted + 1;
        }
        i := i + 1;
      }
    }

    method ReapStale() returns (evicted: nat)
      modifies this
      ensures View() == Reap(old(View()))
      ensures evicted == Evicted(old(View()))
      ensures evicted == (|old(active)| - |active|) + (|old(queue)| - |queue|)
    {
      ghost var before := View();
      var first := ReapActive();
      ghost var between := View();
      var second := ReapQueue();
      evicted := first + second;
      ReapSplits(before);
      ReapCounts(before);
    }

    // ---- Store operations ----

    /** Admits until a script call comes back empty-handed. */
    method AdmitPending(stamp: int) returns (admitted: seq<Sid>)
      modifies this
      ensures (View(), admitted) == RedisModel.AdmitPending(old(View()), stamp)
    {
      admitted := [];
      ghost var total := RedisModel.AdmitPending(View(), stamp);
      while true
        invariant total.0 == RedisModel.AdmitPending(View(), stamp).0
        invariant total.1 == admitted + RedisModel.AdmitPending(View(), stamp).1
        decreases |queue|
      {
        AdmitNextShrinks(View(), stamp);
        PendingTurn(View(), stamp);
        var popped := AdmitNext(stamp);
        if popped.None? {
          assert total.1 == admitted;
          return;
        }
        SetHeartbeat(popped.value);
        admitted := admitted + [popped.value];
      }
    }

    method LeaveAndRefill(sid: Sid, stamp: int) returns (wasActive: bool)
      modifies this
      ensures View() == ServeLeave(old(View()), sid, stamp)
      ensures wasActive <==> sid in old(active)
    {
      wasActive := Leave(sid);
      if wasActive {
        var _ := AdmitPending(stamp);
      }
    }

    method GetPosition(sid: Sid) returns (place: Option<Place>)
      ensures place.None? <==> sid !in queue
      ensures place.Some? ==>
        && place.value.total == |queue|
        && 1 <= place.value.pos <= |queue|
        && queue[place.value.pos - 1] == sid
        && sid !in queue[..place.value.pos - 1]
    {
      var i := 0;
      while i < |queue|
        invariant 0 <= i <= |queue|
        invariant sid !in queue[..i]
      {
        if queue[i] == sid {
          return Some(Place(i + 1, |queue|));
        }
        i := i + 1;
      }
      return None;
    }

    method ChangeCapacity(n: int, stamp: int)
      modifies this
      ensures View() == RedisModel.AdmitPending(RedisModel.SetCapacity(old(View()), n), stamp).0
      ensures capacity == Some(n)
    {
      PendingKeepsCapacity(RedisModel.SetCapacity(View(), n), stamp);
      capacity := Some(n);
      var _ := AdmitPending(stamp);
    }

    method ReleaseSlots(n: int, stamp: int) returns (released: nat, ghost victims: set<Sid>)
      modifies this
      ensures View() == Serve(old(View()), Request.ReleaseSlots(victims, stamp))
      ensures victims <= old(active)
      ensures released == |victims| == Min(Max(n, 0), |old(active)|)
    {
      released, victims := Release(n);
      var _ := AdmitPending(stamp);
    }

    method ReapTick(stamp: int)
      modifies this
      ensures View() == Serve(old(View()), Request.ReapTick(stamp))
    {
      var evicted := ReapStale();
      if evicted > 0 {
        var _ := AdmitPending(stamp);
      }
    }

    // ---- Handlers ----

    /** The gate. A request is proxied to the protected site only for a session that holds a slot. */
    method RootHandler(sid: Sid, atRoot: bool, stamp: int) returns (proxied: bool)
      modifies this
      ensures View() == Serve(old(View()), Visit(sid, atRoot, stamp))
      ensures proxied <==> Admitted(View(), sid)
      ensures proxied && !Admitted(old(View()), sid) ==> atRoot && !Full(old(View()))
    {
      var status := GetStatus(sid);
      if status == Some(Active) {
        if sid in active {
          return true;
        }
        DeleteSession(sid);
      }
      if !atRoot {
        return false;
      }
      var admitted := TryAdmit(sid, stamp);
      if admitted {
        SetHeartbeat(sid);
        return true;
      }
      var _ := JoinQueue(sid);
      SetHeartbeat(sid);
      return false;
    }

    method QueuePageHandler(sid: Sid)
      modifies this
      ensures View() == Serve(old(View()), QueuePage(sid))
    {
      if sid == NO_SESSION {
        return;
      }
      var status := GetStatus(sid);
      if status == Some(Active) && sid in active {
        return;
      }
      SetHeartbeat(sid);
    }

    /** The poll of the queue page: the caller's place with the estimated wait, if it waits. */
    method PositionHandler(sid: Sid) returns (isActive: bool, place: Option<Place>, eta: int)
      modifies this
      ensures View() == Serve(old(View()), PollPosition(sid))
      ensures isActive <==> sid != NO_SESSION && Admitted(old(View()), sid)
      ensures place.Some? <==> sid != NO_SESSION && !isActive && sid in queue
      ensures place.Some? ==> place.value == Place(FirstIndex(queue, sid) + 1, |queue|)
      ensures place.Some? ==> IsEta(history, place.value.pos, eta)
    {
      isActive, place, eta := false, None, 0;
      if sid == NO_SESSION {
        return;
      }
      var status := GetStatus(sid);
      if status == Some(Active) {
        if sid in active {
          isActive := true;
          return;
        }
        DeleteSession(sid);
      }
      place := GetPosition(sid);
      if place.Some? {
        FirstIndexUnique(queue, sid, place.value.pos - 1);
        eta := CalculateETA(history, place.value.pos);
      }
    }

    method HeartbeatHandler(sid: Sid)
      modifies this
      ensures View() == Serve(old(View()), Ping(sid))
    {
      if sid == NO_SESSION {
        return;
      }
      var status := GetStatus(sid);
      if status == Some(Active) || status == Some(Queued) {
        SetHeartbeat(sid);
      }
    }

    method LeaveHandler(sid: Sid, stamp: int)
      modifies this
      ensures View() == Serve(old(View()), LeaveRoom(sid, stamp))
    {
      if sid == NO_SESSION {
        return;
      }
      var _ := LeaveAndRefill(sid, stamp);
    }

    method CapacityHandler(n: int, stamp: int)
      modifies this
      ensures View() == Serve(old(View()), Request.ChangeCapacity(n, stamp))
    {
      if n <= 0 {
        return;
      }
      ChangeCapacity(n, stamp);
    }

    /** The administrator's release: a count below one means one, above a hundred a hundred. */
    method ReleaseHandler(count: int, stamp: int) returns (released: nat, ghost victims: set<Sid>)
      modifies this
      ensures View() == Serve(old(View()), Request.ReleaseSlots(victims, stamp))
      ensures victims <= old(active)
      ensures released == |victims| == Min(Min(Max(count, 1), 100), |old(active)|)
    {
      var n := count;
      if n <= 0 {
        n := 1;
      }
      if n > 100 {
        n := 100;
      }
      released, victims := ReleaseSlots(n, stamp);
    }
  }

  lemma FirstIndexUnique(s: seq<Sid>, x: Sid, i: nat)
    requires i < |s| && s[i] == x && x !in s[..i]
    ensures FirstIndex(s, x) == i
  {}
}
