/**
  The waiting room's shared Redis database as a value, and what each of the six
  Lua scripts and each plain Redis command of the store does to it.
  Times are in milliseconds; a key with a time to live exists up to and
  including its expiry instant.
 */
module RedisModel {
  import opened Lists

  /** A session identifier: an opaque key, only ever compared. */
  type Sid = nat

  /** What an absent or empty cookie reads as. */
  const NO_SESSION: Sid := 0

  const DEFAULT_CAPACITY := 3
  const SESSION_TTL := 86_400_000
  const HEARTBEAT_TTL := 30_000
  const HISTORY_LIMIT := 100
  const POP_LIMIT := 50

  datatype Status = Active | Queued

  /** A `session:{id}` hash: its status field and the instant at which the key expires. */
  datatype Session = Session(status: Status, expiresAt: int)

  datatype Db = Db(
    clock: int,
    capacity: Option<int>,
    active: set<Sid>,
    queue: seq<Sid>,
    sessions: map<Sid, Session>,
    heartbeats: map<Sid, int>,
    history: seq<int>)

  /** The store before any request, with the capacity key absent or already seeded. */
  function Empty(clock: int, capacity: Option<int>): Db {
    Db(clock, capacity, {}, [], map[], map[], [])
  }

  // ---- What a reader sees ----

  function Cap(db: Db): int {
    if db.capacity.Some? then db.capacity.value else DEFAULT_CAPACITY
  }

  /** The sessions whose hash exists now. */
  function Hashed(db: Db): set<Sid> {
    set sid | sid in db.sessions && db.clock <= db.sessions[sid].expiresAt
  }

  function Unexpired(heartbeats: map<Sid, int>, clock: int): set<Sid> {
    set sid | sid in heartbeats && clock <= heartbeats[sid]
  }

  /** The sessions whose heartbeat key exists now. */
  function Live(db: Db): set<Sid> {
    Unexpired(db.heartbeats, db.clock)
  }

  function StatusOf(db: Db, sid: Sid): Option<Status> {
    if sid in Hashed(db) then Some(db.sessions[sid].status) else None
  }

  predicate Full(db: Db) { |db.active| >= Cap(db) }

  // ---- Plain commands ----

  function SetHeartbeat(db: Db, sid: Sid): Db {
    db.(heartbeats := db.heartbeats[sid := db.clock + HEARTBEAT_TTL])
  }

  function DeleteSession(db: Db, sid: Sid): Db {
    db.(sessions := db.sessions - {sid})
  }

  function SetCapacity(db: Db, n: int): Db {
    db.(capacity := Some(n))
  }

  /** SETNX: seeds the capacity only when the key is absent. */
  function InitCapacity(db: Db, n: int): Db {
    if db.capacity.Some? then db else SetCapacity(db, n)
  }

  function Advance(db: Db, ms: nat): Db {
    db.(clock := db.clock + ms)
  }

  // ---- Scripts ----

  /** LTRIM 0 99. */
  function Newest(history: seq<int>): seq<int> {
    if |history| <= HISTORY_LIMIT then history else history[..HISTORY_LIMIT]
  }

  /** LPUSH followed by LTRIM. */
  function Record(history: seq<int>, stamp: int): seq<int> {
    Newest([stamp] + history)
  }

  /** luaTryAdmit. It answers 1 exactly when the room was not full. */
  function TryAdmit(db: Db, sid: Sid, stamp: int): Db {
    if Full(db) then db else
      db.(active := db.active + {sid},
          sessions := db.sessions[sid := Session(Active, db.clock + SESSION_TTL)],
          history := Record(db.history, stamp))
  }

  /** luaJoinQueue. It answers 1 exactly when the session had no hash. */
  function JoinQueue(db: Db, sid: Sid): Db {
    if StatusOf(db, sid).Some? then db else
      db.(queue := db.queue + [sid],
          sessions := db.sessions[sid := Session(Queued, db.clock + SESSION_TTL)])
  }

  /** How many entries at the head of the queue have no session hash. */
  function DeadHead(queue: seq<Sid>, hashed: set<Sid>): (n: nat)
    ensures n <= |queue|
    ensures forall i :: 0 <= i < n ==> queue[i] !in hashed
    ensures n < |queue| ==> queue[n] in hashed
  {
    if queue == [] || queue[0] in hashed then 0 else 1 + DeadHead(queue[1..], hashed)
  }

  /** What admitting the popped session `sid` writes, the pop itself apart. */
  function Admit(db: Db, sid: Sid, stamp: int): Db
    requires sid in db.sessions
  {
    db.(active := db.active + {sid},
        sessions := db.sessions[sid := db.sessions[sid].(status := Active)],
        history := Record(db.history, stamp))
  }

  /**
    luaAdmitNext without its loop: when the room is not full, the dead entries at
    the head go, at most fifty of them, and the entry behind them is admitted if
    the fifty pops reach it.
   */
  function AdmitNext(db: Db, stamp: int): (Db, Option<Sid>) {
    if Full(db) then (db, None) else
      var dead := DeadHead(db.queue, Hashed(db));
      if dead >= POP_LIMIT then (db.(queue := db.queue[POP_LIMIT..]), None)
      else if dead == |db.queue| then (db.(queue := []), None)
      else
        var sid := db.queue[dead];
        (Admit(db.(queue := db.queue[dead + 1..]), sid, stamp), Some(sid))
  }

  /** luaRelease, for the set of sessions that its SPOPs happened to draw. */
  function Release(db: Db, victims: set<Sid>): Db {
    var gone := victims * db.active;
    db.(active := db.active - gone,
        sessions := db.sessions - gone,
        heartbeats := db.heartbeats - gone)
  }

  /** luaLeave. It answers 1 exactly when the session was in the active set. */
  function Leave(db: Db, sid: Sid): Db {
    db.(active := db.active - {sid},
        queue := if sid in db.active then db.queue else RemoveFirst(db.queue, sid),
        sessions := db.sessions - {sid},
        heartbeats := db.heartbeats - {sid})
  }

  /** luaReapStale as a filter: only the entries with a live heartbeat stay. */
  function Reap(db: Db): Db {
    var live := Live(db);
    db.(active := db.active * live,
        queue := Keep(db.queue, live),
        sessions := db.sessions - ((db.active + Elems(db.queue)) - live))
  }

  /** The count luaReapStale answers: set members plus list entries removed. */
  function Evicted(db: Db): int {
    |db.active - Live(db)| + |db.queue| - |Keep(db.queue, Live(db))|
  }

  // ---- admitPending ----

  lemma AdmitNextShrinks(db: Db, stamp: int)
    ensures AdmitNext(db, stamp).1.Some? ==> |AdmitNext(db, stamp).0.queue| < |db.queue|
  {}

  /** admitPending run alone: the new database and the sessions it admitted, in order. */
  function AdmitPending(db: Db, stamp: int): (Db, seq<Sid>)
    decreases |db.queue|
  {
    var (next, popped) := AdmitNext(db, stamp);
    if popped.None? then (next, []) else
      AdmitNextShrinks(db, stamp);
      var (last, rest) := AdmitPending(SetHeartbeat(next, popped.value), stamp);
      (last, [popped.value] + rest)
  }

  /** One turn of admitPending's loop. */
  lemma PendingTurn(db: Db, stamp: int)
    ensures var (next, popped) := AdmitNext(db, stamp);
      && (popped.None? ==> AdmitPending(db, stamp) == (next, []))
      && (popped.Some? ==>
            var (last, rest) := AdmitPending(SetHeartbeat(next, popped.value), stamp);
            AdmitPending(db, stamp) == (last, [popped.value] + rest))
  {}

  /** The store after luaAdmitNext popped `n` entries and found none of them with a hash. */
  function Popped(db: Db, n: nat): Db
    requires n <= |db.queue|
  {
    db.(queue := db.queue[n..])
  }

  /** How luaAdmitNext goes on after `n` pops. */
  lemma PopTurn(db: Db, n: nat, stamp: int)
    requires !Full(db) && n < POP_LIMIT && n <= DeadHead(db.queue, Hashed(db))
    ensures n == |db.queue| ==> AdmitNext(db, stamp) == (Popped(db, n), None)
    ensures n < |db.queue| && db.queue[n] in Hashed(db) ==>
      AdmitNext(db, stamp) == (Admit(Popped(db, n + 1), db.queue[n], stamp), Some(db.queue[n]))
    ensures n < |db.queue| && db.queue[n] !in Hashed(db) ==> n + 1 <= DeadHead(db.queue, Hashed(db))
    ensures n < |db.queue| ==>
      && Popped(db, n).queue[0] == db.queue[n]
      && Popped(db, n).queue[1..] == Popped(db, n + 1).queue
      && Hashed(Popped(db, n + 1)) == Hashed(db)
  {
    if n < |db.queue| {
      assert db.queue[n..][1..] == db.queue[n + 1..];
    } else {
      assert db.queue[n..] == [];
    }
  }

  lemma PopsExhausted(db: Db, stamp: int)
    requires !Full(db) && POP_LIMIT <= DeadHead(db.queue, Hashed(db))
    ensures AdmitNext(db, stamp) == (Popped(db, POP_LIMIT), None)
  {}
}
