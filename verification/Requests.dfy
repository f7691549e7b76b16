/**
  The store operations and HTTP handlers of the waiting room, each taken whole:
  what one request or one worker tick does when nothing else runs meanwhile.
 */
module Requests {
  import opened Lists
  import opened RedisModel

  /**
    `stamp` is what the Go clock answered when the handler asked for the Unix time;
    `victims` are the sessions that the SPOPs of a release happened to draw.
   */
  datatype Request =
    | Visit(sid: Sid, atRoot: bool, stamp: int)
    | QueuePage(sid: Sid)
    | PollPosition(sid: Sid)
    | Ping(sid: Sid)
    | LeaveRoom(sid: Sid, stamp: int)
    | ChangeCapacity(n: int, stamp: int)
    | ReleaseSlots(victims: set<Sid>, stamp: int)
    | AdmitTick(stamp: int)
    | ReapTick(stamp: int)

  /** The session is admitted: both its hash and the active set say so. */
  predicate Admitted(db: Db, sid: Sid) {
    StatusOf(db, sid) == Some(Active) && sid in db.active
  }

  /** The gate's recovery branch: a hash that says active without a slot is deleted. */
  function Recover(db: Db, sid: Sid): Db {
    if StatusOf(db, sid) == Some(Active) && sid !in db.active then DeleteSession(db, sid) else db
  }

  function ServeVisit(db: Db, sid: Sid, atRoot: bool, stamp: int): Db {
    if Admitted(db, sid) then db else
      var clean := Recover(db, sid);
      if !atRoot then clean
      else if !Full(clean) then SetHeartbeat(TryAdmit(clean, sid, stamp), sid)
      else SetHeartbeat(JoinQueue(clean, sid), sid)
  }

  function ServeLeave(db: Db, sid: Sid, stamp: int): Db {
    if sid in db.active then AdmitPending(Leave(db, sid), stamp).0 else Leave(db, sid)
  }

  function ServeReap(db: Db, stamp: int): Db {
    if Evicted(db) > 0 then AdmitPending(Reap(db), stamp).0 else Reap(db)
  }

  function Serve(db: Db, r: Request): Db {
    match r
    case Visit(sid, atRoot, stamp) => ServeVisit(db, sid, atRoot, stamp)
    case QueuePage(sid) => if sid == NO_SESSION || Admitted(db, sid) then db else SetHeartbeat(db, sid)
    case PollPosition(sid) => if sid == NO_SESSION then db else Recover(db, sid)
    case Ping(sid) => if sid == NO_SESSION || StatusOf(db, sid).None? then db else SetHeartbeat(db, sid)
    case LeaveRoom(sid, stamp) => if sid == NO_SESSION then db else ServeLeave(db, sid, stamp)
    case ChangeCapacity(n, stamp) => if n <= 0 then db else AdmitPending(SetCapacity(db, n), stamp).0
    case ReleaseSlots(victims, stamp) => AdmitPending(Release(db, victims), stamp).0
    case AdmitTick(stamp) => AdmitPending(db, stamp).0
    case ReapTick(stamp) => ServeReap(db, stamp)
  }
}
