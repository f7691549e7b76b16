/** The half-done states of the loops that evict sessions, and how one turn moves them on. */
module Evictions {
  import opened Lists
  import opened RedisModel

  function DropMember(db: Db, sid: Sid): Db {
    db.(active := db.active - {sid}, sessions := db.sessions - {sid})
  }

  function Expel(db: Db, sid: Sid): Db {
    DropMember(db, sid).(heartbeats := db.heartbeats - {sid})
  }

  function DropEntry(db: Db, sid: Sid): Db {
    db.(queue := RemoveFirst(db.queue, sid), sessions := db.sessions - {sid})
  }

  /** The reaper's first loop when only the members in `todo` are still to be looked at. */
  function MembersReaped(db: Db, todo: set<Sid>): Db {
    var gone := db.active - todo - Live(db);
    db.(active := db.active - gone, sessions := db.sessions - gone)
  }

  /** The reaper's second loop after it looked at the first `i` entries of its snapshot. */
  function EntriesReaped(db: Db, i: nat): Db
    requires i <= |db.queue|
  {
    db.(queue := Keep(db.queue[..i], Live(db)) + db.queue[i..],
        sessions := db.sessions - (Elems(db.queue[..i]) - Live(db)))
  }

  lemma MembersNotYetReaped(db: Db)
    ensures MembersReaped(db, db.active) == db
    ensures |db.active - db.active - Live(db)| == 0
  {}

  lemma MembersReapedStep(db: Db, todo: set<Sid>, sid: Sid)
    requires sid in todo && todo <= db.active
    ensures Live(MembersReaped(db, todo)) == Live(db)
    ensures MembersReaped(db, todo - {sid}) ==
            if sid in Live(db) then MembersReaped(db, todo) else DropMember(MembersReaped(db, todo), sid)
    ensures |db.active - (todo - {sid}) - Live(db)| ==
            |db.active - todo - Live(db)| + if sid in Live(db) then 0 else 1
  {
    VisitStep(db.active, todo, sid, Live(db));
    var gone := db.active - todo - Live(db);
    MinusMinus(db.sessions, gone, {sid});
    assert db.active - gone - {sid} == db.active - (gone + {sid});
  }

  lemma EntriesNotYetReaped(db: Db)
    ensures EntriesReaped(db, 0) == db
  {}

  lemma EntriesReapedStep(db: Db, i: nat)
    requires i < |db.queue|
    ensures Live(EntriesReaped(db, i)) == Live(db)
    ensures db.queue[i] in Live(db) ==> EntriesReaped(db, i + 1) == EntriesReaped(db, i)
    ensures db.queue[i] !in Live(db) ==>
      && EntriesReaped(db, i + 1) == DropEntry(EntriesReaped(db, i), db.queue[i])
      && |EntriesReaped(db, i + 1).queue| == |EntriesReaped(db, i).queue| - 1
  {
    DropStep(db.queue, i, Live(db));
    MinusMinus(db.sessions, Elems(db.queue[..i]) - Live(db), {db.queue[i]});
  }

  /** Both loops together are the filter. */
  lemma ReapSplits(db: Db)
    ensures var between := MembersReaped(db, {});
      && EntriesReaped(between, |between.queue|) == Reap(db)
  {
    var live := Live(db);
    var between := MembersReaped(db, {});
    assert Live(between) == live && between.queue == db.queue;
    assert db.queue[..|db.queue|] == db.queue;
    assert db.active - {} - live == db.active - live;
    assert db.active - (db.active - live) == db.active * live;
    MinusMinus(db.sessions, db.active - live, Elems(db.queue) - live);
    assert (db.active - live) + (Elems(db.queue) - live) == (db.active + Elems(db.queue)) - live;
  }

  lemma ReleaseNobody(db: Db)
    ensures Release(db, {}) == db
  {}

  /** One more SPOP, with the deletes that follow it. */
  lemma ReleaseStep(db: Db, victims: set<Sid>, sid: Sid)
    requires victims <= db.active && sid in Release(db, victims).active
    ensures sid in db.active && sid !in victims
    ensures Release(db, victims + {sid}) ==
            Expel(Release(db, victims), sid)
  {}

  lemma ReleaseDone(db: Db, victims: set<Sid>)
    requires victims <= db.active
    ensures |Release(db, victims).active| == |db.active| - |victims|
  {
    assert victims * db.active == victims;
  }
}
