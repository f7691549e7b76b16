/**
  Many transactions at once: begin, lock and read the row, update it, insert the
  ledger row, commit or roll back, in any order the row locks allow.
 */
module BankSchedules {
  import opened Bank

  type TxId = nat

  /** Where a transaction stands, with what it has read and written so far. */
  datatype Tx =
    | Begun(op: Op)
    | Locked(op: Op, id: AccountId, balance: int)
    | Updated(op: Op, id: AccountId, newBalance: int)
    | Inserted(op: Op, id: AccountId, newBalance: int)
    | Finished(op: Op, outcome: Outcome)

  datatype Completed = Completed(t: TxId, op: Op, outcome: Outcome)

  /** `log` records the operations in the order in which they ended. */
  datatype Machine = Machine(tables: Tables, locks: map<AccountId, TxId>, txs: map<TxId, Tx>, log: seq<Completed>)

  datatype Action =
    | Start(t: TxId, op: Op)
    | Step(t: TxId)
    | Fail(t: TxId)

  predicate Holds(tx: Tx) { tx.Locked? || tx.Updated? || tx.Inserted? }

  /** Commit or roll back: the answer is on record and the lock, if any, is free. */
  function End(m: Machine, t: TxId, outcome: Outcome): Machine
    requires t in m.txs
  {
    m.(locks := if Holds(m.txs[t]) then m.locks - {m.txs[t].id} else m.locks,
       txs := m.txs[t := Finished(m.txs[t].op, outcome)],
       log := m.log + [Completed(t, m.txs[t].op, outcome)])
  }

  /** CreateAccount is one statement; a non-positive amount never opens a transaction. */
  function Open(m: Machine, t: TxId, op: Op): Machine {
    if t in m.txs then m
    else if op.Create? || op.amount <= 0 then
      var (tables, answer) := Atomic(m.tables, op, false);
      m.(tables := tables, txs := m.txs[t := Finished(op, answer)], log := m.log + [Completed(t, op, answer)])
    else m.(txs := m.txs[t := Begun(op)])
  }

  /** SELECT … FOR UPDATE: waits while another transaction holds the row. */
  function TakeLock(m: Machine, t: TxId): Machine
    requires t in m.txs && m.txs[t].Begun?
  {
    var op := m.txs[t].op;
    if op.number !in m.tables.byNumber || m.tables.byNumber[op.number] !in m.tables.balances then End(m, t, NotFound)
    else
      var id := m.tables.byNumber[op.number];
      if id in m.locks then m
      else m.(locks := m.locks[id := t], txs := m.txs[t := Locked(op, id, m.tables.balances[id])])
  }

  function Proceed(m: Machine, t: TxId): Machine {
    if t !in m.txs then m else
      match m.txs[t]
      case Begun(_) => TakeLock(m, t)
      case Locked(op, id, balance) =>
        if op.Create? then m else
          var answer := Decide(op, balance);
          if answer.Balance? then m.(txs := m.txs[t := Updated(op, id, answer.balance)]) else End(m, t, answer)
      case Updated(op, id, newBalance) => m.(txs := m.txs[t := Inserted(op, id, newBalance)])
      case Inserted(op, id, newBalance) =>
        if op.Create? then m else
          End(m.(tables := Post(m.tables, op, id, newBalance)), t, Balance(newBalance))
      case Finished(_, _) => m
  }

  function Perform(m: Machine, a: Action): Machine {
    match a
    case Start(t, op) => Open(m, t, op)
    case Step(t) => Proceed(m, t)
    case Fail(t) => if t in m.txs && !m.txs[t].Finished? then End(m, t, Failed) else m
  }

  function Execute(m: Machine, actions: seq<Action>): Machine {
    if actions == [] then m
    else Perform(Execute(m, actions[..|actions| - 1]), actions[|actions| - 1])
  }

  function Idle(tables: Tables): Machine { Machine(tables, map[], map[], []) }

  // ---- What the locks guarantee ----

  /** A transaction past its SELECT owns the row, and what it read or will write is still current. */
  ghost predicate TxOk(m: Machine, t: TxId, tx: Tx) {
    && (!tx.Finished? ==> !tx.op.Create? && tx.op.amount > 0)
    && (Holds(tx) ==>
          && tx.id in m.locks && m.locks[tx.id] == t
          && tx.op.number in m.tables.byNumber && m.tables.byNumber[tx.op.number] == tx.id
          && tx.id in m.tables.balances)
    && (tx.Locked? ==> tx.balance == m.tables.balances[tx.id])
    && (tx.Updated? || tx.Inserted? ==> Decide(tx.op, m.tables.balances[tx.id]) == Balance(tx.newBalance))
  }

  ghost predicate Sound(m: Machine) {
    && (forall t :: t in m.txs ==> TxOk(m, t, m.txs[t]))
    && (forall id :: id in m.locks ==>
          m.locks[id] in m.txs && Holds(m.txs[m.locks[id]]) && m.txs[m.locks[id]].id == id)
  }

  // ---- Replaying the log on the atomic bank ----

  function Replay(start: Tables, log: seq<Completed>): Tables {
    if log == [] then start else
      var last := log[|log| - 1];
      Atomic(Replay(start, log[..|log| - 1]), last.op, last.outcome.Failed?).0
  }

  /** Every answer in the log is the one the atomic bank gives at that point. */
  ghost predicate Faithful(start: Tables, log: seq<Completed>) {
    forall i :: 0 <= i < |log| ==>
      log[i].outcome == Atomic(Replay(start, log[..i]), log[i].op, log[i].outcome.Failed?).1
  }

  ghost predicate Refines(start: Tables, m: Machine) {
    m.tables == Replay(start, m.log) && Faithful(start, m.log)
  }

  lemma LogOneMore(start: Tables, log: seq<Completed>, c: Completed)
    requires Faithful(start, log)
    requires c.outcome == Atomic(Replay(start, log), c.op, c.outcome.Failed?).1
    ensures Faithful(start, log + [c])
    ensures Replay(start, log + [c]) == Atomic(Replay(start, log), c.op, c.outcome.Failed?).0
  {
    var more := log + [c];
    assert more[..|log|] == log;
    forall i | 0 <= i < |more|
      ensures more[i].outcome == Atomic(Replay(start, more[..i]), more[i].op, more[i].outcome.Failed?).1
    {
      if i < |log| {
        assert more[..i] == log[..i];
      }
    }
  }

  /** Ending a transaction that has written nothing visible. */
  lemma EndKeepsSound(m: Machine, t: TxId, outcome: Outcome)
    requires Sound(m) && t in m.txs
    ensures Sound(End(m, t, outcome))
  {}

  /** A commit changes only the row it holds, so no other transaction's reads go stale. */
  lemma CommitKeepsSound(m: Machine, t: TxId)
    requires Sound(m) && t in m.txs && m.txs[t].Inserted? && !m.txs[t].op.Create?
    ensures Sound(Proceed(m, t))
  {}

  lemma OpenKeepsSound(m: Machine, t: TxId, op: Op)
    requires Sound(m)
    ensures Sound(Open(m, t, op))
  {}

  lemma TakeLockKeepsSound(m: Machine, t: TxId)
    requires Sound(m) && t in m.txs && m.txs[t].Begun?
    ensures Sound(TakeLock(m, t))
  {
    var after := TakeLock(m, t);
    if after.txs[t].Finished? {
      EndKeepsSound(m, t, NotFound);
    } else {
      assert TxOk(m, t, m.txs[t]);
      forall u | u in after.txs ensures TxOk(after, u, after.txs[u]) {
        if u != t {
          assert TxOk(m, u, m.txs[u]);
        }
      }
    }
  }

  /** Moving on inside a transaction, its row and lock unchanged. */
  lemma MoveOnKeepsSound(m: Machine, t: TxId, tx: Tx)
    requires Sound(m) && t in m.txs && Holds(m.txs[t]) && Holds(tx)
    requires tx.op == m.txs[t].op && tx.id == m.txs[t].id && TxOk(m, t, tx)
    ensures Sound(m.(txs := m.txs[t := tx]))
  {}

  lemma ProceedKeepsSound(m: Machine, t: TxId)
    requires Sound(m)
    ensures Sound(Proceed(m, t))
  {
    if t in m.txs {
      assert TxOk(m, t, m.txs[t]);
      match m.txs[t]
      case Begun(_) => TakeLockKeepsSound(m, t);
      case Locked(op, id, balance) =>
        var answer := Decide(op, balance);
        if answer.Balance? {
          MoveOnKeepsSound(m, t, Updated(op, id, answer.balance));
        } else {
          EndKeepsSound(m, t, answer);
        }
      case Updated(op, id, newBalance) => MoveOnKeepsSound(m, t, Inserted(op, id, newBalance));
      case Inserted(_, _, _) => CommitKeepsSound(m, t);
      case Finished(_, _) =>
    }
  }

  lemma PerformKeepsSound(m: Machine, a: Action)
    requires Sound(m)
    ensures Sound(Perform(m, a))
  {
    match a
    case Start(t, op) => OpenKeepsSound(m, t, op);
    case Step(t) => ProceedKeepsSound(m, t);
    case Fail(t) =>
      if t in m.txs {
        EndKeepsSound(m, t, Failed);
      }
  }

  // ---- Refinement ----

  /** Ending with an answer is one atomic operation at that very moment. */
  lemma EndRefines(start: Tables, m: Machine, tables: Tables, t: TxId, outcome: Outcome)
    requires Refines(start, m) && t in m.txs
    requires (tables, outcome) == Atomic(m.tables, m.txs[t].op, outcome.Failed?)
    ensures Refines(start, End(m.(tables := tables), t, outcome))
  {
    LogOneMore(start, m.log, Completed(t, m.txs[t].op, outcome));
  }

  lemma OpenRefines(start: Tables, m: Machine, t: TxId, op: Op)
    requires Refines(start, m)
    ensures Refines(start, Open(m, t, op))
  {
    if t !in m.txs && (op.Create? || op.amount <= 0) {
      LogOneMore(start, m.log, Completed(t, op, Atomic(m.tables, op, false).1));
    }
  }

  lemma ProceedRefines(start: Tables, m: Machine, t: TxId)
    requires Sound(m) && Refines(start, m)
    ensures Refines(start, Proceed(m, t))
  {
    if t in m.txs {
      var tx := m.txs[t];
      assert TxOk(m, t, tx);
      if tx.Begun? {
        if TakeLock(m, t).txs[t].Finished? {
          EndRefines(start, m, m.tables, t, NotFound);
        }
      } else if tx.Locked? {
        var answer := Decide(tx.op, tx.balance);
        if !answer.Balance? {
          EndRefines(start, m, m.tables, t, answer);
        }
      } else if tx.Inserted? {
        EndRefines(start, m, Post(m.tables, tx.op, tx.id, tx.newBalance), t, Balance(tx.newBalance));
      }
    }
  }

  /** The log holds exactly one record for every finished transaction, with the answer it gave. */
  ghost predicate Answered(m: Machine) {
    && (forall i :: 0 <= i < |m.log| ==>
          m.log[i].t in m.txs && m.txs[m.log[i].t] == Finished(m.log[i].op, m.log[i].outcome))
    && (forall i, j :: 0 <= i < j < |m.log| ==> m.log[i].t != m.log[j].t)
    && (forall t :: t in m.txs && m.txs[t].Finished? ==>
          Completed(t, m.txs[t].op, m.txs[t].outcome) in m.log)
  }

  predicate Unfinished(m: Machine, t: TxId) { t in m.txs ==> !m.txs[t].Finished? }

  lemma RecordKeepsAnswered(m: Machine, t: TxId, op: Op, outcome: Outcome, after: Machine)
    requires Answered(m) && Unfinished(m, t)
    requires after.txs == m.txs[t := Finished(op, outcome)] && after.log == m.log + [Completed(t, op, outcome)]
    ensures Answered(after)
  {}

  lemma MoveKeepsAnswered(m: Machine, t: TxId, tx: Tx, after: Machine)
    requires Answered(m) && Unfinished(m, t) && !tx.Finished?
    requires after.txs == m.txs[t := tx] && after.log == m.log
    ensures Answered(after)
  {}

  lemma PerformKeepsAnswered(m: Machine, a: Action)
    requires Answered(m)
    ensures Answered(Perform(m, a))
  {
    var after := Perform(m, a);
    var t := a.t;
    if after != m {
      if after.txs[t].Finished? {
        RecordKeepsAnswered(m, t, after.txs[t].op, after.txs[t].outcome, after);
      } else {
        MoveKeepsAnswered(m, t, after.txs[t], after);
      }
    }
  }

  /**
    Every schedule of transactions, with failures anywhere, equals running the
    completed operations one at a time in the order in which they ended: same
    tables, same answers, returned balances and refusals included.
   */
  lemma {:induction false} SchedulesAreSerializable(start: Tables, actions: seq<Action>)
    ensures var m := Execute(Idle(start), actions);
      Sound(m) && Answered(m) && Refines(start, m)
  {
    if actions != [] {
      var n := |actions| - 1;
      SchedulesAreSerializable(start, actions[..n]);
      var m := Execute(Idle(start), actions[..n]);
      PerformKeepsSound(m, actions[n]);
      PerformKeepsAnswered(m, actions[n]);
      match actions[n] {
        case Start(t, op) => OpenRefines(start, m, t, op);
        case Step(t) => ProceedRefines(start, m, t);
        case Fail(t) =>
          if t in m.txs && !m.txs[t].Finished? {
            EndRefines(start, m, m.tables, t, Failed);
          }
      }
    }
  }

  lemma {:induction false} ReplayKeepsBalanced(start: Tables, log: seq<Completed>)
    requires Balanced(start)
    ensures Balanced(Replay(start, log))
  {
    if log != [] {
      var n := |log| - 1;
      ReplayKeepsBalanced(start, log[..n]);
      AtomicKeepsBalanced(Replay(start, log[..n]), log[n].op, log[n].outcome.Failed?);
    }
  }

  // ---- Who asked, and what they got ----

  /** Every transaction on file is one that was started, with that very operation. */
  ghost predicate Asked(m: Machine, actions: seq<Action>) {
    forall t :: t in m.txs ==> Start(t, m.txs[t].op) in actions
  }

  /** Every answer is the atomic bank's, except where a call of that transaction was made to fail. */
  ghost predicate Honest(start: Tables, log: seq<Completed>, actions: seq<Action>) {
    forall i :: 0 <= i < |log| ==>
      Fail(log[i].t) in actions || log[i].outcome == Atomic(Replay(start, log[..i]), log[i].op, false).1
  }

  /** A step or an opening that ends a transaction ends it with the atomic answer of that moment. */
  lemma EndsHonestly(m: Machine, a: Action)
    requires Sound(m) && !a.Fail?
    ensures var after := Perform(m, a);
      || after.log == m.log
      || exists c: Completed :: after.log == m.log + [c] && c.outcome == Atomic(m.tables, c.op, false).1
  {
    match a
    case Start(t, op) =>
    case Step(t) =>
      if t in m.txs {
        assert TxOk(m, t, m.txs[t]);
      }
  }

  lemma FailRecords(m: Machine, t: TxId)
    ensures var after := Perform(m, Fail(t));
      after.log == m.log || exists c: Completed :: after.log == m.log + [c] && c.t == t
  {}

  lemma OneMoreHonest(start: Tables, log: seq<Completed>, c: Completed, actions: seq<Action>, more: seq<Action>)
    requires Honest(start, log, actions) && forall a :: a in actions ==> a in more
    requires Fail(c.t) in more || c.outcome == Atomic(Replay(start, log), c.op, false).1
    ensures Honest(start, log + [c], more)
  {
    var all := log + [c];
    assert all[..|log|] == log;
    forall i | 0 <= i < |all|
      ensures Fail(all[i].t) in more || all[i].outcome == Atomic(Replay(start, all[..i]), all[i].op, false).1
    {
      if i < |log| {
        assert all[..i] == log[..i] && all[i] == log[i];
      }
    }
  }

  lemma StepIsHonest(start: Tables, m: Machine, actions: seq<Action>, a: Action)
    requires Sound(m) && m.tables == Replay(start, m.log) && Honest(start, m.log, actions)
    ensures Honest(start, Perform(m, a).log, actions + [a])
  {
    var after := Perform(m, a);
    if a.Fail? {
      FailRecords(m, a.t);
    } else {
      EndsHonestly(m, a);
    }
    if after.log != m.log {
      var c: Completed :| after.log == m.log + [c] && (if a.Fail? then c.t == a.t else c.outcome == Atomic(m.tables, c.op, false).1);
      OneMoreHonest(start, m.log, c, actions, actions + [a]);
    }
  }

  lemma StepWasAsked(m: Machine, actions: seq<Action>, a: Action)
    requires Asked(m, actions)
    ensures Asked(Perform(m, a), actions + [a])
  {
    var after := Perform(m, a);
    forall t | t in after.txs ensures Start(t, after.txs[t].op) in actions + [a] {
      assert t in m.txs ==> after.txs[t].op == m.txs[t].op;
    }
  }

  /** In every schedule. */
  lemma {:induction false} RecordsWereAsked(start: Tables, actions: seq<Action>)
    ensures var m := Execute(Idle(start), actions);
      Asked(m, actions) && Honest(start, m.log, actions)
  {
    if actions != [] {
      var n := |actions| - 1;
      var m := Execute(Idle(start), actions[..n]);
      RecordsWereAsked(start, actions[..n]);
      SchedulesAreSerializable(start, actions[..n]);
      StepIsHonest(start, m, actions[..n], actions[n]);
      StepWasAsked(m, actions[..n], actions[n]);
      assert actions == actions[..n] + [actions[n]];
    }
  }

  lemma ReplayOneMore(start: Tables, log: seq<Completed>, i: nat)
    requires i < |log|
    ensures Replay(start, log[..i + 1]) == Atomic(Replay(start, log[..i]), log[i].op, log[i].outcome.Failed?).0
  {
    assert log[..i + 1][..i] == log[..i];
  }

  /**
    In every schedule each finished transaction answers an operation that was asked for. Unless
    a call of it failed, it paid, credited or refused as the ledger before it demanded; a failed
    one did nothing.
   */
  lemma AnswersAreRight(start: Tables, actions: seq<Action>, i: nat)
    requires Balanced(start) && i < |Execute(Idle(start), actions).log|
    ensures var log := Execute(Idle(start), actions).log;
      var before, after := Replay(start, log[..i]), Replay(start, log[..i + 1]);
      && Start(log[i].t, log[i].op) in actions
      && (Fail(log[i].t) !in actions || !log[i].outcome.Failed? ==> Right(before, log[i].op, after, log[i].outcome))
      && (log[i].outcome.Failed? ==> after == before)
  {
    var log := Execute(Idle(start), actions).log;
    SchedulesAreSerializable(start, actions);
    RecordsWereAsked(start, actions);
    ReplayKeepsBalanced(start, log[..i]);
    ReplayOneMore(start, log, i);
    AtomicIsRight(Replay(start, log[..i]), log[i].op);
    AtomicKeepsBalanced(Replay(start, log[..i]), log[i].op, false);
  }

  /** At every moment of every schedule each committed balance is its ledger's sum and not negative. */
  lemma BooksAlwaysBalance(start: Tables, actions: seq<Action>)
    requires Balanced(start)
    ensures Balanced(Execute(Idle(start), actions).tables)
  {
    SchedulesAreSerializable(start, actions);
    ReplayKeepsBalanced(start, Execute(Idle(start), actions).log);
  }

  // ---- No deadlock ----

  /** A transaction that nothing keeps from its next step. */
  predicate Free(m: Machine, t: TxId) {
    t in m.txs && !m.txs[t].Finished? && Proceed(m, t).txs[t] != m.txs[t]
  }

  /** While anything is unfinished, some transaction can move: the one asked for, or the holder of its row. */
  lemma SomebodyCanMove(m: Machine, t: TxId) returns (u: TxId)
    requires Sound(m) && t in m.txs && !m.txs[t].Finished?
    ensures Free(m, u)
  {
    assert TxOk(m, t, m.txs[t]);
    u := t;
    if m.txs[t].Begun? && Proceed(m, t) == m {
      u := m.locks[m.tables.byNumber[m.txs[t].op.number]];
      assert TxOk(m, u, m.txs[u]);
    }
  }

  function StepsLeft(tx: Tx): nat {
    match tx
    case Begun(_) => 4
    case Locked(_, _, _) => 3
    case Updated(_, _, _) => 2
    case Inserted(_, _, _) => 1
    case Finished(_, _) => 0
  }

  /** A free transaction that takes a step is finished or free to take the next one; nobody else moves. */
  lemma FreeStaysFree(m: Machine, t: TxId)
    requires Sound(m) && Free(m, t)
    ensures var after := Proceed(m, t);
      && after.txs == m.txs[t := after.txs[t]]
      && StepsLeft(after.txs[t]) < StepsLeft(m.txs[t])
      && (after.txs[t].Finished? || Free(after, t))
  {
    ProceedKeepsSound(m, t);
    assert TxOk(m, t, m.txs[t]) && TxOk(Proceed(m, t), t, Proceed(m, t).txs[t]);
  }

  lemma {:induction false} ExecuteConcat(m: Machine, a: seq<Action>, b: seq<Action>)
    ensures Execute(m, a + b) == Execute(Execute(m, a), b)
  {
    if b == [] {
      assert a + b == a;
    } else {
      var n := |b| - 1;
      assert (a + b)[..|a + b| - 1] == a + b[..n];
      ExecuteConcat(m, a, b[..n]);
    }
  }

  ghost predicate OnlySteps(actions: seq<Action>) { forall i :: 0 <= i < |actions| ==> actions[i].Step? }

  /** Left to itself, a free transaction comes to its end. */
  lemma {:induction false} RunsToItsEnd(m: Machine, t: TxId) returns (steps: seq<Action>)
    requires Sound(m) && Free(m, t)
    ensures OnlySteps(steps) && Sound(Execute(m, steps))
    ensures var after := Execute(m, steps); t in after.txs && after.txs[t].Finished? && after.txs == m.txs[t := after.txs[t]]
    decreases StepsLeft(m.txs[t])
  {
    var next := Proceed(m, t);
    FreeStaysFree(m, t);
    ProceedKeepsSound(m, t);
    assert Execute(m, [Step(t)]) == next;
    steps := [Step(t)];
    if !next.txs[t].Finished? {
      var rest := RunsToItsEnd(next, t);
      ExecuteConcat(m, [Step(t)], rest);
      steps := [Step(t)] + rest;
    }
  }

  function OpenTxs(m: Machine): set<TxId> { set t | t in m.txs && !m.txs[t].Finished? }

  lemma {:induction false} AllCanFinish(m: Machine) returns (more: seq<Action>)
    requires Sound(m)
    ensures OnlySteps(more)
    ensures OpenTxs(Execute(m, more)) == {} && Execute(m, more).txs.Keys == m.txs.Keys
    decreases |OpenTxs(m)|
  {
    more := [];
    if OpenTxs(m) != {} {
      var t :| t in OpenTxs(m);
      var u := SomebodyCanMove(m, t);
      var steps := RunsToItsEnd(m, u);
      var mid := Execute(m, steps);
      assert OpenTxs(mid) == OpenTxs(m) - {u} && u in OpenTxs(m);
      var rest := AllCanFinish(mid);
      ExecuteConcat(m, steps, rest);
      more := steps + rest;
    }
  }

  /**
    No deadlock, from any moment of any schedule: steps alone, without a single failure,
    bring every open transaction to its end.
   */
  lemma EverybodyCanFinish(start: Tables, actions: seq<Action>) returns (more: seq<Action>)
    ensures OnlySteps(more)
    ensures var m, last := Execute(Idle(start), actions), Execute(Idle(start), actions + more);
      last.txs.Keys == m.txs.Keys && forall t :: t in last.txs ==> last.txs[t].Finished?
  {
    SchedulesAreSerializable(start, actions);
    var m := Execute(Idle(start), actions);
    more := AllCanFinish(m);
    ExecuteConcat(Idle(start), actions, more);
    assert forall t :: t in Execute(m, more).txs ==> t !in OpenTxs(Execute(m, more));
  }
}
