/**
  The bank's tables and its operations taken atomically: the reference that every
  schedule of row-locking transactions is compared with. Amounts are whole cents.
 */
module Bank {
  type Number = string
  type AccountId = nat

  /** NUMERIC(15,2) holds absolute values below ten to the fifteenth cents. */
  const BALANCE_LIMIT := 1_000_000_000_000_000

  datatype Kind = Deposited | Withdrawn

  datatype Entry = Entry(account: AccountId, kind: Kind, amount: int)

  /** The committed tables: balances by primary key, the unique index on numbers, the ledger rows. */
  datatype Tables = Tables(balances: map<AccountId, int>, byNumber: map<Number, AccountId>, ledger: seq<Entry>)

  /** `id` is the value the SERIAL sequence drew for a new row. */
  datatype Op =
    | Deposit(number: Number, amount: int)
    | Withdraw(number: Number, amount: int)
    | Create(number: Number, id: AccountId)

  datatype Outcome =
    | Balance(balance: int)
    | NotPositive
    | NotFound
    | InsufficientFunds
    | AlreadyExists
    | Failed

  function KindOf(op: Op): Kind { if op.Deposit? then Deposited else Withdrawn }

  function SignedAmount(kind: Kind, amount: int): int { if kind.Deposited? then amount else -amount }

  function NewBalance(op: Op, balance: int): int
    requires !op.Create?
  {
    balance + SignedAmount(KindOf(op), op.amount)
  }

  /** What the service answers once it has read the locked balance; `Balance` means it may go on. */
  function Decide(op: Op, balance: int): Outcome
    requires !op.Create?
  {
    if op.Withdraw? && balance < op.amount then InsufficientFunds
    else if NewBalance(op, balance) >= BALANCE_LIMIT then Failed
    else Balance(NewBalance(op, balance))
  }

  /** The balance update and the ledger row, committed together. */
  function Post(t: Tables, op: Op, id: AccountId, newBalance: int): Tables
    requires !op.Create?
  {
    t.(balances := t.balances[id := newBalance],
       ledger := t.ledger + [Entry(id, KindOf(op), op.amount)])
  }

  function AtomicMove(t: Tables, op: Op): (Tables, Outcome)
    requires !op.Create?
  {
    if op.amount <= 0 then (t, NotPositive)
    else if op.number !in t.byNumber || t.byNumber[op.number] !in t.balances then (t, NotFound)
    else
      var id := t.byNumber[op.number];
      var answer := Decide(op, t.balances[id]);
      if answer.Balance? then (Post(t, op, id, answer.balance), answer) else (t, answer)
  }

  /** Both unique indexes, on the number and on the primary key, answer with the same error code. */
  function AtomicCreate(t: Tables, number: Number, id: AccountId): (Tables, Outcome) {
    if number in t.byNumber || id in t.balances then (t, AlreadyExists)
    else (t.(balances := t.balances[id := 0], byNumber := t.byNumber[number := id]), Balance(0))
  }

  /** One operation on its own; `fault` says that the database refused one of its calls. */
  function Atomic(t: Tables, op: Op, fault: bool): (Tables, Outcome) {
    if fault then (t, Failed)
    else if op.Create? then AtomicCreate(t, op.number, op.id)
    else AtomicMove(t, op)
  }

  // ---- The books balance ----

  /** Deposits minus withdrawals on record for one account. */
  function Net(ledger: seq<Entry>, id: AccountId): int {
    if ledger == [] then 0 else
      var last := ledger[|ledger| - 1];
      Net(ledger[..|ledger| - 1], id) + if last.account == id then SignedAmount(last.kind, last.amount) else 0
  }

  /** Every balance is what the ledger says, is never negative and fits the column; rows are well formed. */
  ghost predicate Balanced(t: Tables) {
    && (forall id :: id in t.balances ==> t.balances[id] == Net(t.ledger, id) && 0 <= t.balances[id] < BALANCE_LIMIT)
    && (forall i :: 0 <= i < |t.ledger| ==> t.ledger[i].amount > 0 && t.ledger[i].account in t.balances)
    && (forall n :: n in t.byNumber ==> t.byNumber[n] in t.balances)
    && (forall m, n :: m in t.byNumber && n in t.byNumber && m != n ==> t.byNumber[m] != t.byNumber[n])
  }

  lemma {:induction false} NetOfStranger(ledger: seq<Entry>, id: AccountId)
    requires forall i :: 0 <= i < |ledger| ==> ledger[i].account != id
    ensures Net(ledger, id) == 0
  {
    if ledger != [] {
      NetOfStranger(ledger[..|ledger| - 1], id);
    }
  }

  lemma PostKeepsBalanced(t: Tables, op: Op, id: AccountId)
    requires Balanced(t) && !op.Create? && op.amount > 0 && id in t.balances
    requires Decide(op, t.balances[id]).Balance?
    ensures Balanced(Post(t, op, id, Decide(op, t.balances[id]).balance))
  {}

  /** Every atomic operation keeps the books, and one that is refused or fails touches nothing. */
  lemma AtomicKeepsBalanced(t: Tables, op: Op, fault: bool)
    requires Balanced(t)
    ensures Balanced(Atomic(t, op, fault).0)
    ensures !Atomic(t, op, fault).1.Balance? ==> Atomic(t, op, fault).0 == t
  {
    var (after, answer) := Atomic(t, op, fault);
    if answer.Balance? {
      if op.Create? {
        NetOfStranger(t.ledger, op.id);
      } else {
        PostKeepsBalanced(t, op, t.byNumber[op.number]);
      }
    }
  }

  // ---- When money moves ----

  /** Account `id` now holds `balance`, the ledger has one more row, and nothing else has changed. */
  ghost predicate Moved(t: Tables, id: AccountId, balance: int, row: Entry, after: Tables) {
    && id in after.balances && after.balances[id] == balance
    && after.balances.Keys == t.balances.Keys
    && (forall other :: other in t.balances && other != id ==> after.balances[other] == t.balances[other])
    && after.ledger == t.ledger + [row]
    && after.byNumber == t.byNumber
  }

  /** The funds of an account are what its ledger rows come to; the column holds less than 10^13 whole units. */
  ghost predicate RightMove(t: Tables, op: Op, after: Tables, answer: Outcome)
    requires !op.Create?
  {
    if op.amount <= 0 then answer == NotPositive && after == t
    else if op.number !in t.byNumber then answer == NotFound && after == t
    else
      var id := t.byNumber[op.number];
      var funds := Net(t.ledger, id);
      match op
      case Deposit(_, amount) =>
        if funds + amount < 1_000_000_000_000_000
        then answer == Balance(funds + amount) && Moved(t, id, funds + amount, Entry(id, Deposited, amount), after)
        else answer == Failed && after == t
      case Withdraw(_, amount) =>
        if amount <= funds
        then answer == Balance(funds - amount) && Moved(t, id, funds - amount, Entry(id, Withdrawn, amount), after)
        else answer == InsufficientFunds && after == t
  }

  /** Creating: a number and a key of its own, both new, and nothing on the account; or nothing at all. */
  ghost predicate RightCreate(t: Tables, number: Number, id: AccountId, after: Tables, answer: Outcome) {
    if number in t.byNumber || id in t.balances then answer == AlreadyExists && after == t
    else
      && answer == Balance(0)
      && after.balances.Keys == t.balances.Keys + {id} && after.balances[id] == 0
      && (forall other :: other in t.balances ==> after.balances[other] == t.balances[other])
      && after.byNumber.Keys == t.byNumber.Keys + {number} && after.byNumber[number] == id
      && (forall other :: other in t.byNumber ==> after.byNumber[other] == t.byNumber[other])
      && after.ledger == t.ledger
  }

  ghost predicate Right(t: Tables, op: Op, after: Tables, answer: Outcome) {
    if op.Create? then RightCreate(t, op.number, op.id, after, answer) else RightMove(t, op, after, answer)
  }

  /** On balanced tables every operation pays, credits or refuses exactly as the ledger's sums demand. */
  lemma AtomicIsRight(t: Tables, op: Op)
    requires Balanced(t)
    ensures Right(t, op, Atomic(t, op, false).0, Atomic(t, op, false).1)
  {
    if !op.Create? && op.number in t.byNumber {
      assert t.byNumber[op.number] in t.balances;
    }
  }

  /** The rows that database/init.sql seeds. */
  function Seeded(): Tables {
    Tables(map[1 := 250_000, 2 := 500_000],
           map["BANK-0001-2024" := 1, "BANK-0002-2024" := 2],
           [Entry(1, Deposited, 250_000), Entry(2, Deposited, 500_000)])
  }

  lemma SeededIsBalanced()
    ensures Balanced(Seeded())
  {}
}
