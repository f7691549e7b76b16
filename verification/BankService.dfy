/** The account service as it is written: one call after the other, with rollback on every error path. */
module BankService {
  import opened Lists
  import opened Bank

  /** The database calls of a transaction, each of which may be refused. */
  datatype Call = OnBegin | OnSelect | OnUpdate | OnInsert | OnCommit

  class AccountService {
    var balances: map<AccountId, int>
    var byNumber: map<Number, AccountId>
    var ledger: seq<Entry>

    ghost function View(): Tables
      reads this
    {
      Tables(balances, byNumber, ledger)
    }

    constructor (t: Tables)
      ensures View() == t
    {
      balances, byNumber, ledger := t.balances, t.byNumber, t.ledger;
    }

    /**
      Deposit and Withdraw. Without a fault the answer and the tables are the atomic
      bank's; with one, either the call that would fail is never reached or nothing changes.
     */
    method Move(op: Op, fault: Option<Call>) returns (answer: Outcome)
      requires !op.Create?
      modifies this
      ensures answer != Failed ==> (View(), answer) == Atomic(old(View()), op, false)
      ensures answer == Failed ==> View() == old(View())
      ensures fault.None? ==> (View(), answer) == Atomic(old(View()), op, false)
      ensures Balanced(old(View())) && (fault.None? || answer != Failed) ==> Right(old(View()), op, View(), answer)
    {
      ghost var before := View();
      if Balanced(before) {
        AtomicIsRight(before, op);
      }
      if op.amount <= 0 {
        return NotPositive;
      }
      if fault == Some(OnBegin) || fault == Some(OnSelect) {
        return Failed;
      }
      if op.number !in byNumber || byNumber[op.number] !in balances {
        return NotFound;
      }
      var id := byNumber[op.number];
      var balance := balances[id];
      if op.Withdraw? && balance < op.amount {
        return InsufficientFunds;
      }
      var newBalance := if op.Deposit? then balance + op.amount else balance - op.amount;
      if fault == Some(OnUpdate) || newBalance >= BALANCE_LIMIT {
        return Failed;
      }
      var newBalances := balances[id := newBalance];
      if fault == Some(OnInsert) {
        return Failed;
      }
      var newLedger := ledger + [Entry(id, if op.Deposit? then Deposited else Withdrawn, op.amount)];
      if fault == Some(OnCommit) {
        return Failed;
      }
      balances, ledger := newBalances, newLedger;
      return Balance(newBalance);
    }

    /** CreateAccount: a unique index answers a second account under the same number or key. */
    method CreateAccount(number: Number, id: AccountId) returns (answer: Outcome)
      modifies this
      ensures (View(), answer) == Atomic(old(View()), Create(number, id), false)
      ensures RightCreate(old(View()), number, id, View(), answer)
    {
      if number in byNumber || id in balances {
        return AlreadyExists;
      }
      balances := balances[id := 0];
      byNumber := byNumber[number := id];
      return Balance(0);
    }
  }
}
