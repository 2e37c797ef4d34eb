/**
 * What a sequence of deposits and withdrawals does to one account. Each
 * request is applied as the store applies it; a refused request changes
 * nothing and the next one goes ahead.
 */
module History {
  import opened Accrual
  import opened Accounts

  /** A deposit or withdrawal request against one account. */
  datatype Request = DepositRequest(amount: real, date: Date) | WithdrawRequest(amount: real, date: Date)

  /** The account and the transactions it gained over a run of requests. */
  datatype Ledger = Ledger(account: Account, entries: seq<Transaction>)

  /** The effect of one request on an existing account. */
  function Apply(a: Account, yearlyReturn: real, req: Request): Result<Account, Error> {
    match req
    case DepositRequest(amount, date) => Success(Deposited(a, amount, date))
    case WithdrawRequest(amount, date) => Withdrawal(a, yearlyReturn, amount, date)
  }

  /** The ledger entry a successful request appends. */
  function EntryFor(accountId: int, req: Request): Transaction {
    match req
    case DepositRequest(amount, date) => Transaction(accountId, TxKind.Deposit, amount, date)
    case WithdrawRequest(amount, date) => Transaction(accountId, TxKind.Withdraw, amount, date)
  }

  /** Applies the requests in order, skipping the refused ones. */
  function Run(a: Account, yearlyReturn: real, accountId: int, reqs: seq<Request>): Ledger
    decreases |reqs|
  {
    if reqs == [] then Ledger(a, [])
    else match Apply(a, yearlyReturn, reqs[0])
      case Failure(_) => Run(a, yearlyReturn, accountId, reqs[1..])
      case Success(a') =>
        var rest := Run(a', yearlyReturn, accountId, reqs[1..]);
        Ledger(rest.account, [EntryFor(accountId, reqs[0])] + rest.entries)
  }

  /** The date of the first deposit request, if there is one. */
  function FirstDepositDate(reqs: seq<Request>): Option<Date> {
    if reqs == [] then None
    else if reqs[0].DepositRequest? then Some(reqs[0].date)
    else FirstDepositDate(reqs[1..])
  }

  predicate AllAmountsPositive(reqs: seq<Request>) {
    forall i | 0 <= i < |reqs| :: reqs[i].amount > 0.0
  }

  function CountDepositRequests(reqs: seq<Request>): nat {
    if reqs == [] then 0
    else (if reqs[0].DepositRequest? then 1 else 0) + CountDepositRequests(reqs[1..])
  }

  function CountKind(entries: seq<Transaction>, kind: TxKind): nat {
    if entries == [] then 0
    else (if entries[0].kind == kind then 1 else 0) + CountKind(entries[1..], kind)
  }

  function SumAmounts(reqs: seq<Request>): real {
    if reqs == [] then 0.0 else reqs[0].amount + SumAmounts(reqs[1..])
  }

  /**
   * The deposit date is set once: an account that has one keeps it through
   * any run of requests, and an account without one ends with the date of
   * the first deposit request, or still none if there was no deposit.
   */
  lemma {:induction false} RunSetsDepositDateOnce(a: Account, yearlyReturn: real, accountId: int, reqs: seq<Request>)
    ensures Run(a, yearlyReturn, accountId, reqs).account.depositDate
         == if a.depositDate.Some? then a.depositDate else FirstDepositDate(reqs)
    decreases |reqs|
  {
    if reqs != [] {
      match Apply(a, yearlyReturn, reqs[0])
      case Failure(_) =>
        RunSetsDepositDateOnce(a, yearlyReturn, accountId, reqs[1..]);
      case Success(a') =>
        RunSetsDepositDateOnce(a', yearlyReturn, accountId, reqs[1..]);
    }
  }

  /**
   * An account without a deposit date refuses every withdrawal, so if no
   * deposit is requested the account and the ledger stay as they were.
   */
  lemma {:induction false} NoDepositNoChange(a: Account, yearlyReturn: real, accountId: int, reqs: seq<Request>)
    requires a.depositDate.None?
    requires CountDepositRequests(reqs) == 0
    ensures Run(a, yearlyReturn, accountId, reqs) == Ledger(a, [])
    decreases |reqs|
  {
    if reqs != [] {
      assert reqs[0].WithdrawRequest?;
      NoDepositNoChange(a, yearlyReturn, accountId, reqs[1..]);
    }
  }

  /**
   * Starting from a non-negative balance with positive amounts, the stored
   * balance never becomes negative, whatever the rate.
   */
  lemma {:induction false} RunKeepsBalanceNonNegative(a: Account, yearlyReturn: real, accountId: int, reqs: seq<Request>)
    requires a.balance >= 0.0
    requires AllAmountsPositive(reqs)
    ensures Run(a, yearlyReturn, accountId, reqs).account.balance >= 0.0
    decreases |reqs|
  {
    if reqs != [] {
      assert reqs[0].amount > 0.0;
      match Apply(a, yearlyReturn, reqs[0])
      case Failure(_) =>
        RunKeepsBalanceNonNegative(a, yearlyReturn, accountId, reqs[1..]);
      case Success(a') =>
        RunKeepsBalanceNonNegative(a', yearlyReturn, accountId, reqs[1..]);
    }
  }

  /**
   * The ledger grows by at most one entry per request, every entry belongs
   * to the account, and deposits are never refused: there is exactly one
   * DEPOSIT entry per deposit request.
   */
  lemma {:induction false} RunLedgerEntries(a: Account, yearlyReturn: real, accountId: int, reqs: seq<Request>)
    ensures var l := Run(a, yearlyReturn, accountId, reqs);
            && |l.entries| <= |reqs|
            && (forall i | 0 <= i < |l.entries| :: l.entries[i].accountId == accountId)
            && CountKind(l.entries, TxKind.Deposit) == CountDepositRequests(reqs)
    decreases |reqs|
  {
    if reqs != [] {
      match Apply(a, yearlyReturn, reqs[0])
      case Failure(_) =>
        RunLedgerEntries(a, yearlyReturn, accountId, reqs[1..]);
      case Success(a') =>
        RunLedgerEntries(a', yearlyReturn, accountId, reqs[1..]);
        var rest := Run(a', yearlyReturn, accountId, reqs[1..]);
        var entries := [EntryFor(accountId, reqs[0])] + rest.entries;
        assert entries[1..] == rest.entries;
    }
  }

  /**
   * Deposits alone earn nothing: after deposit requests only, the stored
   * balance is the starting balance plus the deposited amounts, and every
   * request left one entry.
   */
  lemma {:induction false} DepositsOnlyAddUp(a: Account, yearlyReturn: real, accountId: int, reqs: seq<Request>)
    requires CountDepositRequests(reqs) == |reqs|
    ensures Run(a, yearlyReturn, accountId, reqs).account.balance == a.balance + SumAmounts(reqs)
    ensures |Run(a, yearlyReturn, accountId, reqs).entries| == |reqs|
    decreases |reqs|
  {
    if reqs != [] {
      CountDepositRequestsBound(reqs[1..]);
      assert reqs[0].DepositRequest?;
      var a' := Deposited(a, reqs[0].amount, reqs[0].date);
      DepositsOnlyAddUp(a', yearlyReturn, accountId, reqs[1..]);
    }
  }

  lemma {:induction false} CountDepositRequestsBound(reqs: seq<Request>)
    ensures CountDepositRequests(reqs) <= |reqs|
    decreases |reqs|
  {
    if reqs != [] {
      CountDepositRequestsBound(reqs[1..]);
    }
  }
}
