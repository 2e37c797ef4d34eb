/**
 * Accounts, transactions and the effect of one deposit or one withdrawal on
 * an account record, as pure values. AccountController.AccountStore applies these
 * effects to its records in place.
 */
module Accounts {
  import opened Accrual

  datatype Option<T> = None | Some(value: T)

  datatype Result<T, E> = Success(value: T) | Failure(error: E)

  /** The two kinds of ledger entry. */
  datatype TxKind = Deposit | Withdraw

  /**
   * One entry of the append-only transaction table. The database also
   * gives each entry an identifier and a creation time.
   */
  datatype Transaction = Transaction(accountId: int, kind: TxKind, amount: real, date: Date)

  /**
   * The stored part of an account that deposits and withdrawals read and
   * write: the stored balance, the date of the first deposit (none before
   * it), and the deposit product whose yearly rate applies.
   */
  datatype Account = Account(balance: real, depositDate: Option<Date>, depositoTypeId: int)

  /** The ways a deposit or a withdrawal is refused. */
  datatype Error = AccountNotFound | NoDepositDate | InsufficientBalance

  /** The message each refusal carries. */
  function Message(e: Error): string {
    match e
    case AccountNotFound => "Account not found"
    case NoDepositDate => "No deposit date found for this account"
    case InsufficientBalance => "Insufficient balance"
  }

  /** The refusals are told apart by their messages alone. */
  lemma MessagesDistinct(e: Error, e': Error)
    requires Message(e) == Message(e')
    ensures e == e'
  {
    match e
    case AccountNotFound =>
      assert Message(e)[0] == 'A';
      assert e' == AccountNotFound;
    case NoDepositDate =>
      assert Message(e)[0] == 'N';
      assert e' == NoDepositDate;
    case InsufficientBalance =>
      assert Message(e)[0] == 'I';
      assert e' == InsufficientBalance;
  }

  /**
   * The balance the account has accrued by `date` at `yearlyReturn`:
   * simple interest on the stored balance since the first deposit.
   */
  function Accrued(a: Account, yearlyReturn: real, date: Date): real
    requires a.depositDate.Some?
  {
    EndingBalance(a.balance, yearlyReturn, a.depositDate.value, date)
  }

  /**
   * The account after a deposit of `amount` on `date`: the amount is added
   * to the stored balance without any accrual, and the deposit date is set
   * to `date` only when the account had none.
   */
  function Deposited(a: Account, amount: real, date: Date): (r: Account)
    ensures r.balance - a.balance == amount
    ensures r.depositDate.Some?
    ensures a.depositDate.Some? ==> r.depositDate == a.depositDate
    ensures a.depositDate.None? ==> r.depositDate == Some(date)
    ensures r.depositoTypeId == a.depositoTypeId
  {
    var depositDate := if a.depositDate.Some? then a.depositDate else Some(date);
    Account(a.balance + amount, depositDate, a.depositoTypeId)
  }

  /**
   * The outcome of withdrawing `amount` on `date` from an account whose
   * product pays `yearlyReturn`: refused without a deposit date, refused
   * when the amount exceeds the accrued balance, and otherwise the account
   * whose stored balance is what remains of the accrued balance.
   */
  function Withdrawal(a: Account, yearlyReturn: real, amount: real, date: Date): (r: Result<Account, Error>)
    ensures r == Failure(NoDepositDate) <==> a.depositDate.None?
    ensures r == Failure(InsufficientBalance)
        <==> a.depositDate.Some? && amount > Accrued(a, yearlyReturn, date)
    ensures r.Failure? ==> r.error != AccountNotFound
    ensures r.Success? ==>
              && r.value.balance >= 0.0
              && r.value.balance + amount == Accrued(a, yearlyReturn, date)
              && r.value.depositDate == a.depositDate
              && r.value.depositoTypeId == a.depositoTypeId
  {
    if a.depositDate.None? then
      Failure(NoDepositDate)
    else
      var endingBalance := Accrued(a, yearlyReturn, date);
      if amount > endingBalance then
        Failure(InsufficientBalance)
      else
        Success(a.(balance := endingBalance - amount))
  }

  /**
   * Money deposited can be taken out again at any later (or earlier) date:
   * with a non-negative balance and rate, withdrawing the deposited amount
   * right after a deposit succeeds and leaves at least the balance the
   * account had before the deposit.
   */
  lemma DepositCanBeWithdrawn(a: Account, yearlyReturn: real, amount: real, depositDate: Date, withdrawDate: Date)
    requires a.balance >= 0.0 && yearlyReturn >= 0.0 && amount > 0.0
    ensures var r := Withdrawal(Deposited(a, amount, depositDate), yearlyReturn, amount, withdrawDate);
            r.Success? && r.value.balance >= a.balance
  {
    var d := Deposited(a, amount, depositDate);
    assert Accrued(d, yearlyReturn, withdrawDate) >= d.balance;
  }

  /**
   * A withdrawal in the same calendar month as the first deposit earns
   * nothing: it succeeds exactly when the amount is at most the stored
   * balance, and leaves the stored balance minus the amount.
   */
  lemma WithdrawalWithoutElapsedMonths(a: Account, yearlyReturn: real, amount: real, date: Date)
    requires a.depositDate.Some? && MonthIndex(date) <= MonthIndex(a.depositDate.value)
    ensures Withdrawal(a, yearlyReturn, amount, date).Success? <==> amount <= a.balance
    ensures Withdrawal(a, yearlyReturn, amount, date).Success? ==>
              Withdrawal(a, yearlyReturn, amount, date).value.balance == a.balance - amount
  {
  }

  /**
   * A withdrawal keeps the deposit date (see Withdrawal), so the next one
   * accrues over the whole time since the first deposit, not since the
   * last withdrawal: when the deposit lies in an earlier month than the
   * last withdrawal, a positive balance accrues strictly more than it
   * would have earned from the last withdrawal on.
   */
  lemma NextWithdrawalAccruesFromDepositDate(a: Account, yearlyReturn: real, lastWithdrawal: Date, date: Date)
    requires yearlyReturn > 0.0 && a.balance > 0.0
    requires a.depositDate.Some?
    requires MonthIndex(a.depositDate.value) < MonthIndex(lastWithdrawal) <= MonthIndex(date)
    ensures Accrued(a, yearlyReturn, date) > EndingBalance(a.balance, yearlyReturn, lastWithdrawal, date)
  {
    var d := a.depositDate.value;
    MonthsDifferenceAdditive(d, lastWithdrawal, date);
    EndingBalanceStrictlyMonotoneInMonths(a.balance, yearlyReturn, lastWithdrawal, date, d, date);
  }

  /**
   * A successful withdrawal stores what remained of the accrual and keeps
   * the deposit date, so the next withdrawal accrues that remainder over
   * the whole time since the first deposit; NextWithdrawalAccruesFromDepositDate,
   * applied to the account it leaves, gives the strict gap.
   */
  lemma WithdrawalThenAccrual(a: Account, yearlyReturn: real, amount: real, lastWithdrawal: Date, date: Date)
    requires Withdrawal(a, yearlyReturn, amount, lastWithdrawal).Success?
    ensures var b := Withdrawal(a, yearlyReturn, amount, lastWithdrawal).value;
            && b.depositDate == a.depositDate
            && Accrued(b, yearlyReturn, date)
               == EndingBalance(EndingBalance(a.balance, yearlyReturn, a.depositDate.value, lastWithdrawal) - amount,
                                yearlyReturn, a.depositDate.value, date)
  {
  }

  /**
   * A worked example: one million at 5% a year, deposited on
   * 1 January 2024; taking out one million on 1 July 2024 leaves
   * 25,000, while taking out 1,000,001 on 1 December 2023 is refused.
   */
  lemma ExampleWithdrawals()
    ensures var a := Account(1000000.0, Some(Date(2024, 0, 1)), 2);
            && Withdrawal(a, 0.05, 1000000.0, Date(2024, 6, 1)) == Success(a.(balance := 25000.0))
            && Withdrawal(a, 0.05, 1000001.0, Date(2023, 11, 1)) == Failure(InsufficientBalance)
  {
    SixMonthsAtFivePercent();
  }

  /**
   * A worked example of deposits: two deposits into a new account;
   * the first fixes the deposit date, the second only adds to the balance.
   */
  lemma ExampleDeposits()
    ensures var a := Deposited(Deposited(Account(0.0, None, 1), 500000.0, Date(2024, 2, 10)), 200000.0, Date(2024, 3, 10));
            a == Account(700000.0, Some(Date(2024, 2, 10)), 1)
  {
  }
}
