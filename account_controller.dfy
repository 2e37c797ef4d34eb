/**
 * The persistent state the account controller works on, and its deposit
 * and withdraw operations. Each operation reads one account, decides, then
 * appends one transaction and rewrites the account record; here each is a
 * single atomic step.
 */
module AccountController {
  import opened Accrual
  import opened Accounts

  class AccountStore {
    /** The account table, by account identifier. */
    var accounts: map<int, Account>
    /** The yearly rate of each deposit product, by product identifier. */
    var yearlyReturns: map<int, real>
    /** The transaction table, oldest first. */
    var transactions: seq<Transaction>

    /**
     * The store's integrity: every account refers to an existing deposit
     * product, and every transaction belongs to an existing account and
     * moves a positive amount.
     */
    ghost predicate Valid()
      reads this
    {
      && (forall id | id in accounts :: accounts[id].depositoTypeId in yearlyReturns)
      && (forall i | 0 <= i < |transactions| ::
            transactions[i].accountId in accounts && transactions[i].amount > 0.0)
    }

    /** A store holding the given tables. */
    constructor (accounts: map<int, Account>, yearlyReturns: map<int, real>, transactions: seq<Transaction>)
      requires forall id | id in accounts :: accounts[id].depositoTypeId in yearlyReturns
      requires forall i | 0 <= i < |transactions| ::
                 transactions[i].accountId in accounts && transactions[i].amount > 0.0
      ensures Valid()
      ensures this.accounts == accounts && this.yearlyReturns == yearlyReturns
      ensures this.transactions == transactions
    {
      this.accounts := accounts;
      this.yearlyReturns := yearlyReturns;
      this.transactions := transactions;
    }

    /**
     * Deposits `amount` on `date` into account `accountId`: refused when
     * the account does not exist; otherwise appends one DEPOSIT entry and
     * stores the deposited account, leaving every other account alone.
     */
    method Deposit(accountId: int, amount: real, date: Date) returns (r: Result<Account, Error>)
      requires Valid()
      requires amount > 0.0
      modifies this
      ensures Valid()
      ensures yearlyReturns == old(yearlyReturns)
      ensures accountId !in old(accounts) ==>
                r == Failure(AccountNotFound)
                && accounts == old(accounts) && transactions == old(transactions)
      ensures accountId in old(accounts) ==>
                r == Success(Deposited(old(accounts)[accountId], amount, date))
                && accounts == old(accounts)[accountId := r.value]
                && transactions == old(transactions) + [Transaction(accountId, TxKind.Deposit, amount, date)]
    {
      if accountId !in accounts {
        return Failure(AccountNotFound);
      }
      var account := accounts[accountId];
      var newBalance := account.balance + amount;
      transactions := transactions + [Transaction(accountId, TxKind.Deposit, amount, date)];
      var depositDate := if account.depositDate.Some? then account.depositDate else Some(date);
      var updated := account.(balance := newBalance, depositDate := depositDate);
      accounts := accounts[accountId := updated];
      r := Success(updated);
    }

    /**
     * Withdraws `amount` on `date` from account `accountId`: refused when
     * the account does not exist, when it has no deposit date, or when the
     * amount exceeds the balance accrued since the deposit date, and then
     * nothing changes; otherwise appends one WITHDRAW entry and stores
     * what remains of the accrued balance, leaving the deposit date and
     * every other account alone.
     */
    method Withdraw(accountId: int, amount: real, date: Date) returns (r: Result<Account, Error>)
      requires Valid()
      requires amount > 0.0
      modifies this
      ensures Valid()
      ensures yearlyReturns == old(yearlyReturns)
      ensures accountId !in old(accounts) ==> r == Failure(AccountNotFound)
      ensures accountId in old(accounts) ==>
                var a := old(accounts)[accountId];
                r == Withdrawal(a, old(yearlyReturns)[a.depositoTypeId], amount, date)
      ensures r.Failure? ==> accounts == old(accounts) && transactions == old(transactions)
      ensures r.Success? ==>
                accounts == old(accounts)[accountId := r.value]
                && transactions == old(transactions) + [Transaction(accountId, TxKind.Withdraw, amount, date)]
    {
      if accountId !in accounts {
        return Failure(AccountNotFound);
      }
      var account := accounts[accountId];
      if account.depositDate.None? {
        return Failure(NoDepositDate);
      }
      var startingBalance := account.balance;
      var monthlyReturn := yearlyReturns[account.depositoTypeId] / 12.0;
      var months := MonthsDifference(account.depositDate.value, date);
      var endingBalance := startingBalance + (startingBalance * months as real * monthlyReturn);
      assert endingBalance == Accrued(account, yearlyReturns[account.depositoTypeId], date);
      if amount > endingBalance {
        return Failure(InsufficientBalance);
      }
      var newBalance := endingBalance - amount;
      transactions := transactions + [Transaction(accountId, TxKind.Withdraw, amount, date)];
      var updated := account.(balance := newBalance);
      accounts := accounts[accountId := updated];
      r := Success(updated);
    }
  }
}
