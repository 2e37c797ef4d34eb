# Deposito account engine: a verified model

This project models the deposit and withdrawal engine of a small bank deposit
("deposito") application. Customers hold accounts of a deposit product with a
fixed yearly rate. Each account keeps these fields:

- a stored balance;
- the date of its first deposit;
- an append-only table of DEPOSIT and WITHDRAW transactions.

Interest is not posted on a schedule. It is computed on demand when a
withdrawal is requested. The computation counts whole calendar months from the
first deposit, ignoring the day of the month and never going below zero. It
then applies one twelfth of the yearly rate per month to the stored balance,
without compounding. A withdrawal is refused in three cases:

- the account does not exist;
- the account has no deposit date;
- the amount exceeds the accrued balance.

A successful withdrawal stores the accrued balance minus the amount. It leaves
the deposit date alone, so a later withdrawal accrues again over the whole time
since the first deposit, on the reduced balance. The model reproduces this
behaviour exactly.

Modules:

- `Accrual` (accrual.dfy): calendar dates as year, zero-based month and day;
  `MonthsDifference` and `EndingBalance` as pure functions; their properties as
  lemmas. `MonthIndex` (year·12 + month) is the independent reference that
  `MonthsDifference` is specified against. `SimpleInterest` (P·(1 + M·R/12)) is
  the reference for `EndingBalance`.
- `Accounts` (accounts.dfy): the account record, transactions and refusals.
  The effect of one deposit (`Deposited`) and of one withdrawal (`Withdrawal`)
  on an account, as pure functions with their properties.
- `AccountController` (account_controller.dfy): the class `AccountStore`.
  Its fields are the account table, the product rates and the transaction
  table. Its `Deposit` and `Withdraw` methods follow the controller step by
  step, and each is proved to equal the pure effect in `Accounts`. `Withdraw`
  computes the accrual inline, as the controller does, and is proved to agree
  with `EndingBalance`.
- `History` (history.dfy): any sequence of deposit and withdrawal requests
  against one account, with refused requests skipped. The lemmas cover the
  deposit date, the balance and the ledger over whole runs.

Balances and rates are `real`, so arithmetic is exact. The calendar reading of
a date (`getFullYear`, `getMonth`, local time zone) is replaced by a date that
already carries its year and month. Nothing touches a database, the network or
a clock: the store's tables are fields of the class, and the date of a request
is a parameter.

The controller itself does not check that an amount is positive. The
withdraw route refuses only an amount that is missing or falsy, such as 0 or
an empty string. It parses any other amount, including a negative one, and
passes it on. The `min="1"` on the account page's amount fields is enforced
only by the browser. No route calls the deposit operation. The model takes
`amount > 0` as a precondition of `Deposit` and `Withdraw`. With that
precondition the store keeps its invariant that every transaction moves a
positive amount.

The principal is the stored balance at the time of the withdrawal. After an
earlier withdrawal that is what remained of the previous accrual, not the
balance at the first deposit.

## Model

| member | source | states |
|---|---|---|
| Accrual.MonthsDifference | lib/controllers/accountController.ts:146-151 | The result is a natural number. It is 0 when the end month is not after the start month. Otherwise, added to the start's month index, it gives the end's month index. |
| Accrual.MonthsDifferenceIgnoresDay | lib/controllers/accountController.ts:149 | Dates that agree in year and month give the same month count, whatever their days. |
| Accrual.SameMonthIsZero | lib/controllers/accountController.ts:149-150 | Two dates in one calendar month are 0 months apart. |
| Accrual.AdjacentMonthsIsOne | lib/controllers/accountController.ts:149 | Dates in adjacent calendar months are 1 month apart, across a year boundary too. |
| Accrual.MonthsDifferenceAdditive | lib/controllers/accountController.ts:149-150 | For dates in order, the months from d1 to d3 are the months from d1 to d2 plus those from d2 to d3. |
| Accrual.MonthsDifferenceMonotone | lib/controllers/accountController.ts:149-150 | An earlier start or a later end never gives fewer months. |
| Accrual.DayApartAcrossBoundaries | lib/controllers/accountController.ts:146-151 | 31 Jan to 1 Feb is 1 month, 31 Dec to 1 Jan is 1 month, and an end before the start is 0. |
| Accrual.EndingBalance | lib/controllers/accountController.ts:153-157 | With a non-negative balance and rate, the result is at least the starting balance. With 0 elapsed months it is exactly the starting balance. |
| Accrual.EndingBalanceLinear | lib/controllers/accountController.ts:153-157 | The ending balance is the starting balance plus the month count times a fixed monthly interest amount. |
| Accrual.EndingBalanceIsSimpleInterest | lib/controllers/accountController.ts:153-157 | The ending balance equals P·(1 + M·R/12) with M the month count. |
| Accrual.EndingBalanceMonotoneInMonths | lib/controllers/accountController.ts:153-157 | With a non-negative balance and rate, more elapsed months never give a smaller ending balance. |
| Accrual.EndingBalanceStrictlyMonotoneInMonths | lib/controllers/accountController.ts:153-157 | With a positive balance and rate, strictly more months give a strictly larger ending balance. |
| Accrual.EndingBalanceMonotoneInPrincipal | lib/controllers/accountController.ts:153-157 | With a non-negative rate, a larger starting balance never gives a smaller ending balance. |
| Accrual.SixMonthsAtFivePercent | lib/controllers/accountController.ts:153-157 | 1 Jan 2024 to 1 Jul 2024 is 6 months. One million at 5% a year over that span ends at 1,025,000. |
| Accounts.MessagesDistinct | lib/controllers/accountController.ts:105-120 | The three refusal messages differ, so the message alone identifies the refusal. |
| Accounts.Deposited | lib/controllers/accountController.ts:72-87 | The balance grows by exactly the amount. The deposit date is afterwards always set. An existing deposit date is kept, and a missing one becomes the deposit's date. The product is unchanged. |
| Accounts.Withdrawal | lib/controllers/accountController.ts:109-122 | It refuses with NoDepositDate exactly when there is no deposit date. It refuses with InsufficientBalance exactly when the amount exceeds the accrued balance. It never reports AccountNotFound. On success the new balance is non-negative, the new balance plus the amount equals the accrued balance, and the deposit date and product are unchanged. |
| Accounts.DepositCanBeWithdrawn | lib/controllers/accountController.ts:72-122 | With a non-negative balance and rate, withdrawing the amount just deposited succeeds on any date. It leaves at least the balance the account had before the deposit. |
| Accounts.WithdrawalWithoutElapsedMonths | lib/controllers/accountController.ts:113-122 | When the withdrawal month is not after the deposit month, the withdrawal succeeds exactly when the amount is at most the stored balance, and leaves balance − amount. |
| Accounts.NextWithdrawalAccruesFromDepositDate | lib/controllers/accountController.ts:113-136 | A withdrawal keeps the deposit date, so the next accrual runs from the first deposit. Take a positive balance and a positive rate, with the deposit in an earlier month than the last withdrawal. That balance then accrues strictly more than it would earn from the last withdrawal on. |
| Accounts.WithdrawalThenAccrual | lib/controllers/accountController.ts:113-136 | After a successful withdrawal the deposit date is unchanged. The next accrual is the accrual, from the first deposit, of what remained of the previous accrual after the amount was taken out. |
| Accounts.ExampleWithdrawals | lib/controllers/accountController.ts:113-122 | One million at 5% from 1 Jan 2024: withdrawing one million on 1 Jul 2024 leaves 25,000. Withdrawing 1,000,001 on 1 Dec 2023 is refused as insufficient. |
| Accounts.ExampleDeposits | lib/controllers/accountController.ts:72-87 | Deposits of 500,000 on 10 Mar 2024 and 200,000 on 10 Apr 2024 into a new account give balance 700,000 and deposit date 10 Mar 2024. |
| AccountController.AccountStore.Deposit | lib/controllers/accountController.ts:63-95 | A missing account gives AccountNotFound and changes nothing. Otherwise the method returns and stores Deposited(old account), appends exactly one DEPOSIT entry with the amount and date, leaves other accounts and the rates alone, and keeps the store valid. |
| AccountController.AccountStore.Withdraw | lib/controllers/accountController.ts:97-144 | A missing account gives AccountNotFound. Otherwise the result is Withdrawal(old account, its product's rate, amount, date). Any refusal leaves both tables unchanged. Success stores the new account and appends exactly one WITHDRAW entry. The store stays valid. |
| History.RunSetsDepositDateOnce | lib/controllers/accountController.ts:83-88 | Over any run of requests, an existing deposit date never changes. A missing one becomes the date of the first deposit request, or stays missing if there is none. |
| History.NoDepositNoChange | lib/controllers/accountController.ts:109-111 | An account without a deposit date refuses every withdrawal. With no deposit request, the account and ledger are unchanged. |
| History.RunKeepsBalanceNonNegative | lib/controllers/accountController.ts:72-122 | From a non-negative balance with positive amounts, the stored balance stays non-negative over any run, at any rate. |
| History.RunLedgerEntries | lib/controllers/accountController.ts:74-131 | Each request adds at most one entry, and every entry belongs to the account. There is exactly one DEPOSIT entry per deposit request, since deposits are never refused. |
| History.DepositsOnlyAddUp | lib/controllers/accountController.ts:72-87 | A run of deposits alone leaves the starting balance plus the sum of the amounts, with no interest, and one entry per request. |

## Left out

- The CRUD operations of the account controller (`getAll`, `getById`, `create`, `update`, `delete`) are not modelled. They are single ORM calls whose ordering, joins and cascades live in the database layer. The customer and deposit-product controllers are left out for the same reason.
- The account's customer reference, and each transaction's database identifier and creation timestamp, are not modelled. The database assigns them, and no decision in the engine reads them.
- JavaScript numbers are IEEE doubles. The model uses exact `real` arithmetic, so the source may differ in the last bits of a balance.
- Parsing a date string and reading its local-time year and month (`new Date`, `getFullYear`, `getMonth`, time zones) are not modelled. A date already carries its year, its zero-based month and its day.
- Deposit and withdraw each make two separate database writes: the transaction, then the account. Concurrent requests can race between them. The model treats each operation as one atomic step.
- AccountController.AccountStore.Deposit: does not model a zero, negative or non-numeric amount, because the controller has no check for it and the model keeps every ledger amount positive. In the source a negative deposit lowers the balance, possibly below zero, and still appends a DEPOSIT entry (lib/controllers/accountController.ts:72-87).
- AccountController.AccountStore.Withdraw: does not model a zero, negative or non-numeric amount, for the same reason. In the source a negative amount passes the balance check whenever the accrued balance is at least that amount. The account is then credited rather than debited, and a WITHDRAW entry is still appended (lib/controllers/accountController.ts:118-131).
- HTTP routing, JSON handling and the pages, including the accrual preview the account page computes in the browser, are not part of this model.
