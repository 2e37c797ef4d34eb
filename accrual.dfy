/**
 * The accrual calculator of the account controller: the number of whole
 * calendar months between two dates, and the simple-interest balance that a
 * deposit reaches after that many months at a yearly rate.
 */
module Accrual {

  /** A month of the year as JavaScript's `Date.getMonth` returns it: 0 is January. */
  type Month = m: int | 0 <= m < 12

  /** A day of the month. */
  type Day = d: int | 1 <= d <= 31 witness 1

  /** A calendar date; only its year and month matter to the accrual. */
  datatype Date = Date(year: int, month: Month, day: Day)

  /**
   * The position of a date's calendar month on one continuous month axis
   * (January of year 0 is month 0). It is the reference against which
   * MonthsDifference is specified.
   */
  function MonthIndex(d: Date): int {
    d.year * 12 + d.month
  }

  /** Whether two dates fall in the same calendar month, whatever their days. */
  predicate SameMonth(d: Date, e: Date) {
    d.year == e.year && d.month == e.month
  }

  /**
   * Whole calendar months from `start` to `end`: the difference of years
   * times twelve plus the difference of months, never below zero. The day
   * of the month plays no part.
   */
  function MonthsDifference(start: Date, end: Date): (months: nat)
    ensures MonthIndex(end) <= MonthIndex(start) ==> months == 0
    ensures MonthIndex(start) <= MonthIndex(end) ==> MonthIndex(start) + months == MonthIndex(end)
  {
    var months := (end.year - start.year) * 12 + (end.month - start.month);
    if months > 0 then months else 0
  }

  /**
   * The balance that `startingBalance` reaches when it earns one twelfth
   * of `yearlyReturn` for each whole month from `depositDate` to
   * `withdrawDate`, without compounding.
   */
  function EndingBalance(startingBalance: real, yearlyReturn: real, depositDate: Date, withdrawDate: Date): (r: real)
    ensures startingBalance >= 0.0 && yearlyReturn >= 0.0 ==> r >= startingBalance
    ensures MonthsDifference(depositDate, withdrawDate) == 0 ==> r == startingBalance
  {
    var monthlyReturn := yearlyReturn / 12.0;
    var months := MonthsDifference(depositDate, withdrawDate);
    NonNegativeProduct(startingBalance, months as real, monthlyReturn);
    startingBalance + (startingBalance * months as real * monthlyReturn)
  }

  /** The textbook simple-interest formula P * (1 + M * R / 12). */
  function SimpleInterest(principal: real, yearlyReturn: real, months: nat): real {
    principal * (1.0 + months as real * yearlyReturn / 12.0)
  }

  lemma NonNegativeProduct(x: real, y: real, z: real)
    ensures x >= 0.0 && y >= 0.0 && z >= 0.0 ==> x * y * z >= 0.0
  {
    if x >= 0.0 && y >= 0.0 && z >= 0.0 {
      ProductNonNegative(x, y);
      ProductNonNegative(x * y, z);
    }
  }

  // ---------------------------------------------------------------------
  // Properties of MonthsDifference
  // ---------------------------------------------------------------------

  /** Only the year and the month of either date matter. */
  lemma MonthsDifferenceIgnoresDay(start: Date, start': Date, end: Date, end': Date)
    requires SameMonth(start, start') && SameMonth(end, end')
    ensures MonthsDifference(start, end) == MonthsDifference(start', end')
  {
  }

  /** Two dates of one calendar month are zero months apart, whatever their days. */
  lemma SameMonthIsZero(start: Date, end: Date)
    requires SameMonth(start, end)
    ensures MonthsDifference(start, end) == 0
  {
  }

  /** Dates in adjacent calendar months are one month apart, whatever their days. */
  lemma AdjacentMonthsIsOne(start: Date, end: Date)
    requires MonthIndex(end) == MonthIndex(start) + 1
    ensures MonthsDifference(start, end) == 1
  {
  }

  /** Consecutive spans of months add up, as long as the dates are in order. */
  lemma MonthsDifferenceAdditive(d1: Date, d2: Date, d3: Date)
    requires MonthIndex(d1) <= MonthIndex(d2) <= MonthIndex(d3)
    ensures MonthsDifference(d1, d3) == MonthsDifference(d1, d2) + MonthsDifference(d2, d3)
  {
  }

  /** Moving the start earlier, or the end later, never shortens the span. */
  lemma MonthsDifferenceMonotone(start: Date, start': Date, end: Date, end': Date)
    requires MonthIndex(start') <= MonthIndex(start)
    requires MonthIndex(end) <= MonthIndex(end')
    ensures MonthsDifference(start, end) <= MonthsDifference(start', end')
  {
  }

  // ---------------------------------------------------------------------
  // Properties of EndingBalance
  // ---------------------------------------------------------------------

  // Each property is first proved of Grown, the controller's formula over
  // plain reals, and then carried over to EndingBalance by
  // EndingBalanceIsGrown; the solver then never has to reason about
  // products of reals and the dates' month count at once.

  /** A principal after `months` months at `monthlyReturn` a month, without compounding. */
  function Grown(principal: real, monthlyReturn: real, months: real): real {
    principal + principal * months * monthlyReturn
  }

  lemma EndingBalanceIsGrown(startingBalance: real, yearlyReturn: real, depositDate: Date, withdrawDate: Date)
    ensures EndingBalance(startingBalance, yearlyReturn, depositDate, withdrawDate)
         == Grown(startingBalance, yearlyReturn / 12.0, MonthsDifference(depositDate, withdrawDate) as real)
  {
  }

  /** The interest part of EndingBalance is the month count times a fixed monthly amount. */
  lemma EndingBalanceLinear(startingBalance: real, yearlyReturn: real, depositDate: Date, withdrawDate: Date)
    ensures EndingBalance(startingBalance, yearlyReturn, depositDate, withdrawDate)
         == startingBalance + (startingBalance * (yearlyReturn / 12.0)) * MonthsDifference(depositDate, withdrawDate) as real
  {
    EndingBalanceIsGrown(startingBalance, yearlyReturn, depositDate, withdrawDate);
    GrownLinear(startingBalance, yearlyReturn / 12.0, MonthsDifference(depositDate, withdrawDate) as real);
  }

  /** The controller's formula is the simple-interest formula. */
  lemma EndingBalanceIsSimpleInterest(startingBalance: real, yearlyReturn: real, depositDate: Date, withdrawDate: Date)
    ensures EndingBalance(startingBalance, yearlyReturn, depositDate, withdrawDate)
         == SimpleInterest(startingBalance, yearlyReturn, MonthsDifference(depositDate, withdrawDate))
  {
    EndingBalanceIsGrown(startingBalance, yearlyReturn, depositDate, withdrawDate);
    GrownIsSimpleInterest(startingBalance, yearlyReturn, MonthsDifference(depositDate, withdrawDate) as real);
  }

  /** With a non-negative principal and rate, more elapsed months never yield less. */
  lemma EndingBalanceMonotoneInMonths(startingBalance: real, yearlyReturn: real, d: Date, w: Date, d': Date, w': Date)
    requires startingBalance >= 0.0 && yearlyReturn >= 0.0
    requires MonthsDifference(d, w) <= MonthsDifference(d', w')
    ensures EndingBalance(startingBalance, yearlyReturn, d, w) <= EndingBalance(startingBalance, yearlyReturn, d', w')
  {
    EndingBalanceIsGrown(startingBalance, yearlyReturn, d, w);
    EndingBalanceIsGrown(startingBalance, yearlyReturn, d', w');
    GrownMonotone(startingBalance, yearlyReturn / 12.0,
      MonthsDifference(d, w) as real, MonthsDifference(d', w') as real);
  }

  /**
   * With a positive principal and rate, strictly more elapsed months yield
   * strictly more.
   */
  lemma EndingBalanceStrictlyMonotoneInMonths(startingBalance: real, yearlyReturn: real, d: Date, w: Date, d': Date, w': Date)
    requires startingBalance > 0.0 && yearlyReturn > 0.0
    requires MonthsDifference(d, w) < MonthsDifference(d', w')
    ensures EndingBalance(startingBalance, yearlyReturn, d, w) < EndingBalance(startingBalance, yearlyReturn, d', w')
  {
    EndingBalanceIsGrown(startingBalance, yearlyReturn, d, w);
    EndingBalanceIsGrown(startingBalance, yearlyReturn, d', w');
    GrownStrictlyMonotone(startingBalance, yearlyReturn / 12.0,
      MonthsDifference(d, w) as real, MonthsDifference(d', w') as real);
  }

  /** For a non-negative rate, a larger principal never accrues to less. */
  lemma EndingBalanceMonotoneInPrincipal(s: real, s': real, yearlyReturn: real, depositDate: Date, withdrawDate: Date)
    requires s <= s' && yearlyReturn >= 0.0
    ensures EndingBalance(s, yearlyReturn, depositDate, withdrawDate) <= EndingBalance(s', yearlyReturn, depositDate, withdrawDate)
  {
    EndingBalanceIsGrown(s, yearlyReturn, depositDate, withdrawDate);
    EndingBalanceIsGrown(s', yearlyReturn, depositDate, withdrawDate);
    GrownMonotoneInPrincipal(s, s', yearlyReturn / 12.0, MonthsDifference(depositDate, withdrawDate) as real);
  }

  // Grown over plain reals.

  lemma GrownLinear(principal: real, monthlyReturn: real, months: real)
    ensures Grown(principal, monthlyReturn, months) == principal + (principal * monthlyReturn) * months
  {
    assert principal * months * monthlyReturn == (principal * monthlyReturn) * months;
  }

  lemma GrownIsSimpleInterest(principal: real, yearlyReturn: real, months: real)
    ensures Grown(principal, yearlyReturn / 12.0, months) == principal * (1.0 + months * yearlyReturn / 12.0)
  {
    assert principal * (1.0 + months * yearlyReturn / 12.0)
        == principal + principal * (months * yearlyReturn / 12.0);
    assert principal * (months * yearlyReturn / 12.0) == principal * months * (yearlyReturn / 12.0);
  }

  lemma GrownMonotone(principal: real, monthlyReturn: real, months: real, months': real)
    requires principal >= 0.0 && monthlyReturn >= 0.0 && months <= months'
    ensures Grown(principal, monthlyReturn, months) <= Grown(principal, monthlyReturn, months')
  {
    var k := principal * monthlyReturn;
    ProductNonNegative(principal, monthlyReturn);
    GrownLinear(principal, monthlyReturn, months);
    GrownLinear(principal, monthlyReturn, months');
    Distributes(k, months, months' - months);
    ProductNonNegative(k, months' - months);
  }

  lemma GrownStrictlyMonotone(principal: real, monthlyReturn: real, months: real, months': real)
    requires principal > 0.0 && monthlyReturn > 0.0 && months < months'
    ensures Grown(principal, monthlyReturn, months) < Grown(principal, monthlyReturn, months')
  {
    var k := principal * monthlyReturn;
    ProductPositive(principal, monthlyReturn);
    GrownLinear(principal, monthlyReturn, months);
    GrownLinear(principal, monthlyReturn, months');
    Distributes(k, months, months' - months);
    ProductPositive(k, months' - months);
  }

  lemma GrownMonotoneInPrincipal(principal: real, principal': real, monthlyReturn: real, months: real)
    requires principal <= principal' && monthlyReturn >= 0.0 && months >= 0.0
    ensures Grown(principal, monthlyReturn, months) <= Grown(principal', monthlyReturn, months)
  {
    var f := 1.0 + months * monthlyReturn;
    ProductNonNegative(months, monthlyReturn);
    assert Grown(principal, monthlyReturn, months) == principal * f;
    assert Grown(principal', monthlyReturn, months) == principal' * f;
    Distributes(f, principal, principal' - principal);
    ProductNonNegative(f, principal' - principal);
  }

  lemma ProductNonNegative(x: real, y: real)
    requires x >= 0.0 && y >= 0.0
    ensures x * y >= 0.0
  {
  }

  lemma ProductPositive(x: real, y: real)
    requires x > 0.0 && y > 0.0
    ensures x * y > 0.0
  {
  }

  lemma Distributes(k: real, x: real, y: real)
    ensures k * (x + y) == k * x + k * y
  {
  }

  /**
   * A worked example: one million at 5% a year from 1 January 2024 to
   * 1 July 2024 is six months and accrues to 1,025,000.
   */
  lemma SixMonthsAtFivePercent()
    ensures MonthsDifference(Date(2024, 0, 1), Date(2024, 6, 1)) == 6
    ensures EndingBalance(1000000.0, 0.05, Date(2024, 0, 1), Date(2024, 6, 1)) == 1025000.0
  {
  }

  /** A day apart across a month boundary or a year boundary still counts as a month. */
  lemma DayApartAcrossBoundaries()
    ensures MonthsDifference(Date(2024, 0, 31), Date(2024, 1, 1)) == 1
    ensures MonthsDifference(Date(2023, 11, 31), Date(2024, 0, 1)) == 1
    ensures MonthsDifference(Date(2024, 0, 1), Date(2023, 11, 1)) == 0
  {
  }
}
