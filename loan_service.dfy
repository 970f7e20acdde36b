/**
 * Loan creation: the loan record and its schedule of monthly installments.
 *
 * PHP divides `amount / terms` as a float and rounds it with `floor` and
 * `ceil`. Every such value is a rational with denominator `terms`; here it
 * is held as its integer numerator and rounded exactly by `Rounding`.
 */
module LoanService {
  import opened Rounding
  import opened Models

  /** The amount of every installment but the last: floor(amount / terms). */
  function BaseInstallment(amount: int, terms: int): (base: int)
    requires terms != 0
    ensures terms > 0 ==> base * terms <= amount < base * terms + terms
    ensures terms < 0 ==> base * terms >= amount > base * terms + terms
  {
    Floor(amount, terms)
  }

  /**
   * The last installment as the service computes it:
   * ceil(fraction + amount / terms), where fraction = amount / terms - floor(amount / terms).
   * Over the denominator `terms`, fraction has numerator amount - base * terms.
   */
  function LastInstallment(amount: int, terms: int): (last: int)
    requires terms >= 1
    ensures BaseInstallment(amount, terms) <= last <= BaseInstallment(amount, terms) + 2
    ensures last == BaseInstallment(amount, terms) <==> BaseInstallment(amount, terms) * terms == amount
  {
    var base := BaseInstallment(amount, terms);
    var fraction := amount - base * terms;
    CeilShift(base, 2 * fraction, terms);
    CeilBelowTwo(2 * fraction, terms);
    Ceil(fraction + amount, terms)
  }

  /** The amount of installment i, counted from 1 as the loop does. */
  function Installment(amount: int, terms: int, i: int): (a: int)
    requires 1 <= i <= terms
    ensures BaseInstallment(amount, terms) <= a <= BaseInstallment(amount, terms) + 2
    ensures a == BaseInstallment(amount, terms) <==> i < terms || BaseInstallment(amount, terms) * terms == amount
    ensures terms == 1 ==> a == amount
  {
    if i == terms then LastInstallment(amount, terms) else BaseInstallment(amount, terms)
  }

  /** The date reached from `start` by advancing it one month, n times over. */
  function MonthsAfter(addMonth: Date -> Date, start: Date, n: nat): Date
  {
    if n == 0 then start else addMonth(MonthsAfter(addMonth, start, n - 1))
  }

  /** Installment i as it is saved: nothing paid yet, status DUE, due i months after processing. */
  function Entry(amount: int, terms: int, currencyCode: string, processedAt: Date,
                 addMonth: Date -> Date, i: int): (e: ScheduledRepayment)
    requires 1 <= i <= terms
    ensures BaseInstallment(amount, terms) <= e.amount <= BaseInstallment(amount, terms) + 2
    ensures e.outstandingAmount == e.amount && e.currencyCode == currencyCode && e.status == Due
    ensures e.dueDate == addMonth(MonthsAfter(addMonth, processedAt, i - 1))
  {
    var a := Installment(amount, terms, i);
    ScheduledRepayment(a, a, currencyCode, MonthsAfter(addMonth, processedAt, i), Due)
  }

  /** The first n installments of the schedule, in the order the loop saves them. */
  function Prefix(amount: int, terms: int, currencyCode: string, processedAt: Date,
                  addMonth: Date -> Date, n: nat): (s: seq<ScheduledRepayment>)
    requires n == 0 || n <= terms
    ensures |s| == n
    ensures forall k :: 0 <= k < n ==> s[k] == Entry(amount, terms, currencyCode, processedAt, addMonth, k + 1)
  {
    if n == 0 then []
    else Prefix(amount, terms, currencyCode, processedAt, addMonth, n - 1)
         + [Entry(amount, terms, currencyCode, processedAt, addMonth, n)]
  }

  /** The whole schedule: `terms` installments, or none when `terms` is negative. */
  function Schedule(amount: int, terms: int, currencyCode: string, processedAt: Date,
                    addMonth: Date -> Date): (s: seq<ScheduledRepayment>)
    requires terms != 0
    ensures terms > 0 ==> |s| == terms
    ensures terms < 0 ==> s == []
    ensures forall k :: 0 <= k < |s| ==> s[k] == Entry(amount, terms, currencyCode, processedAt, addMonth, k + 1)
  {
    Prefix(amount, terms, currencyCode, processedAt, addMonth, if terms < 0 then 0 else terms)
  }

  /**
   * Creates the loan record, then saves one scheduled repayment per term.
   * `addMonth` stands for the calendar library's one-month advance.
   * A zero term count fails at the division, after the loan record exists.
   */
  method CreateLoan(userId: int, amount: int, currencyCode: string, terms: int,
                    processedAt: Date, addMonth: Date -> Date)
    returns (result: Result<Loan>)
    ensures terms == 0 ==> result == Err(DivisionByZero)
    ensures terms != 0 ==> result.Ok? && fresh(result.value)
    ensures terms != 0 ==>
      var loan := result.value;
      && loan.userId == userId && loan.amount == amount && loan.terms == terms
      && loan.currencyCode == currencyCode && loan.processedAt == processedAt
      && loan.outstandingAmount == amount && loan.status == Due
      && loan.scheduledRepayments == Schedule(amount, terms, currencyCode, processedAt, addMonth)
  {
    var loan := new Loan(userId, amount, terms, currencyCode, processedAt);
    var processedDate := processedAt;
    if terms == 0 {
      return Err(DivisionByZero);
    }
    // Numerators over the denominator `terms`: raw is amount / terms.
    var raw := amount;
    var repaymentAmount := Floor(raw, terms);
    var fraction := 0;
    var i := 1;
    while i <= terms
      invariant terms < 0 ==> i == 1
      invariant terms > 0 ==> 1 <= i <= terms + 1
      invariant processedDate == MonthsAfter(addMonth, processedAt, i - 1)
      invariant i <= terms ==> repaymentAmount == BaseInstallment(amount, terms) && fraction == 0
      invariant loan.scheduledRepayments == Prefix(amount, terms, currencyCode, processedAt, addMonth, i - 1)
      invariant loan.userId == userId && loan.amount == amount && loan.terms == terms
      invariant loan.currencyCode == currencyCode && loan.processedAt == processedAt
      invariant loan.outstandingAmount == amount && loan.status == Due
    {
      processedDate := addMonth(processedDate);
      var dueDate := processedDate;
      if i == terms {
        fraction := fraction + (raw - repaymentAmount * terms);
        repaymentAmount := Ceil(fraction + raw, terms);
      }
      var scheduled := ScheduledRepayment(repaymentAmount, repaymentAmount, currencyCode, dueDate, Due);
      loan.Save(scheduled);
      i := i + 1;
    }
    return Ok(loan);
  }
}
