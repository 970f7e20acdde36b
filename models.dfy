/**
 * The records the loan service creates: a loan and the repayments
 * scheduled against it.
 */
module Models {

  /** A calendar date, the value behind a "Y-m-d" string. */
  datatype Date = Date(year: int, month: int, day: int)

  /** Status of a loan or of one scheduled repayment; creation only ever sets DUE. */
  datatype Status = Due | Repaid

  /** One installment of a loan's schedule, as it is saved. */
  datatype ScheduledRepayment = ScheduledRepayment(
    amount: int,
    outstandingAmount: int,
    currencyCode: string,
    dueDate: Date,
    status: Status)

  /** Why creating a loan failed. */
  datatype Error = DivisionByZero

  datatype Result<T> = Ok(value: T) | Err(error: Error)

  /** A loan record together with the repayments saved on it so far. */
  class Loan {
    var userId: int
    var amount: int
    var terms: int
    var outstandingAmount: int
    var currencyCode: string
    var processedAt: Date
    var status: Status
    var scheduledRepayments: seq<ScheduledRepayment>

    /** A new loan: nothing repaid yet, status DUE, no installments saved. */
    constructor (userId: int, amount: int, terms: int, currencyCode: string, processedAt: Date)
      ensures this.userId == userId && this.amount == amount && this.terms == terms
      ensures this.currencyCode == currencyCode && this.processedAt == processedAt
      ensures outstandingAmount == amount && status == Due
      ensures scheduledRepayments == []
    {
      this.userId := userId;
      this.amount := amount;
      this.terms := terms;
      this.outstandingAmount := amount;
      this.currencyCode := currencyCode;
      this.processedAt := processedAt;
      this.status := Due;
      this.scheduledRepayments := [];
    }

    /** Saves one more installment at the end of the loan's schedule; no other field changes. */
    method Save(repayment: ScheduledRepayment)
      modifies this`scheduledRepayments
      ensures scheduledRepayments == old(scheduledRepayments) + [repayment]
    {
      scheduledRepayments := scheduledRepayments + [repayment];
    }
  }
}
