/**
 * What the schedule built by `LoanService.CreateLoan` looks like: how many
 * installments, how large each one is, when each falls due, and when the
 * installments add up to the principal.
 */
module ScheduleProperties {
  import opened Rounding
  import opened Models
  import opened LoanService

  function Sum(xs: seq<int>): int
  {
    if xs == [] then 0 else Sum(xs[..|xs| - 1]) + xs[|xs| - 1]
  }

  function Amounts(s: seq<ScheduledRepayment>): seq<int>
  {
    seq(|s|, k requires 0 <= k < |s| => s[k].amount)
  }

  function Repeat(x: int, n: nat): seq<int>
  {
    seq(n, _ => x)
  }

  /** Sum of the installment amounts of a schedule. */
  function TotalAmount(s: seq<ScheduledRepayment>): int
  {
    Sum(Amounts(s))
  }

  // ---------------------------------------------------------------------
  // Shape of the schedule

  /**
   * With a positive term count there are exactly `terms` installments; each
   * starts fully outstanding, in the loan's currency, with status DUE.
   */
  lemma ScheduleEntries(amount: int, terms: int, currencyCode: string, processedAt: Date,
                        addMonth: Date -> Date)
    requires terms >= 1
    ensures var s := Schedule(amount, terms, currencyCode, processedAt, addMonth);
      && |s| == terms
      && forall k :: 0 <= k < terms ==>
           && s[k].outstandingAmount == s[k].amount
           && s[k].currencyCode == currencyCode
           && s[k].status == Due
  {
  }

  /** A negative term count skips the loop: the loan gets no installments. */
  lemma NegativeTermsGiveNoSchedule(amount: int, terms: int, currencyCode: string, processedAt: Date,
                                    addMonth: Date -> Date)
    requires terms < 0
    ensures Schedule(amount, terms, currencyCode, processedAt, addMonth) == []
  {
  }

  /**
   * The first installment is due one month after processing, and every later
   * one one month after its predecessor: the date is advanced cumulatively.
   */
  lemma DueDatesAdvanceOneMonth(amount: int, terms: int, currencyCode: string, processedAt: Date,
                                addMonth: Date -> Date)
    requires terms >= 1
    ensures var s := Schedule(amount, terms, currencyCode, processedAt, addMonth);
      && s[0].dueDate == addMonth(processedAt)
      && forall k :: 1 <= k < terms ==> s[k].dueDate == addMonth(s[k - 1].dueDate)
  {
    var s := Schedule(amount, terms, currencyCode, processedAt, addMonth);
    assert s[0].dueDate == MonthsAfter(addMonth, processedAt, 1);
    assert MonthsAfter(addMonth, processedAt, 0) == processedAt;
    forall k | 1 <= k < terms
      ensures s[k].dueDate == addMonth(s[k - 1].dueDate)
    {
      assert s[k].dueDate == MonthsAfter(addMonth, processedAt, k + 1);
      assert s[k - 1].dueDate == MonthsAfter(addMonth, processedAt, k);
    }
  }

  /**
   * Advancing the date month by month is cumulative: m months and then n more
   * land on the same date as m + n months from the start.
   */
  lemma {:induction false} MonthsAfterAdditive(addMonth: Date -> Date, start: Date, m: nat, n: nat)
    ensures MonthsAfter(addMonth, MonthsAfter(addMonth, start, m), n) == MonthsAfter(addMonth, start, m + n)
  {
    if n > 0 {
      MonthsAfterAdditive(addMonth, start, m, n - 1);
    }
  }

  // ---------------------------------------------------------------------
  // Installment amounts

  /**
   * Installments 1 .. terms-1 are floor(amount / terms) and the last is the
   * service's rounded-up value.
   */
  lemma {:induction false} ScheduleAmounts(amount: int, terms: int, currencyCode: string, processedAt: Date,
                                           addMonth: Date -> Date)
    requires terms >= 1
    ensures Amounts(Schedule(amount, terms, currencyCode, processedAt, addMonth))
            == Repeat(Floor(amount, terms), terms - 1) + [LastInstallment(amount, terms)]
  {
    var s := Schedule(amount, terms, currencyCode, processedAt, addMonth);
    var want := Repeat(Floor(amount, terms), terms - 1) + [LastInstallment(amount, terms)];
    forall k | 0 <= k < terms
      ensures Amounts(s)[k] == want[k]
    {
      assert s[k] == Entry(amount, terms, currencyCode, processedAt, addMonth, k + 1);
    }
  }

  /**
   * The last installment is floor(amount / terms) plus ceil(2r / terms),
   * where r = amount % terms: the fractional part is counted twice, once
   * through `fraction` and once through `amount / terms`.
   */
  lemma {:induction false} LastInstallmentClosedForm(amount: int, terms: int)
    requires terms >= 1
    ensures LastInstallment(amount, terms) == amount / terms + Ceil(2 * (amount % terms), terms)
  {
    var base := Floor(amount, terms);
    var r := amount % terms;
    assert base == amount / terms;
    assert (amount - base * terms) + amount == base * terms + 2 * r;
    CeilShift(base, 2 * r, terms);
  }

  /**
   * By how much the last installment exceeds the others: 0 when the division
   * is exact, 1 when 0 < 2r <= terms, 2 when 2r > terms.
   */
  lemma {:induction false} LastInstallmentExcess(amount: int, terms: int)
    requires terms >= 1
    ensures var excess := LastInstallment(amount, terms) - amount / terms;
      var r := amount % terms;
      && (excess == 0 <==> r == 0)
      && (excess == 1 <==> 0 < 2 * r <= terms)
      && (excess == 2 <==> 2 * r > terms)
  {
    LastInstallmentClosedForm(amount, terms);
    var r := amount % terms;
    if r == 0 {
      CeilUnique(0, terms, 0);
    } else if 2 * r <= terms {
      CeilUnique(2 * r, terms, 1);
    } else {
      CeilUnique(2 * r, terms, 2);
    }
  }

  /** Every installment is at most the last one, and the last exceeds it by at most 2. */
  lemma LastIsLargest(amount: int, terms: int, i: int)
    requires 1 <= i <= terms
    ensures Installment(amount, terms, i) <= Installment(amount, terms, terms) <= Installment(amount, terms, i) + 2
  {
  }

  /** A loan over a single term is repaid in one installment of the whole amount. */
  lemma {:induction false} SingleTermIsWholeAmount(amount: int, currencyCode: string, processedAt: Date,
                                                   addMonth: Date -> Date)
    ensures Amounts(Schedule(amount, 1, currencyCode, processedAt, addMonth)) == [amount]
  {
    ScheduleAmounts(amount, 1, currencyCode, processedAt, addMonth);
    LastInstallmentExcess(amount, 1);
  }

  // ---------------------------------------------------------------------
  // Sums

  lemma {:induction false} SumRepeat(x: int, n: nat)
    ensures Sum(Repeat(x, n)) == n * x
  {
    if n > 0 {
      assert Repeat(x, n)[..n - 1] == Repeat(x, n - 1);
      SumRepeat(x, n - 1);
    }
  }

  /** n equal amounts followed by one last amount add up to n * x + last. */
  lemma {:induction false} SumRepeatThenLast(x: int, n: nat, last: int)
    ensures Sum(Repeat(x, n) + [last]) == n * x + last
  {
    var xs := Repeat(x, n) + [last];
    assert xs[..|xs| - 1] == Repeat(x, n);
    SumRepeat(x, n);
  }

  /** The schedule's total: terms - 1 base installments plus the last one. */
  lemma {:induction false} ScheduleTotal(amount: int, terms: int, currencyCode: string, processedAt: Date,
                                         addMonth: Date -> Date)
    requires terms >= 1
    ensures TotalAmount(Schedule(amount, terms, currencyCode, processedAt, addMonth))
            == (terms - 1) * (amount / terms) + LastInstallment(amount, terms)
  {
    ScheduleAmounts(amount, terms, currencyCode, processedAt, addMonth);
    SumRepeatThenLast(Floor(amount, terms), terms - 1, LastInstallment(amount, terms));
  }

  /** The arithmetic behind the shortfall: terms - 1 bases plus the last installment fall short by r - ceil(2r / terms) >= 0. */
  lemma {:induction false} Shortfall(amount: int, terms: int)
    requires terms >= 1
    ensures var total := (terms - 1) * (amount / terms) + LastInstallment(amount, terms);
      && amount - total == amount % terms - Ceil(2 * (amount % terms), terms)
      && amount % terms - Ceil(2 * (amount % terms), terms) >= 0
  {
    var base, r := amount / terms, amount % terms;
    var c := Ceil(2 * r, terms);
    LastInstallmentClosedForm(amount, terms);
    assert (terms - 1) * base + base == terms * base;
    assert amount == terms * base + r;
    CeilBelowTwo(2 * r, terms);
    if r == 1 {
      CeilUnique(2, terms, 1);
    }
  }

  /**
   * The principal minus the schedule's total is r - ceil(2r / terms): never
   * negative, so the schedule never asks for more than was lent.
   */
  lemma {:induction false} ScheduleNeverExceedsAmount(amount: int, terms: int, currencyCode: string,
                                                      processedAt: Date, addMonth: Date -> Date)
    requires terms >= 1
    ensures var total := TotalAmount(Schedule(amount, terms, currencyCode, processedAt, addMonth));
      && amount - total == amount % terms - Ceil(2 * (amount % terms), terms)
      && total <= amount
  {
    ScheduleTotal(amount, terms, currencyCode, processedAt, addMonth);
    Shortfall(amount, terms);
  }

  /**
   * The installments add up to the principal exactly when r = amount % terms
   * is 0 or 1, or r is 2 with three terms. Any other remainder leaves a
   * shortfall.
   */
  lemma {:induction false} ScheduleSumsToAmountIff(amount: int, terms: int, currencyCode: string,
                                                   processedAt: Date, addMonth: Date -> Date)
    requires terms >= 1
    ensures TotalAmount(Schedule(amount, terms, currencyCode, processedAt, addMonth)) == amount
            <==> amount % terms <= 1 || (amount % terms == 2 && terms == 3)
  {
    ScheduleNeverExceedsAmount(amount, terms, currencyCode, processedAt, addMonth);
    LastInstallmentClosedForm(amount, terms);
    LastInstallmentExcess(amount, terms);
  }

  // ---------------------------------------------------------------------
  // Worked examples

  /** 1000 over 3 terms: 333, 333, 334, summing to 1000. */
  lemma ThousandOverThree(currencyCode: string, processedAt: Date, addMonth: Date -> Date)
    ensures Amounts(Schedule(1000, 3, currencyCode, processedAt, addMonth)) == [333, 333, 334]
    ensures TotalAmount(Schedule(1000, 3, currencyCode, processedAt, addMonth)) == 1000
  {
    ScheduleAmounts(1000, 3, currencyCode, processedAt, addMonth);
    LastInstallmentClosedForm(1000, 3);
    CeilUnique(2, 3, 1);
    ScheduleSumsToAmountIff(1000, 3, currencyCode, processedAt, addMonth);
  }

  /** 100 over 4 terms: four installments of 25. */
  lemma HundredOverFour(currencyCode: string, processedAt: Date, addMonth: Date -> Date)
    ensures Amounts(Schedule(100, 4, currencyCode, processedAt, addMonth)) == [25, 25, 25, 25]
    ensures TotalAmount(Schedule(100, 4, currencyCode, processedAt, addMonth)) == 100
  {
    ScheduleAmounts(100, 4, currencyCode, processedAt, addMonth);
    LastInstallmentExcess(100, 4);
    ScheduleSumsToAmountIff(100, 4, currencyCode, processedAt, addMonth);
  }

  /** 10 over 3 terms: 3, 3, 4. */
  lemma TenOverThree(currencyCode: string, processedAt: Date, addMonth: Date -> Date)
    ensures Amounts(Schedule(10, 3, currencyCode, processedAt, addMonth)) == [3, 3, 4]
    ensures TotalAmount(Schedule(10, 3, currencyCode, processedAt, addMonth)) == 10
  {
    ScheduleAmounts(10, 3, currencyCode, processedAt, addMonth);
    LastInstallmentExcess(10, 3);
    ScheduleSumsToAmountIff(10, 3, currencyCode, processedAt, addMonth);
  }

  /** 5 over 3 terms: 1, 1, 3 — a remainder of 2 that still sums exactly. */
  lemma FiveOverThree(currencyCode: string, processedAt: Date, addMonth: Date -> Date)
    ensures Amounts(Schedule(5, 3, currencyCode, processedAt, addMonth)) == [1, 1, 3]
    ensures TotalAmount(Schedule(5, 3, currencyCode, processedAt, addMonth)) == 5
  {
    ScheduleAmounts(5, 3, currencyCode, processedAt, addMonth);
    LastInstallmentExcess(5, 3);
    ScheduleSumsToAmountIff(5, 3, currencyCode, processedAt, addMonth);
  }

  /** 7 over 4 terms: 1, 1, 1, 3, which sums to 6, not 7. */
  lemma SevenOverFourFallsShort(currencyCode: string, processedAt: Date, addMonth: Date -> Date)
    ensures Amounts(Schedule(7, 4, currencyCode, processedAt, addMonth)) == [1, 1, 1, 3]
    ensures TotalAmount(Schedule(7, 4, currencyCode, processedAt, addMonth)) == 6
  {
    ScheduleAmounts(7, 4, currencyCode, processedAt, addMonth);
    LastInstallmentExcess(7, 4);
    ScheduleTotal(7, 4, currencyCode, processedAt, addMonth);
  }

  // ---------------------------------------------------------------------
  // The last installment that absorbs the remainder

  /** A last installment that takes whatever the first terms - 1 leave of the principal. */
  function CorrectedLastInstallment(amount: int, terms: int): (last: int)
    requires terms >= 1
    ensures amount / terms <= last < amount / terms + terms
  {
    amount - (amount / terms) * (terms - 1)
  }

  /**
   * The schedule with the corrected last installment: the loop's schedule
   * unchanged except that the last entry's amount (and what is outstanding
   * on it) absorbs the remainder.
   */
  function CorrectedSchedule(amount: int, terms: int, currencyCode: string, processedAt: Date,
                             addMonth: Date -> Date): (s: seq<ScheduledRepayment>)
    requires terms >= 1
    ensures |s| == terms
    ensures forall k :: 0 <= k < terms - 1 ==> s[k] == Schedule(amount, terms, currencyCode, processedAt, addMonth)[k]
    ensures s[terms - 1].amount == CorrectedLastInstallment(amount, terms)
    ensures s[terms - 1].outstandingAmount == s[terms - 1].amount
    ensures s[terms - 1].dueDate == Schedule(amount, terms, currencyCode, processedAt, addMonth)[terms - 1].dueDate
    ensures s[terms - 1].currencyCode == currencyCode && s[terms - 1].status == Due
  {
    var loop := Schedule(amount, terms, currencyCode, processedAt, addMonth);
    var last := CorrectedLastInstallment(amount, terms);
    loop[terms - 1 := loop[terms - 1].(amount := last, outstandingAmount := last)]
  }

  /** With the corrected last installment the schedule always sums to the principal. */
  lemma {:induction false} CorrectedScheduleSumsToAmount(amount: int, terms: int, currencyCode: string,
                                                         processedAt: Date, addMonth: Date -> Date)
    requires terms >= 1
    ensures TotalAmount(CorrectedSchedule(amount, terms, currencyCode, processedAt, addMonth)) == amount
  {
    var s := CorrectedSchedule(amount, terms, currencyCode, processedAt, addMonth);
    var base, last := amount / terms, CorrectedLastInstallment(amount, terms);
    ScheduleAmounts(amount, terms, currencyCode, processedAt, addMonth);
    var loop := Schedule(amount, terms, currencyCode, processedAt, addMonth);
    assert Amounts(s) == Repeat(base, terms - 1) + [last] by {
      forall k | 0 <= k < terms - 1
        ensures Amounts(s)[k] == base
      {
        assert s[k] == loop[k];
        assert Amounts(loop)[k] == base;
      }
    }
    SumRepeatThenLast(base, terms - 1, last);
  }

  /** In the corrected schedule no installment exceeds the last one. */
  lemma {:induction false} CorrectedLastIsLargest(amount: int, terms: int, currencyCode: string,
                                                  processedAt: Date, addMonth: Date -> Date, k: int)
    requires terms >= 1 && 0 <= k < terms
    ensures var s := CorrectedSchedule(amount, terms, currencyCode, processedAt, addMonth);
      s[k].amount <= s[terms - 1].amount
  {
    var s := CorrectedSchedule(amount, terms, currencyCode, processedAt, addMonth);
    var loop := Schedule(amount, terms, currencyCode, processedAt, addMonth);
    if k < terms - 1 {
      assert s[k] == loop[k];
      assert loop[k].amount == Installment(amount, terms, k + 1);
    }
  }

  /** The loop's schedule is the corrected one exactly when its installments sum right. */
  lemma {:induction false} CorrectedAgreesExactlyWhen(amount: int, terms: int, currencyCode: string,
                                                      processedAt: Date, addMonth: Date -> Date)
    requires terms >= 1
    ensures Schedule(amount, terms, currencyCode, processedAt, addMonth)
            == CorrectedSchedule(amount, terms, currencyCode, processedAt, addMonth)
            <==> amount % terms <= 1 || (amount % terms == 2 && terms == 3)
  {
    var loop := Schedule(amount, terms, currencyCode, processedAt, addMonth);
    var s := CorrectedSchedule(amount, terms, currencyCode, processedAt, addMonth);
    LastInstallmentClosedForm(amount, terms);
    LastInstallmentExcess(amount, terms);
    assert CorrectedLastInstallment(amount, terms) == amount / terms + amount % terms;
    assert loop[terms - 1].amount == LastInstallment(amount, terms);
    if LastInstallment(amount, terms) == CorrectedLastInstallment(amount, terms) {
      assert loop[terms - 1] == s[terms - 1];
      assert loop == s;
    }
  }
}
