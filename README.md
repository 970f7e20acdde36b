# Loan creation and its installment schedule

A model of the loan service of a small backend for debit cards and
installment loans. Creating a loan (`LoanService::createLoan`) stores a loan
record whose outstanding amount is the whole principal and whose status is
DUE. It then saves one scheduled repayment per term. Each repayment falls due
one month after the previous one, starting one month after the processing
date. Every installment but the last is `floor(amount / terms)`. The last is
`ceil(fraction + amount / terms)`, where `fraction` is the fractional part of
`amount / terms`.

Modules:

- `Rounding` (`rounding.dfy`): exact floor and ceiling of a rational `n / d`.
  PHP divides as floats; every value the service rounds is a rational with
  denominator `terms`, so the model keeps its integer numerator and rounds it
  exactly.
- `Models` (`models.dfy`): the records. `ScheduledRepayment` is a value. `Loan`
  is a class, because saving a repayment appends to the loan's collection in
  place.
- `LoanService` (`loan_service.dfy`): `CreateLoan`, the imperative loop. Its
  postcondition ties the saved schedule to the specification function
  `Schedule`, built from `Installment` and `MonthsAfter`.
- `ScheduleProperties` (`schedule_properties.dfy`): what the schedule looks
  like, and when its installments add up to the principal.

With `r = amount % terms`, the last installment is
`floor(amount / terms) + ceil(2r / terms)`. The remainder is counted twice,
once through `fraction` and once through `amount / terms`. The installments
therefore sum to the principal only when `r <= 1`, or when `r = 2` and
`terms = 3` (5 over 3 terms gives 1, 1, 3). In every other case they fall
short (7 over 4 terms gives 1, 1, 1, 3, which totals 6). They never exceed the
principal. `CreateLoan` models the code as written, including this shortfall.

The installments are meant to sum to the principal, and a non-positive term
count is meant to be rejected. The code does neither. A zero term count fails
at the division. A negative term count skips the loop and leaves a loan with
no schedule. The model follows the code.

## Model

| member | source | states |
|---|---|---|
| `Rounding.Floor` | app/Services/LoanService.php:42-43 | the result is the greatest integer not above `n / d`, for a denominator of either sign |
| `Rounding.Ceil` | app/Services/LoanService.php:52 | the result is the least integer not below `n / d` |
| `LoanService.BaseInstallment` | app/Services/LoanService.php:42-43 | the amount of every installment but the last is `floor(amount / terms)`: `base * terms <= amount < base * terms + terms` (bounds reversed for a negative term count) |
| `LoanService.Installment` | app/Services/LoanService.php:50-59 | the amount saved on pass i lies in `[base, base + 2]`; it equals the base exactly when i is not the last pass or `terms` divides `amount`; with one term it is the whole amount |
| `ScheduleProperties.MonthsAfterAdditive` | app/Services/LoanService.php:40-48 | `MonthsAfter`, the processing date advanced by `addMonth()` n times over, is cumulative: m months and then n more equal m + n months |
| `LoanService.Entry` | app/Services/LoanService.php:57-65 | the repayment saved on pass i: its amount lies in `[base, base + 2]`, all of it is outstanding, it carries the loan's currency and status DUE, and it falls due one month after the date reached on pass i - 1 (the processing date, for the first pass) |
| `Models.Loan.constructor` | app/Services/LoanService.php:28-38 | a new loan copies user, amount, terms, currency and processing date; its outstanding amount is the amount, its status is DUE, and it has no installments |
| `Models.Loan.Save` | app/Services/LoanService.php:67 | saving appends the repayment to the end of the loan's schedule and changes nothing else |
| `LoanService.LastInstallment` | app/Services/LoanService.php:50-53 | the last installment, `ceil(fraction + amount / terms)`, lies between `floor(amount / terms)` and 2 more than it, and equals the floor exactly when `terms` divides `amount` |
| `LoanService.Prefix` | app/Services/LoanService.php:46-67 | the first n saved installments: there are n of them and the k-th is installment k+1 with its amount, due date, currency and DUE status |
| `LoanService.Schedule` | app/Services/LoanService.php:46-67 | the saved collection: `terms` entries for positive terms, none for negative terms, and entry k is the repayment of pass k+1 |
| `LoanService.CreateLoan` | app/Services/LoanService.php:24-71 | zero terms fails with a division error; otherwise a fresh loan with the given fields, outstanding amount equal to the principal and status DUE, whose saved installments are exactly `Schedule(...)` (none for negative terms) |
| `ScheduleProperties.ScheduleEntries` | app/Services/LoanService.php:46-65 | for terms >= 1 there are exactly `terms` installments; each one's outstanding amount equals its amount, its currency is the loan's, and its status is DUE |
| `ScheduleProperties.NegativeTermsGiveNoSchedule` | app/Services/LoanService.php:46 | a negative term count yields an empty schedule |
| `ScheduleProperties.DueDatesAdvanceOneMonth` | app/Services/LoanService.php:40-48 | the first due date is one month after processing, and each later one is one month after its predecessor |
| `ScheduleProperties.ScheduleAmounts` | app/Services/LoanService.php:42-59 | the amounts are `terms - 1` copies of `floor(amount / terms)` followed by the last installment |
| `ScheduleProperties.LastInstallmentClosedForm` | app/Services/LoanService.php:42-53 | the last installment is `amount / terms + ceil(2r / terms)` with `r = amount % terms` |
| `ScheduleProperties.LastInstallmentExcess` | app/Services/LoanService.php:50-53 | the last installment exceeds the others by 0 iff r = 0, by 1 iff 0 < 2r <= terms, and by 2 iff 2r > terms |
| `ScheduleProperties.LastIsLargest` | app/Services/LoanService.php:42-53 | no installment exceeds the last one, and the last exceeds any other by at most 2 |
| `ScheduleProperties.SingleTermIsWholeAmount` | app/Services/LoanService.php:42-53 | with one term the schedule is a single installment of the whole amount |
| `ScheduleProperties.ScheduleTotal` | app/Services/LoanService.php:42-67 | the installments total `(terms - 1) * floor(amount / terms)` plus the last installment |
| `ScheduleProperties.ScheduleNeverExceedsAmount` | app/Services/LoanService.php:42-53 | principal minus total is `r - ceil(2r / terms)`, and the total never exceeds the principal |
| `ScheduleProperties.ScheduleSumsToAmountIff` | app/Services/LoanService.php:42-53 | the installments sum to the principal iff `r <= 1` or (`r = 2` and `terms = 3`) |
| `ScheduleProperties.ThousandOverThree` | app/Services/LoanService.php:42-53 | 1000 over 3 terms gives 333, 333, 334, totalling 1000 |
| `ScheduleProperties.HundredOverFour` | app/Services/LoanService.php:42-53 | 100 over 4 terms gives four installments of 25 |
| `ScheduleProperties.TenOverThree` | app/Services/LoanService.php:42-53 | 10 over 3 terms gives 3, 3, 4 |
| `ScheduleProperties.FiveOverThree` | app/Services/LoanService.php:42-53 | 5 over 3 terms gives 1, 1, 3, which still totals 5 |
| `ScheduleProperties.SevenOverFourFallsShort` | app/Services/LoanService.php:42-53 | 7 over 4 terms gives 1, 1, 1, 3, which totals 6: the sum is not the principal in general |
| `ScheduleProperties.CorrectedLastInstallment` | app/Services/LoanService.php:50-53 | a last installment that absorbs the whole remainder lies in `[floor(amount / terms), floor(amount / terms) + terms)` |
| `ScheduleProperties.CorrectedSchedule` | app/Services/LoanService.php:46-67 | the loop's schedule with only the last entry changed: its amount and outstanding amount become the remainder-absorbing last installment, and its date, currency and status stay |
| `ScheduleProperties.CorrectedScheduleSumsToAmount` | app/Services/LoanService.php:42-53 | the corrected schedule's installments always sum to the principal |
| `ScheduleProperties.CorrectedLastIsLargest` | app/Services/LoanService.php:42-53 | in the corrected schedule no installment exceeds the last one |
| `ScheduleProperties.CorrectedAgreesExactlyWhen` | app/Services/LoanService.php:50-53 | the loop's schedule equals the corrected one exactly when `r <= 1` or (`r = 2` and `terms = 3`), the same condition under which it sums correctly |

## Left out

- `repayLoan` (app/Services/LoanService.php:83-86): its body is empty, so there is no behaviour to model. Any allocation of a payment across installments would be invented.
- Persistence: `Loan::create` and `scheduledRepayments()->save` become the `Loan` constructor and `Loan.Save`. The database, record ids and transactions are not modelled. Nor is the fact that with zero terms the loan row is already stored when the division fails.
- Dates: `Carbon::parse`, `addMonth` and `format("Y-m-d")` belong to a calendar library that is not part of this model. A date is a `Date` value, and the one-month advance is the function parameter `addMonth`, applied cumulatively. Month-end overflow rules are therefore not modelled.
- Floating point: PHP's `/`, `floor` and `ceil` work on IEEE-754 doubles. The model computes the same values exactly with integers. The double computation can differ from the exact one once the amount nears 2^52, whatever the term count. Two examples: 2^53 - 3 over 3 terms, and 4811000107259651 over 286751073 terms. In both, the rounded quotient ends in exactly .5, so PHP's last installment is one less than the model's. Cent amounts in practice are far below this.
- Status values other than DUE are never set by loan creation. `Status.Repaid` exists only to name the type's other state.
- tests/Feature/DebitCardControllerTest.php: HTTP, authentication and database tests of a debit-card controller that is not part of this model.

## Findings

| source | as written | input that shows it | evidently intended | confidence | as-written member | corrected member |
|---|---|---|---|---|---|---|
| app/Services/LoanService.php:50-53 | the last installment is `ceil(fraction + amount / terms)`, which counts the fractional part twice | amount 7, terms 4: installments 1, 1, 1, 3 total 6, not 7 | the last installment absorbs the remainder, `amount - floor(amount / terms) * (terms - 1)`, so the installments sum to the principal | high; not executed | `ScheduleProperties.SevenOverFourFallsShort` | `ScheduleProperties.CorrectedScheduleSumsToAmount` |
