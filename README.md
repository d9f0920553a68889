# Loan repayment plan: a verified Dafny model

The service takes a loan request with four fields: loan amount, nominal annual rate, duration in months and start date. It validates the request and returns a monthly repayment plan. This project models the two parts of `server.go` that hold logic, and proves properties of them:

- **Request validation** (`Payload.validateRequest`). The validator first checks that each of the four fields is present. If any is missing, it returns only those "Required Field Missing" entries. Otherwise it runs the three parsers and records one message for each field that fails to parse. It ends with a compound "all negative" check. The model proves that this check can never fire.
- **Plan generation** (`generatePaymentPlan`). This is the amortization recurrence. Each month's entry is built from the previous entry's rounded values:
  - the month starts with the balance the previous month left;
  - interest is computed under the 30/360 convention;
  - the payment is the level annuity, repeated from month to month;
  - the last month pays a closing (balloon) amount instead;
  - there is a guard for interest that exceeds the balance;
  - the date advances one calendar month at a time, using Go's day normalisation.

Units: money is a whole number of cents (`int`). The nominal rate is a whole number of basis points, i.e. hundredths of a percentage point, so 5.0 percent is `500`. `RoundFloat` becomes `Money.RoundHalfAway`: it rounds a rational number of cents to the nearest cent, with halves going away from zero. On a value that is already whole cents it is the identity (`Money.RoundExact`). So the `RoundFloat` calls on sums and differences of cents (server.go:104-105, 116, 121-132) disappear from the model. The `RoundFloat` calls on the parsed loan amount and on the annuity (server.go:101, 103) are folded into the amount parser and into the annuity input. Within the plan, only the interest division rounds.

Modules:

- `Wrappers`: `Option`.
- `Arith`: small integer facts.
- `Money`: rounding.
- `Calendar`: dates, `AddMonth`, day numbers.
- `Validation`: the validator.
- `PaymentPlan`: the recurrence, the imperative generator and the lemmas about the plan.

`PaymentPlan.Plan` is the plan written as a fold over the months: `FirstEntry`, then `NextEntry` applied to each previous entry. `PaymentPlan.GeneratePaymentPlan` is the loop from the source, and is proved equal to that fold. The lemmas state what the plan guarantees.

Behaviour of the code that a reader might not expect, and that the model follows:

- Validation does not collect every failure in one pass. Any missing field makes the validator return early, so a missing field suppresses all parse errors. Four empty fields yield four "missing" entries and no compound entry; the compound entry never appears at all (`Validation.ValidateRequest`).
- The last entry does not always end at 0.00. With two or more months, it does so exactly when the last month's interest does not exceed its balance (`PaymentPlan.PlanClosingPayment`). That holds for any rate up to 1200 percent when the last month opens with a non-negative balance (`PaymentPlan.PlanClosesLoan`). With one month, the only entry pays the annuity and has no closing payment (`PaymentPlan.PlanSingleMonth`).
- `generatePaymentPlan` always emits the first entry, so for a duration of 0 or less the plan still has one entry (`PaymentPlan.Plan`, `PaymentPlan.PlanSingleMonth`).

## Model

| member | source | states |
|---|---|---|
| Money.RoundHalfAway | server.go:43-46 | RoundFloat on a rational number of cents num/den; the result never has the opposite sign of num (its rounding is stated by RoundHalfAwayNearest) |
| Money.RoundHalfAwayNearest | server.go:43-46 | RoundFloat as cents: the result is a nearest integer to num/den; of two equally near integers it is the one farther from zero; it never has the opposite sign of num |
| Money.RoundExact | server.go:101-105 | rounding a value that is already whole cents returns it unchanged, so RoundFloat on sums and differences of cents is the identity |
| Money.RoundOdd | server.go:43-46 | rounding is symmetric about zero: round(-x) == -round(x) |
| Validation.Add | server.go:53 | url.Values.Add: appends the message under the key and creates the key if it is new; every other key keeps its messages |
| Validation.ValidateRequest | server.go:49-85 | if any field is missing: exactly one "Required Field Missing" entry per missing field, nothing else, and zero amount, zero rate and zero time. If all fields are present: StartDate, NominalRate and LoanAmount each get exactly their own parse message iff their parse fails; Duration is absent; the returned values are the parsed ones, or zero. The compound "negative numbers" key never appears. The error set is empty iff all four fields are present and all three parse. Given a time parser that yields only real dates, the returned start date is one the plan generator accepts |
| Calendar.Midnight | server.go:92-93 | the calendar day of the parsed time read in its own zone, with the time of day dropped; it stands for midnight UTC of that day |
| Calendar.AddMonth | server.go:113 | one AddDate(0,1,0) step gives a valid date; a start day of 28 or less is kept, and only the month advances, rolling December over into January of the next year |
| Calendar.AddMonthDayNumber | server.go:113 | the result lies d.day - 1 days after the first of the next month, which is Go's normalisation of days the month lacks (in a common year January 31 becomes March 3) |
| Calendar.DayNumberInjective | server.go:113 | distinct valid dates have distinct day numbers, so AddMonthDayNumber determines the result uniquely |
| Calendar.AddMonthsKeepsDay | server.go:110-113 | from a day of 28 or less, k AddMonth steps reach the same day exactly k months later by month arithmetic, with year rollover |
| PaymentPlan.Interest | server.go:117 | a month's 30/360 interest on a balance, rounded to the cent (also line 102); a zero balance or a zero rate gives no interest |
| PaymentPlan.InterestNearest | server.go:117 | a month's interest is the exact 30/360 interest rate*30*balance/360 rounded to the nearest cent |
| PaymentPlan.InterestBounded | server.go:126-130 | for a rate from 0 to 1200 percent and a non-negative balance, the interest lies between 0 and the balance, so the interest-exceeds-principal guard does not fire |
| PaymentPlan.FirstEntry | server.go:101-107 | the first month: the payment splits into principal and interest, and the month leaves loan - annuity + interest outstanding |
| PaymentPlan.NextEntry | server.go:113-133 | one later month: it opens on the previous remaining balance, on a valid date; without the guard its payment splits into principal and interest; as the last month it ends at 0 unless the interest exceeds the balance, and then at balance - interest |
| PaymentPlan.PlanPrefix | server.go:107-133 | the first n entries as a fold of NextEntry after FirstEntry: exactly n entries, each on a valid date |
| PaymentPlan.Plan | server.go:107-110 | the plan has max(duration, 1) entries |
| PaymentPlan.GeneratePaymentPlan | server.go:88-137 | the loop that appends one entry per month, reading back the previous entry, returns exactly the fold Plan |
| PaymentPlan.PrefixStable | server.go:133 | appending later months never changes an entry already produced |
| PaymentPlan.PlanRecurrence | server.go:110-134 | entry 0 is FirstEntry; each later entry i is NextEntry of entry i-1, and it is the last month exactly when i == duration-1 |
| PaymentPlan.PlanFirstEntry | server.go:92-107 | entry 0 falls on the start day at midnight; its initial is the loan amount, its payment the annuity, its interest the 30/360 interest on the loan, and its principal the payment less the interest |
| PaymentPlan.PlanBalance | server.go:132 | every entry has remaining == initial - principal (line 105 for the first entry) |
| PaymentPlan.PlanChain | server.go:116 | for every i >= 1, initial[i] == remaining[i-1] |
| PaymentPlan.PlanInterest | server.go:117-130 | every entry's interest is the 30/360 interest on its own initial balance. From the second entry on, principal is payment - interest, or payment - initial when the interest exceeds the initial balance |
| PaymentPlan.PlanLevelPayment | server.go:103-124 | every entry except the last pays the annuity |
| PaymentPlan.PlanClosingPayment | server.go:120-132 | for duration >= 2 the last payment is initial + interest. If interest <= initial, principal == initial and remaining == 0. Otherwise principal == payment - initial and remaining == initial - interest. The last remaining is 0 iff interest <= initial |
| PaymentPlan.InterestNegativeRate | server.go:117 | at a negative rate, which validation lets through, the interest on a non-negative balance is at most 0 |
| PaymentPlan.PlanClosesLoan | server.go:120-132 | for duration >= 2, any rate up to 1200 percent and a last month that starts with a non-negative balance, the plan ends with nothing outstanding |
| PaymentPlan.PlanSingleMonth | server.go:101-110 | for a duration of 1 or less, there is one entry: it pays the annuity, with no closing payment, and leaves loan - annuity + interest |
| PaymentPlan.PlanDates | server.go:92-114 | entry 0 is the start day at midnight; each later entry is exactly one AddMonth after the previous one, so entry i is i AddMonth steps after the start |
| PaymentPlan.PlanDatesKeepDay | server.go:113 | from a start day of 28 or less, entry i falls on the same day i calendar months later, with December rolling over into January |
| PaymentPlan.WorkedExample | server_test.go:22-27 | 1000.00 at 5.0 percent over 4 months from 2018-01-01T00:00:01Z with annuity 252.61 yields exactly the four expected rows: interest 4.17, 3.13, 2.09, 1.05, the last remaining 0, dates on the first of January to April 2018 |

## Left out

- `generatePlanHandler` and `main` (server.go:139-174) are left out: HTTP transport, JSON decoding and encoding, logging and flag parsing are I/O.
- The annuity formula at server.go:96-98 uses `math.Pow` on floating point. It is left out, and the annuity, in cents, is an input of `PaymentPlan.GeneratePaymentPlan`. At a rate of 0 the formula divides 0 by 0, giving NaN. Every payment is then NaN, and encoding the plan as JSON fails, so the handler answers with an error. A 0 percent rate passes validation, but an integer annuity cannot express NaN, so this case is not modelled.
- Floating-point arithmetic in general is left out. `RoundFloat`'s `Sprintf("%.2f")`/`ParseFloat` round trip rounds the binary value of a float64. The model rounds the exact rational value instead, with halves away from zero. Results can differ where a float64 sits just beside a half cent. They also differ on exact ties: Go rounds an exactly representable half cent to even (0.125 → 0.12); the model rounds it away from zero. For example, a loan of 3 at a rate of 50 gives Go an interest of 0.12 and the model 0.13.
- `time.Parse(time.RFC3339, …)` and `strconv.ParseFloat` are foreign calls. They are the function-valued fields of `Validation.Parsers`, and `None` stands for a parse error.
  - The amount and rate parsers combine the float parse with the scaling to cents and to basis points. The amount parser also stands for the `RoundFloat` at server.go:101.
  - Validation.Parsers: a rate that is not a whole number of basis points (such as "4.125") is not modelled. Go uses the parsed float unrounded, so any choice of rate parser differs from Go on such a rate.
  - When a parse fails, the model returns 0 or the zero time. A ParseFloat range error, which returns ±Inf, is not modelled. Nor are the non-finite values ParseFloat accepts without an error ("NaN", "Inf", "infinity"): a loan amount of "NaN" passes validation, because every comparison at server.go:81 is false on NaN, and every value of the plan is then NaN, so encoding the plan fails and the handler answers with an error.
- The compound check at server.go:81 compares the float values. The model compares cents and basis points. Both have the same sign except for amounts below half a cent. This cannot matter, because the check is unreachable.
- The validator's error set is keyed by `Validation.Key`, a datatype with one constructor per Go key string. `Key.Name` gives each key's text.
- RFC 3339 formatting of entry dates (server.go:106, 114) is left out. An entry's date is a `Calendar.Date` and stands for midnight UTC of that day.
- `Calendar.Timestamp` carries the fields of the parsed time in its own zone. `startDate.Date()` reads those fields. Zone conversion is left out.
- Go's fixed-width `int` and the year range of `time.Time` are left out: integers are unbounded.
- `PaymentPlan.GeneratePaymentPlan` requires the start date to be a real calendar date. Every Go `time.Time` is one. The model states this as `Parsers.TimesValid`, which `Validation.ValidateRequest` requires of its time parser.
- PaymentPlan.PlanClosesLoan: the premise that the last month opens with a non-negative balance is what the left-out annuity formula would have to guarantee, so "the final remaining balance is 0.00 for every valid request" is proved only under that premise. Rates above 1200 percent also pass validation and need not close the loan: the guard fires and the last entry leaves initial - interest.
- The test harness at server_test.go:30-59 is left out. Only its expected data at lines 22-27 is used.
