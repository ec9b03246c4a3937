# No-cost EMI calculator, modelled in Dafny

The page computes a "no-cost EMI" loan schedule in its `calculateEMI`
function (`script.js`). It validates the loan amount, the annual rate and
the tenure, turns the percentage rate into a monthly rate, and takes the
installment from the annuity formula. It then walks the months: interest
on the balance, principal, 18% GST on the interest, and the processing fee
with its GST in month 1 only. Last come the totals that the results panel
shows. Two string helpers sit beside it: `formatIndianNumber` writes a
numeric string with Indian digit grouping (`12,34,567.89`) and
`unformatNumber` removes its commas.

The model has two modules.

- `Emi` (`emi.dfy`):
  - the inputs, rows, summary and outcome as datatypes;
  - validation (`Validate`), the monthly rate, `Math.pow` (`Pow`) and the installment (`BaseEMI`);
  - one month of the table (`MonthRow`), the balance after `k` months (`Outstanding`), the first `k` rows (`Rows`), the running sums and the totals (`Totals`);
  - the whole calculation as a function (`Calculate`, through `Summarize`);
  - the page's loop as an imperative method, `CalculateEMI`, proved equal to `Calculate`.

  The predicate `IsSchedule` says what makes a sequence of rows an amortisation schedule:
  - months numbered from 1;
  - the first month opens with the loan;
  - each later month opens with the previous balance less the previous principal;
  - the row identities hold in every row.

  Lemmas about schedules in general, and about what the calculation computes, rest on `IsSchedule`. Arithmetic is exact (`real`).
- `IndianFormat` (`indian_format.dfy`):
  - `String.prototype.split` with a one-character separator (`Split`, `Join`);
  - the numeric strings for which `isNaN` is false (`IsNumeral`), taken apart by `Parse` into a `Numeral`;
  - the regular expression `/\B(?=(\d{2})+(?!\d))/g` modelled position by position (`InsertCommas`), and proved equal on digit strings to an independent right-to-left grouping (`PairGroups`, `IndianGroups`);
  - the formatter as written (`FormatIndianNumber`), a corrected formatter (`FormatIndianNumberCorrected`, see Findings), and `UnformatNumber`.

Points where the code does something a reader might not expect, which the model follows:
- A zero annual rate passes validation. The formula then divides 0 by 0, and the code has no fallback to `loan / tenure`. The model returns `Indeterminate` for it.
- The effective amount is the total amount (`script.js:142`), not the total less the merchant discount.
- The processing fee is not validated.
- The code has no tenure comparison table.
- With exact arithmetic, the total interest the calculation reports for 1,00,000 at 12% over 12 months with a fee of 1,000 lies between 6,618.54 and 6,618.55 (`WorkedExampleTotals`).

## Model

| member | source | states |
|---|---|---|
| Emi.Validate | script.js:83-94 | No error exactly when loan > 0, rate >= 0 and tenure > 0; otherwise the first failing check in the code's order: loan amount, then rate, then tenure. The fee is never checked. |
| Emi.PowAboveOne | script.js:101 | `(1 + r)^N > 1` for `r > 0` and `N > 0`, so the formula's denominator `1 - (1 + r)^-N` is never zero. |
| Emi.MonthRowIdentities | script.js:113-132 | A row built for a month carries that month and opening balance, and its `MonthRowFacts` hold: interest = balance × rate, interest + principal = EMI, GST = 18% of interest, the fee and its GST in month 1 only, payment = EMI + GST + fee + GST on fee. |
| Emi.CalculateEMI | script.js:75-142 | The imperative calculation (validation, rate, installment, month loop, totals) returns exactly `Calculate(input)`. The loop keeps the schedule equal to the first `month - 1` rows, with the balance and the running interest and GST totals matching them. |
| Emi.ScheduleSnoc | script.js:112-137 | A row with the next month number, opening with the remaining balance and satisfying the row identities, extends a schedule to a schedule. The new remaining balance is its balance less its principal. |
| Emi.SchedulePrefix | script.js:112-137 | Dropping the last month of a schedule leaves a schedule. |
| Emi.RowsAreSchedule | script.js:107-137 | The first `k` rows are `k` months forming a schedule of the loan. Their remaining balance is `Outstanding` after `k` months. |
| Emi.ClosedFormStep | script.js:113-136 | One month of the closed form for the balance (ring arithmetic). |
| Emi.OutstandingClosedForm | script.js:107-137 | Balance after `k` months × rate = (loan × rate − EMI) × (1 + r)^k + EMI. |
| Emi.PaysOff | script.js:101-136 | With the annuity installment and exact arithmetic, the balance after `tenure` months is exactly 0. |
| Emi.PrincipalTelescopes | script.js:114-136 | In any schedule the principal parts add up to the loan less the remaining balance. |
| Emi.InterestAndPrincipal | script.js:113-114 | In any schedule total interest + total principal = one installment per month. |
| Emi.GSTIsRateOfInterest | script.js:115-135 | In any schedule total GST on interest = 18% of total interest. |
| Emi.PaymentsAddUp | script.js:117-121 | In any schedule the monthly payments add up to the installments, plus the GST on interest, plus the fee and its GST once. |
| Emi.OutcomeKinds | script.js:83-101 | Rejected exactly when one of the three checks fails, with the error `Validate` names. Indeterminate (0/0) exactly for valid input with a zero rate. |
| Emi.ScheduleShape | script.js:107-137 | Valid input with a positive rate computes `tenure` rows that form a schedule of the loan, under the monthly rate and the base EMI. |
| Emi.FeeOnlyInFirstMonth | script.js:117-119 | Month 1 carries the fee and 18% GST on it; every later month carries 0 for both. |
| Emi.BalanceReachesZero | script.js:101-137 | The last row's balance less its principal is 0, and the principal parts add up to the loan. |
| Emi.TotalsOfSchedule | script.js:103-142 | For any schedule: the totals are the row sums; total GST = 18% of total interest; interest plus GST = 1.18 × interest; the fee total and 18% GST on it; merchant discount = total amount − loan; effective amount = total amount. |
| Emi.PaidOffTotals | script.js:139-142 | For a schedule that pays the loan off: total interest = installments − loan, and the effective amount equals the sum of the monthly payments. |
| Emi.TotalsMatchSchedule | script.js:103-142 | The calculation's totals are the sums of its rows, with GST at 18% of interest and of fee, merchant discount = total amount − loan, and effective amount = total amount. |
| Emi.TotalsFromInstallments | script.js:101-142 | The calculation's total interest = one base EMI per row − loan, and its effective amount equals the sum of its monthly payments. |
| Emi.WorkedExample | script.js:97-101 | 12% a year is 1% a month. On 1,00,000 over 12 months the EMI lies between 8,884.87 and 8,884.88, and 12 EMIs less the loan lies between 6,618.54 and 6,618.55. |
| Emi.WorkedExampleTotals | script.js:96-142 | For 1,00,000 at 12% over 12 months with a fee of 1,000 the calculation computes twelve rows under that EMI, month 1 carries the fee of 1,000 and GST of 180 on it, and the total interest lies between 6,618.54 and 6,618.55. |
| IndianFormat.SplitJoin | script.js:14 | Joining the pieces of `s.split(sep)` with `sep` gives `s`. |
| IndianFormat.SplitPieces | script.js:14 | No piece of `s.split(sep)` contains `sep`. |
| IndianFormat.SplitWithout | script.js:14 | A string without the separator splits into itself alone. |
| IndianFormat.SplitAround | script.js:14 | Splitting `a + sep + b` gives the pieces of `a` followed by the pieces of `b`. |
| IndianFormat.SignPrefixParts | script.js:11 | The sign prefix is empty, `-` or `+`, and the string is the sign followed by the rest. |
| IndianFormat.Parse | script.js:11 | Every numeric string is the text of a well-formed numeral: sign, integer digits, optional point, fraction digits. |
| IndianFormat.NumeralPieces | script.js:11-14 | A numeral is its sign, then the piece before the point, then the point and the fraction when there is one. |
| IndianFormat.TextIsNumeral | script.js:11 | The text of every well-formed numeral passes the `isNaN` test. |
| IndianFormat.TextSplit | script.js:14 | The text of a numeral splits at the point into sign-and-integer digits and, if a point is written, the fraction. |
| IndianFormat.TextParts | script.js:14-16 | The formatter's integer part of a numeral's text is its sign and integer digits. Its decimal part is `.` + fraction when digits follow the point, and otherwise empty. |
| IndianFormat.InsertCommasDigits | script.js:26 | On a digit string the regex replacement puts a comma before every pair of digits counted from the right. |
| IndianFormat.InsertCommasSigned | script.js:26 | After a leading sign the regex inserts no comma at position 0 or 1, and groups the digits as if the sign were not there. |
| IndianFormat.LeadThenEvenPairs | script.js:26 | The first digit, followed by a comma before each even-length digit tail, is the right-to-left pair grouping. |
| IndianFormat.GroupDigits | script.js:19-26 | On digits the formatter's integer grouping is the Indian grouping: the last three together, pairs before them. |
| IndianFormat.GroupSignedThree | script.js:19-26 | A sign with exactly three digits is grouped as sign, comma, digits. |
| IndianFormat.GroupSignedLong | script.js:19-26 | A sign with more than three digits keeps the sign and groups the digits the Indian way. |
| IndianFormat.GroupSigned | script.js:19-26 | Sign plus digits: a comma right after the sign when there are exactly three digits, the Indian grouping after the sign otherwise. |
| IndianFormat.GroupingShape | script.js:23-26 | The comma-separated groups of the Indian grouping spell the digits in order. The last group has at most three digits; with more than one group it has exactly three, the first has one or two, and every middle group has two. |
| IndianFormat.FormatOfText | script.js:10-28 | The formatter on a numeral's text gives the grouped integer part followed by the decimal part. |
| IndianFormat.FormatCorrectedNumeral | script.js:10-28 | Corrected formatter: sign, Indian grouping of the integer digits, then the decimal part. |
| IndianFormat.GroupOfNumeral | script.js:19-26 | Grouping of a numeral's sign and integer digits, with the signed three-digit case apart. |
| IndianFormat.FormatAsWrittenNumeral | script.js:10-28 | The formatter as written gives the same as the corrected one, except for a sign with exactly three integer digits, where it writes `sign,ddd`. |
| IndianFormat.FormattersAgree | script.js:19-26 | The two formatters agree exactly when it is not the case that a sign comes with exactly three integer digits. |
| IndianFormat.SignedThreeDigitComma | script.js:23-26 | `formatIndianNumber("-123")` is `"-,123"`; the corrected formatter gives `"-123"`. |
| IndianFormat.FormatEmptyExactlyWhenNotNumeral | script.js:11 | Both formatters return `""` exactly when the input is empty or not numeric. |
| IndianFormat.ShortIntegerUnchanged | script.js:19-21 | A numeral with at most three characters before the point, and not ending in a bare point, is returned unchanged by both formatters. |
| IndianFormat.UnformatConcat | script.js:31-33 | Removing commas distributes over concatenation. |
| IndianFormat.UnformatThree | script.js:31-33 | Removing commas distributes over a concatenation of three strings. |
| IndianFormat.UnformatCommaFree | script.js:31-33 | A string without commas is unchanged. |
| IndianFormat.UnformatComma | script.js:31-33 | The single comma becomes the empty string. |
| IndianFormat.UnformatAroundComma | script.js:31-33 | `a + "," + b`, with `b` comma-free, becomes `a` without commas followed by `b`. |
| IndianFormat.UnformatNoCommas | script.js:31-33 | The result contains no comma. |
| IndianFormat.UnformatIdempotent | script.js:31-33 | Removing commas twice is the same as removing them once. |
| IndianFormat.UnformatKeepsOthers | script.js:31-33 | Every character other than a comma occurs as often in the result as in the input. |
| IndianFormat.UnformatPairGroups | script.js:26-33 | Removing the commas of a pair grouping gives the digits back. |
| IndianFormat.UnformatIndianGroups | script.js:23-33 | Removing the commas of an Indian grouping gives the digits back. |
| IndianFormat.UnformatFormatted | script.js:10-33 | Removing the commas from either formatter's output leaves the numeral's sign, integer digits and decimal part. |
| IndianFormat.RoundTrip | script.js:10-33 | `unformatNumber(formatIndianNumber(s))` is `s` for every numeric `s`, except that a trailing bare point is dropped. The same holds for the corrected formatter. |

## Left out

- Page wiring (`script.js:1-7`, `script.js:66-73`) and the blur/focus input formatting (`script.js:35-64`), which is switched off in the code. These are DOM event handling.
- Reading the form (`script.js:76-80`). `parseFloat` and `parseInt` are not modelled; the inputs arrive as numbers. A `NaN` from unparsable text is not modelled either, so `Validate` sees only numbers.
- `alert` (`script.js:84`, `script.js:88`, `script.js:92`) becomes the `Rejected` outcome with the failing field.
- `displayResults`, `toFixed(2)` and the table (`script.js:144-184`), `triggerLayoutTransition` (`script.js:186-193`) and `createPieChart` (`script.js:195-258`) draw the results on the page and hold no calculation.
- Floating point. All arithmetic is exact `real`, so the IEEE rounding drift of the original is absent. In the model the last balance is exactly 0; in the page it is only close to 0.
- Emi.Calculate: for a zero rate the code computes the installment as `0/0`, which is `NaN` (`script.js:101`). Month 1 still has interest 0, GST 0 and the fee with its GST; its principal and payment are `NaN`, and from month 2 the balance, interest and GST are `NaN` as well. The fee and fee GST totals stay finite, and for a one-month tenure so do the interest, GST, total amount and merchant discount. The page never prints `NaN`: `formatIndianNumber` returns `''` for it (`script.js:11`), so such a cell reads as a bare `₹`. The model returns `Indeterminate` and does not reproduce this partly-`NaN` table.
- IndianFormat.IsNumeral: covers an optional `+`/`-`, decimal digits and one optional point with at least one digit. The rest of the JavaScript number grammar accepted by `isNaN` is not modelled: surrounding whitespace, exponents, `0x`/`0b`/`0o` literals, `Infinity`. `num.toString()` is the identity on the strings the page passes.

## Findings

| source | as written | input that shows it | evidently intended | confidence | as-written member | corrected member |
|---|---|---|---|---|---|---|
| script.js:19-26 | The integer part keeps its sign. With a sign and exactly three digits, `otherNumbers` is the sign alone, and a comma is always written before `lastThree`. | `formatIndianNumber("-123")` returns `"-,123"` | `"-123"`: the sign set aside, then the digits grouped | not executed | IndianFormat.SignedThreeDigitComma | IndianFormat.FormatCorrectedNumeral |
