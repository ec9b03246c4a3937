/**
 * The no-cost EMI calculation: validation of the loan inputs, the monthly
 * rate, the installment from the annuity formula, the month-by-month
 * schedule with GST on interest and a month-one processing fee, and the
 * summary totals.
 *
 * Arithmetic is exact (`real`), so the floating-point drift of the original
 * is absent and the installment pays the loan off to exactly zero.
 */
module Emi {

  /** 18% GST, on the interest of every month and on the processing fee. */
  const GST_RATE: real := 0.18

  datatype Option<T> = None | Some(value: T)

  /** The already-parsed form values. */
  datatype LoanInput = LoanInput(loanAmount: real, annualRate: real, tenure: int, processingFee: real)

  /** The three validation failures, in the order they are checked. */
  datatype InputError = InvalidLoanAmount | InvalidInterestRate | InvalidTenure

  /** One line of the amortisation table. */
  datatype Row = Row(
    month: int,
    outstanding: real,
    interest: real,
    principal: real,
    gstOnInterest: real,
    processingFee: real,
    gstOnFee: real,
    totalPayment: real)

  /** Everything the calculation hands to the display. */
  datatype Summary = Summary(
    baseEMI: real,
    schedule: seq<Row>,
    totalInterest: real,
    totalGST: real,
    totalProcessingFee: real,
    totalGSTOnFee: real,
    totalInterestPlusGST: real,
    totalAmount: real,
    merchantDiscount: real,
    effectiveAmount: real)

  /** Rejected: an alert and no schedule. Indeterminate: a zero rate makes
      the installment 0/0 (NaN), so the principal and payment of every month,
      and the balance, interest and GST from month 2 on, are NaN. */
  datatype Outcome = Rejected(error: InputError) | Indeterminate | Computed(summary: Summary)

  // ---------------------------------------------------------------------
  // Validation
  // ---------------------------------------------------------------------

  /** The first failing check, if any; the processing fee is not checked. */
  function Validate(input: LoanInput): (r: Option<InputError>)
    ensures r == None <==> input.loanAmount > 0.0 && input.annualRate >= 0.0 && input.tenure > 0
    ensures r == Some(InvalidLoanAmount) <==> input.loanAmount <= 0.0
    ensures r == Some(InvalidInterestRate) <==> input.loanAmount > 0.0 && input.annualRate < 0.0
    ensures r == Some(InvalidTenure) <==> input.loanAmount > 0.0 && input.annualRate >= 0.0 && input.tenure <= 0
  {
    if input.loanAmount <= 0.0 then Some(InvalidLoanAmount)
    else if input.annualRate < 0.0 then Some(InvalidInterestRate)
    else if input.tenure <= 0 then Some(InvalidTenure)
    else None
  }

  // ---------------------------------------------------------------------
  // Rate and installment
  // ---------------------------------------------------------------------

  /** Annual percentage to monthly fraction. */
  function MonthlyRate(annualRate: real): (rate: real) {
    annualRate / (12.0 * 100.0)
  }

  /** `Math.pow(x, n)` for a natural exponent. */
  function Pow(x: real, n: nat): real {
    if n == 0 then 1.0 else x * Pow(x, n - 1)
  }

  /** A base above one raised to a positive power stays above one. */
  lemma {:induction false} PowAboveOne(x: real, n: nat)
    requires x > 1.0 && n > 0
    ensures Pow(x, n) > 1.0
  {
    if n > 1 {
      PowAboveOne(x, n - 1);
      var p := Pow(x, n - 1);
      assert x * p > 1.0 * p;
    }
  }

  /** `L * r / (1 - (1 + r)^-N)`, with `(1 + r)^-N` as `1 / (1 + r)^N`. */
  function BaseEMI(loanAmount: real, monthlyRate: real, tenure: nat): (emi: real)
    requires monthlyRate > 0.0 && tenure > 0
  {
    var growth := Pow(1.0 + monthlyRate, tenure);
    PowAboveOne(1.0 + monthlyRate, tenure);
    assert 1.0 / growth < 1.0;
    (loanAmount * monthlyRate) / (1.0 - 1.0 / growth)
  }

  // ---------------------------------------------------------------------
  // The schedule, month by month
  // ---------------------------------------------------------------------

  /** The outstanding balance after `k` months: each month the principal
      part of the installment is taken off. */
  function Outstanding(loanAmount: real, monthlyRate: real, emi: real, k: nat): (balance: real) {
    if k == 0 then loanAmount
    else
      var before := Outstanding(loanAmount, monthlyRate, emi, k - 1);
      before - (emi - before * monthlyRate)
  }

  /** The table row for `month`, given the balance at its start. */
  function MonthRow(month: int, outstanding: real, monthlyRate: real, emi: real, processingFee: real): (row: Row) {
    var interest := outstanding * monthlyRate;
    var principal := emi - interest;
    var gstOnInterest := interest * GST_RATE;
    var monthlyProcessingFee := if month == 1 then processingFee else 0.0;
    var monthlyGSTOnFee := if month == 1 then processingFee * GST_RATE else 0.0;
    var monthlyPayment := emi + gstOnInterest + monthlyProcessingFee + monthlyGSTOnFee;
    Row(month, outstanding, interest, principal, gstOnInterest,
        monthlyProcessingFee, monthlyGSTOnFee, monthlyPayment)
  }

  /** The identities that hold inside every row. */
  predicate MonthRowFacts(row: Row, monthlyRate: real, emi: real, processingFee: real) {
    row.interest == row.outstanding * monthlyRate &&
    row.interest + row.principal == emi &&
    row.gstOnInterest == GST_RATE * row.interest &&
    row.processingFee == (if row.month == 1 then processingFee else 0.0) &&
    row.gstOnFee == (if row.month == 1 then GST_RATE * processingFee else 0.0) &&
    row.totalPayment == emi + row.gstOnInterest + row.processingFee + row.gstOnFee
  }

  lemma MonthRowIdentities(month: int, outstanding: real, monthlyRate: real, emi: real, processingFee: real)
    ensures var row := MonthRow(month, outstanding, monthlyRate, emi, processingFee);
      row.month == month && row.outstanding == outstanding &&
      MonthRowFacts(row, monthlyRate, emi, processingFee)
  {
  }

  /** The first `k` rows of the schedule. */
  function Rows(loanAmount: real, monthlyRate: real, emi: real, processingFee: real, k: nat): (schedule: seq<Row>) {
    if k == 0 then []
    else
      Rows(loanAmount, monthlyRate, emi, processingFee, k - 1) +
      [MonthRow(k, Outstanding(loanAmount, monthlyRate, emi, k - 1), monthlyRate, emi, processingFee)]
  }

  function SumInterest(rows: seq<Row>): real {
    if rows == [] then 0.0 else SumInterest(rows[..|rows| - 1]) + rows[|rows| - 1].interest
  }

  function SumGST(rows: seq<Row>): real {
    if rows == [] then 0.0 else SumGST(rows[..|rows| - 1]) + rows[|rows| - 1].gstOnInterest
  }

  function SumPrincipal(rows: seq<Row>): real {
    if rows == [] then 0.0 else SumPrincipal(rows[..|rows| - 1]) + rows[|rows| - 1].principal
  }

  function SumPayments(rows: seq<Row>): real {
    if rows == [] then 0.0 else SumPayments(rows[..|rows| - 1]) + rows[|rows| - 1].totalPayment
  }

  /** One installment for every month of the schedule. */
  function InstallmentsPaid(rows: seq<Row>, emi: real): real {
    (|rows| as real) * emi
  }

  /** Appending a row adds its figures to each running sum. */
  lemma SumsSnoc(rows: seq<Row>, row: Row)
    ensures SumInterest(rows + [row]) == SumInterest(rows) + row.interest
    ensures SumGST(rows + [row]) == SumGST(rows) + row.gstOnInterest
    ensures SumPrincipal(rows + [row]) == SumPrincipal(rows) + row.principal
    ensures SumPayments(rows + [row]) == SumPayments(rows) + row.totalPayment
  {
    assert (rows + [row])[..|rows|] == rows;
  }

  /** Month `k + 1` opens with the balance after `k` months and its
      principal part takes the balance to that after `k + 1` months. */
  lemma NextMonth(loanAmount: real, r: real, emi: real, fee: real, k: nat)
    ensures var row := MonthRow(k + 1, Outstanding(loanAmount, r, emi, k), r, emi, fee);
      Rows(loanAmount, r, emi, fee, k + 1) == Rows(loanAmount, r, emi, fee, k) + [row] &&
      Outstanding(loanAmount, r, emi, k + 1) == Outstanding(loanAmount, r, emi, k) - row.principal
  {
  }

  /** The totals derived from the schedule's running sums. */
  function Totals(loanAmount: real, processingFee: real, emi: real, rows: seq<Row>): (summary: Summary) {
    var totalInterest := SumInterest(rows);
    var totalGST := SumGST(rows);
    var totalProcessingFee := processingFee;
    var totalGSTOnFee := processingFee * GST_RATE;
    var totalAmount := loanAmount + totalInterest + totalGST + totalProcessingFee + totalGSTOnFee;
    var merchantDiscount := totalInterest + totalGST + totalProcessingFee + totalGSTOnFee;
    Summary(emi, rows, totalInterest, totalGST, totalProcessingFee, totalGSTOnFee,
            totalInterest + totalGST, totalAmount, merchantDiscount, totalAmount)
  }

  /** The summary for an input that passes validation with a positive
      rate: installment, schedule and totals. */
  function Summarize(input: LoanInput): (summary: Summary)
    requires input.loanAmount > 0.0 && input.annualRate > 0.0 && input.tenure > 0
  {
    var r := MonthlyRate(input.annualRate);
    var emi := BaseEMI(input.loanAmount, r, input.tenure);
    Totals(input.loanAmount, input.processingFee, emi,
           Rows(input.loanAmount, r, emi, input.processingFee, input.tenure))
  }

  /** The whole calculation as a function of the input. */
  function Calculate(input: LoanInput): (outcome: Outcome) {
    match Validate(input)
    case Some(e) => Rejected(e)
    case None => if input.annualRate == 0.0 then Indeterminate else Computed(Summarize(input))
  }

  // ---------------------------------------------------------------------
  // The calculation as the page runs it
  // ---------------------------------------------------------------------

  /** Validate, derive rate and installment, then walk the months keeping
      the balance and the running interest and GST totals. */
  method CalculateEMI(input: LoanInput) returns (out: Outcome)
    ensures out == Calculate(input)
  {
    var loanAmount, annualRate, tenure, processingFee :=
      input.loanAmount, input.annualRate, input.tenure, input.processingFee;
    if loanAmount <= 0.0 {
      return Rejected(InvalidLoanAmount);
    }
    if annualRate < 0.0 {
      return Rejected(InvalidInterestRate);
    }
    if tenure <= 0 {
      return Rejected(InvalidTenure);
    }
    var monthlyRate := annualRate / (12.0 * 100.0);
    if monthlyRate == 0.0 {
      return Indeterminate;
    }
    var baseEMI := BaseEMI(loanAmount, monthlyRate, tenure);

    var totalInterest := 0.0;
    var totalGST := 0.0;
    var totalProcessingFee := processingFee;
    var totalGSTOnFee := processingFee * GST_RATE;
    var outstanding := loanAmount;
    var amortizationSchedule: seq<Row> := [];

    for month := 1 to tenure + 1
      invariant amortizationSchedule == Rows(loanAmount, monthlyRate, baseEMI, processingFee, month - 1)
      invariant outstanding == Outstanding(loanAmount, monthlyRate, baseEMI, month - 1)
      invariant totalInterest == SumInterest(amortizationSchedule)
      invariant totalGST == SumGST(amortizationSchedule)
    {
      var row := MonthRow(month, outstanding, monthlyRate, baseEMI, processingFee);
      SumsSnoc(amortizationSchedule, row);
      NextMonth(loanAmount, monthlyRate, baseEMI, processingFee, month - 1);
      amortizationSchedule := amortizationSchedule + [row];
      totalInterest := totalInterest + row.interest;
      totalGST := totalGST + row.gstOnInterest;
      outstanding := outstanding - row.principal;
    }

    var totalInterestPlusGST := totalInterest + totalGST;
    var totalAmount := loanAmount + totalInterest + totalGST + totalProcessingFee + totalGSTOnFee;
    var merchantDiscount := totalInterest + totalGST + totalProcessingFee + totalGSTOnFee;
    var effectiveAmount := totalAmount;
    Computes(input);
    out := Computed(Summary(baseEMI, amortizationSchedule, totalInterest, totalGST,
                            totalProcessingFee, totalGSTOnFee, totalInterestPlusGST,
                            totalAmount, merchantDiscount, effectiveAmount));
  }

  // ---------------------------------------------------------------------
  // Properties of the schedule
  // ---------------------------------------------------------------------

  /** What makes a sequence of rows an amortisation schedule of `loanAmount`:
      months numbered from 1, the first month opening with the loan, each
      later month opening with the previous balance less the previous
      principal, and the identities of `MonthRowFacts` in every row. */
  predicate IsSchedule(rows: seq<Row>, loanAmount: real, monthlyRate: real, emi: real, processingFee: real) {
    (forall i :: 0 <= i < |rows| ==> rows[i].month == i + 1) &&
    (|rows| > 0 ==> rows[0].outstanding == loanAmount) &&
    (forall i :: 0 < i < |rows| ==> rows[i].outstanding == rows[i - 1].outstanding - rows[i - 1].principal) &&
    (forall i :: 0 <= i < |rows| ==> MonthRowFacts(rows[i], monthlyRate, emi, processingFee))
  }

  /** The balance left after the last row of a schedule. */
  function Remaining(rows: seq<Row>, loanAmount: real): real {
    if rows == [] then loanAmount else rows[|rows| - 1].outstanding - rows[|rows| - 1].principal
  }

  lemma ScheduleSnoc(rows: seq<Row>, loanAmount: real, r: real, emi: real, fee: real, row: Row)
    requires IsSchedule(rows, loanAmount, r, emi, fee)
    requires row.month == |rows| + 1 && row.outstanding == Remaining(rows, loanAmount)
    requires MonthRowFacts(row, r, emi, fee)
    ensures IsSchedule(rows + [row], loanAmount, r, emi, fee)
    ensures Remaining(rows + [row], loanAmount) == row.outstanding - row.principal
  {
    var rows' := rows + [row];
    assert forall i :: 0 <= i < |rows| ==> rows'[i] == rows[i];
  }

  lemma SchedulePrefix(rows: seq<Row>, loanAmount: real, r: real, emi: real, fee: real)
    requires IsSchedule(rows, loanAmount, r, emi, fee) && |rows| > 0
    ensures IsSchedule(rows[..|rows| - 1], loanAmount, r, emi, fee)
  {
  }

  /** The first `k` rows form a schedule of `k` months, whose remaining
      balance is `Outstanding` after `k` months. */
  lemma {:induction false} RowsAreSchedule(loanAmount: real, r: real, emi: real, fee: real, k: nat)
    ensures var rows := Rows(loanAmount, r, emi, fee, k);
      |rows| == k && IsSchedule(rows, loanAmount, r, emi, fee) &&
      Remaining(rows, loanAmount) == Outstanding(loanAmount, r, emi, k)
  {
    if k > 0 {
      var prev := Rows(loanAmount, r, emi, fee, k - 1);
      var before := Outstanding(loanAmount, r, emi, k - 1);
      var row := MonthRow(k, before, r, emi, fee);
      assert |prev| == k - 1 && IsSchedule(prev, loanAmount, r, emi, fee) &&
        Remaining(prev, loanAmount) == before by {
        RowsAreSchedule(loanAmount, r, emi, fee, k - 1);
      }
      MonthRowIdentities(k, before, r, emi, fee);
      ScheduleSnoc(prev, loanAmount, r, emi, fee, row);
      assert Rows(loanAmount, r, emi, fee, k) == prev + [row];
    }
  }

  /** One month of the closed form below, as plain ring arithmetic. */
  lemma ClosedFormStep(b: real, r: real, emi: real, c: real, p: real, q: real, o: real)
    requires b * r == c * p + emi && q == (1.0 + r) * p && o == b - (emi - b * r)
    ensures o * r == c * q + emi
  {
    calc {
      o * r;
      (b * r) * (1.0 + r) - emi * r;
      (c * p + emi) * (1.0 + r) - emi * r;
      c * ((1.0 + r) * p) + emi;
      c * q + emi;
    }
  }

  /** The balance times the rate, in closed form:
      `B_k * r == (L * r - emi) * (1 + r)^k + emi`. */
  lemma {:induction false} OutstandingClosedForm(loanAmount: real, r: real, emi: real, k: nat)
    ensures Outstanding(loanAmount, r, emi, k) * r == (loanAmount * r - emi) * Pow(1.0 + r, k) + emi
  {
    if k > 0 {
      var o := Outstanding(loanAmount, r, emi, k);
      var b := Outstanding(loanAmount, r, emi, k - 1);
      var p := Pow(1.0 + r, k - 1);
      var q := Pow(1.0 + r, k);
      assert b * r == (loanAmount * r - emi) * p + emi by {
        OutstandingClosedForm(loanAmount, r, emi, k - 1);
      }
      assert o == b - (emi - b * r);
      assert q == (1.0 + r) * p;
      ClosedFormStep(b, r, emi, loanAmount * r - emi, p, q, o);
    }
  }

  /** With exact arithmetic the annuity installment leaves nothing owing
      after the last month. */
  lemma PaysOff(loanAmount: real, r: real, n: nat)
    requires r > 0.0 && n > 0
    ensures Outstanding(loanAmount, r, BaseEMI(loanAmount, r, n), n) == 0.0
  {
    var emi := BaseEMI(loanAmount, r, n);
    var g := Pow(1.0 + r, n);
    PowAboveOne(1.0 + r, n);
    OutstandingClosedForm(loanAmount, r, emi, n);
    assert emi * (1.0 - 1.0 / g) == loanAmount * r;
    assert emi * (g - 1.0) == loanAmount * r * g by {
      calc {
        emi * (g - 1.0);
        emi * ((1.0 - 1.0 / g) * g);
        (emi * (1.0 - 1.0 / g)) * g;
        loanAmount * r * g;
      }
    }
    assert (loanAmount * r - emi) * g + emi == 0.0;
    assert Outstanding(loanAmount, r, emi, n) * r == 0.0;
  }

  /** The principal parts of a schedule telescope: they add up to what has
      been repaid. */
  lemma {:induction false} PrincipalTelescopes(rows: seq<Row>, loanAmount: real, r: real, emi: real, fee: real)
    requires IsSchedule(rows, loanAmount, r, emi, fee)
    ensures SumPrincipal(rows) == loanAmount - Remaining(rows, loanAmount)
  {
    if rows != [] {
      var prev := rows[..|rows| - 1];
      SchedulePrefix(rows, loanAmount, r, emi, fee);
      PrincipalTelescopes(prev, loanAmount, r, emi, fee);
      assert Remaining(prev, loanAmount) == rows[|rows| - 1].outstanding;
    }
  }

  /** Each month's interest and principal make up the installment, so over a
      schedule they add up to one installment per month. */
  lemma {:induction false} InterestAndPrincipal(rows: seq<Row>, loanAmount: real, r: real, emi: real, fee: real)
    requires IsSchedule(rows, loanAmount, r, emi, fee)
    ensures SumInterest(rows) + SumPrincipal(rows) == InstallmentsPaid(rows, emi)
  {
    if rows != [] {
      var prev := rows[..|rows| - 1];
      SchedulePrefix(rows, loanAmount, r, emi, fee);
      InterestAndPrincipal(prev, loanAmount, r, emi, fee);
      assert InstallmentsPaid(rows, emi) == InstallmentsPaid(prev, emi) + emi;
    }
  }

  /** GST on interest is 18% of the interest, in total as in every month. */
  lemma {:induction false} GSTIsRateOfInterest(rows: seq<Row>, loanAmount: real, r: real, emi: real, fee: real)
    requires IsSchedule(rows, loanAmount, r, emi, fee)
    ensures SumGST(rows) == GST_RATE * SumInterest(rows)
  {
    if rows != [] {
      var prev := rows[..|rows| - 1];
      SchedulePrefix(rows, loanAmount, r, emi, fee);
      GSTIsRateOfInterest(prev, loanAmount, r, emi, fee);
      var last := rows[|rows| - 1];
      assert last.gstOnInterest == GST_RATE * last.interest;
      assert SumGST(rows) == GST_RATE * SumInterest(prev) + GST_RATE * last.interest;
    }
  }

  /** The monthly payments add up to the installments, the GST on interest
      and the fee with its GST (charged once, in month 1). */
  lemma {:induction false} PaymentsAddUp(rows: seq<Row>, loanAmount: real, r: real, emi: real, fee: real)
    requires IsSchedule(rows, loanAmount, r, emi, fee)
    ensures SumPayments(rows) ==
      InstallmentsPaid(rows, emi) + SumGST(rows) + (if |rows| > 0 then fee + GST_RATE * fee else 0.0)
  {
    if rows != [] {
      var prev := rows[..|rows| - 1];
      SchedulePrefix(rows, loanAmount, r, emi, fee);
      PaymentsAddUp(prev, loanAmount, r, emi, fee);
      assert InstallmentsPaid(rows, emi) == InstallmentsPaid(prev, emi) + emi;
      var last := rows[|rows| - 1];
      assert last.month == |rows|;
    }
  }

  // ---------------------------------------------------------------------
  // Properties of the calculation
  // ---------------------------------------------------------------------

  /** Invalid inputs get an error and no schedule; a zero rate passes
      validation and reaches the formula's 0/0. */
  lemma OutcomeKinds(input: LoanInput)
    ensures Calculate(input).Rejected? <==>
      input.loanAmount <= 0.0 || input.annualRate < 0.0 || input.tenure <= 0
    ensures Calculate(input).Rejected? ==> Calculate(input) == Rejected(Validate(input).value)
    ensures Calculate(input).Indeterminate? <==>
      input.loanAmount > 0.0 && input.annualRate == 0.0 && input.tenure > 0
  {
  }

  /** Valid input with a positive rate: `tenure` rows forming a schedule of
      the loan, under the monthly rate and the base installment. */
  lemma ScheduleShape(input: LoanInput)
    requires input.loanAmount > 0.0 && input.annualRate > 0.0 && input.tenure > 0
    ensures Calculate(input).Computed?
    ensures var s := Calculate(input).summary;
      |s.schedule| == input.tenure &&
      IsSchedule(s.schedule, input.loanAmount, MonthlyRate(input.annualRate), s.baseEMI, input.processingFee)
  {
    var r := MonthlyRate(input.annualRate);
    var emi := BaseEMI(input.loanAmount, r, input.tenure);
    Computes(input);
    RowsAreSchedule(input.loanAmount, r, emi, input.processingFee, input.tenure);
  }

  /** The processing fee and its GST are charged in month 1 and in no
      other month. */
  lemma FeeOnlyInFirstMonth(input: LoanInput)
    requires input.loanAmount > 0.0 && input.annualRate > 0.0 && input.tenure > 0
    ensures Calculate(input).Computed?
    ensures var rows := Calculate(input).summary.schedule;
      rows[0].processingFee == input.processingFee &&
      rows[0].gstOnFee == GST_RATE * input.processingFee &&
      forall i :: 0 < i < |rows| ==> rows[i].processingFee == 0.0 && rows[i].gstOnFee == 0.0
  {
    ScheduleShape(input);
  }

  /** With exact arithmetic the balance after the last month is zero, and
      the principal parts add up to the loan. */
  lemma BalanceReachesZero(input: LoanInput)
    requires input.loanAmount > 0.0 && input.annualRate > 0.0 && input.tenure > 0
    ensures Calculate(input).Computed?
    ensures var rows := Calculate(input).summary.schedule;
      var last := rows[|rows| - 1];
      last.outstanding - last.principal == 0.0 &&
      SumPrincipal(rows) == input.loanAmount
  {
    var loan, fee, n: nat := input.loanAmount, input.processingFee, input.tenure;
    var r := MonthlyRate(input.annualRate);
    var emi := BaseEMI(loan, r, n);
    Computes(input);
    RowsAreSchedule(loan, r, emi, fee, n);
    PaysOff(loan, r, n);
    PrincipalTelescopes(Rows(loan, r, emi, fee, n), loan, r, emi, fee);
  }

  /** What a valid input with a positive rate computes. */
  lemma Computes(input: LoanInput)
    requires input.loanAmount > 0.0 && input.annualRate > 0.0 && input.tenure > 0
    ensures var r := MonthlyRate(input.annualRate);
      var emi := BaseEMI(input.loanAmount, r, input.tenure);
      Calculate(input) ==
        Computed(Totals(input.loanAmount, input.processingFee, emi,
                        Rows(input.loanAmount, r, emi, input.processingFee, input.tenure)))
  {
  }

  /** The totals over any schedule: sums of the rows, GST at 18% of the
      interest and of the fee, the merchant discount as what is paid beyond
      the loan. */
  lemma TotalsOfSchedule(rows: seq<Row>, loanAmount: real, r: real, emi: real, fee: real)
    requires IsSchedule(rows, loanAmount, r, emi, fee)
    ensures var s := Totals(loanAmount, fee, emi, rows);
      s.totalInterest == SumInterest(rows) &&
      s.totalGST == SumGST(rows) &&
      s.totalGST == GST_RATE * s.totalInterest &&
      s.totalInterestPlusGST == (1.0 + GST_RATE) * s.totalInterest &&
      s.totalProcessingFee == fee &&
      s.totalGSTOnFee == GST_RATE * fee &&
      s.merchantDiscount == s.totalAmount - loanAmount &&
      s.effectiveAmount == s.totalAmount
  {
    GSTIsRateOfInterest(rows, loanAmount, r, emi, fee);
  }

  /** Over a schedule that pays the loan off, the interest is the
      installments less the loan, and the effective amount is what the
      monthly payments add up to. */
  lemma PaidOffTotals(rows: seq<Row>, loanAmount: real, r: real, emi: real, fee: real)
    requires IsSchedule(rows, loanAmount, r, emi, fee) && |rows| > 0
    requires Remaining(rows, loanAmount) == 0.0
    ensures var s := Totals(loanAmount, fee, emi, rows);
      s.totalInterest == InstallmentsPaid(rows, emi) - loanAmount &&
      s.effectiveAmount == SumPayments(rows)
  {
    PrincipalTelescopes(rows, loanAmount, r, emi, fee);
    InterestAndPrincipal(rows, loanAmount, r, emi, fee);
    PaymentsAddUp(rows, loanAmount, r, emi, fee);
  }

  /** The totals of the calculation: sums of its rows, GST at 18% of the
      interest and of the fee, and the merchant discount as what is paid
      beyond the loan. */
  lemma TotalsMatchSchedule(input: LoanInput)
    requires input.loanAmount > 0.0 && input.annualRate > 0.0 && input.tenure > 0
    ensures Calculate(input).Computed?
    ensures var s := Calculate(input).summary;
      s.totalInterest == SumInterest(s.schedule) &&
      s.totalGST == SumGST(s.schedule) &&
      s.totalGST == GST_RATE * s.totalInterest &&
      s.totalInterestPlusGST == (1.0 + GST_RATE) * s.totalInterest &&
      s.totalProcessingFee == input.processingFee &&
      s.totalGSTOnFee == GST_RATE * input.processingFee &&
      s.merchantDiscount == s.totalAmount - input.loanAmount &&
      s.effectiveAmount == s.totalAmount
  {
    var loan, fee, n: nat := input.loanAmount, input.processingFee, input.tenure;
    var r := MonthlyRate(input.annualRate);
    var emi := BaseEMI(loan, r, n);
    Computes(input);
    RowsAreSchedule(loan, r, emi, fee, n);
    TotalsOfSchedule(Rows(loan, r, emi, fee, n), loan, r, emi, fee);
  }

  /** The interest of the calculation in all is one installment per row
      less the loan, and its effective amount is what the monthly payments
      add up to. */
  lemma TotalsFromInstallments(input: LoanInput)
    requires input.loanAmount > 0.0 && input.annualRate > 0.0 && input.tenure > 0
    ensures Calculate(input).Computed?
    ensures var s := Calculate(input).summary;
      s.totalInterest == InstallmentsPaid(s.schedule, s.baseEMI) - input.loanAmount &&
      s.effectiveAmount == SumPayments(s.schedule)
  {
    var loan, fee, n: nat := input.loanAmount, input.processingFee, input.tenure;
    var r := MonthlyRate(input.annualRate);
    var emi := BaseEMI(loan, r, n);
    Computes(input);
    RowsAreSchedule(loan, r, emi, fee, n);
    PaysOff(loan, r, n);
    PaidOffTotals(Rows(loan, r, emi, fee, n), loan, r, emi, fee);
  }


  /** A worked case: 1,00,000 at 12% a year over 12 months gives a monthly
      rate of 1%, an installment of about 8,884.88, and twelve installments
      exceed the loan by about 6,618.55. */
  lemma WorkedExample()
    ensures MonthlyRate(12.0) == 0.01
    ensures 8884.87 < BaseEMI(100000.0, 0.01, 12) < 8884.88
    ensures 6618.54 < 12.0 * BaseEMI(100000.0, 0.01, 12) - 100000.0 < 6618.55
  {
    var g := Pow(1.01, 12);
    assert g == 1.126825030131969720661201;
    var emi := BaseEMI(100000.0, 0.01, 12);
    assert emi == 1000.0 / (1.0 - 1.0 / g);
    assert emi == 1000.0 * g / (g - 1.0);
  }

  /** The same case through the whole calculation: twelve months, the fee
      of 1,000 and its GST of 180 in month 1, and a total interest of about
      6,618.55. */
  lemma WorkedExampleTotals()
    ensures Calculate(LoanInput(100000.0, 12.0, 12, 1000.0)).Computed?
    ensures var s := Calculate(LoanInput(100000.0, 12.0, 12, 1000.0)).summary;
      |s.schedule| == 12 &&
      s.baseEMI == BaseEMI(100000.0, 0.01, 12) &&
      6618.54 < s.totalInterest < 6618.55 &&
      s.schedule[0].processingFee == 1000.0 && s.schedule[0].gstOnFee == 180.0
  {
    var input := LoanInput(100000.0, 12.0, 12, 1000.0);
    WorkedExample();
    Computes(input);
    ScheduleShape(input);
    FeeOnlyInFirstMonth(input);
    TotalsFromInstallments(input);
  }
}
