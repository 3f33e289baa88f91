/** The mortgage computation behind the calculator's "Calculate" action: three
    ordered input checks, then the level-payment annuity formula and the monthly
    and aggregate figures derived from it. Arithmetic is over exact reals. */
module Mortgage {

  import opened RealArith

  /** The three user-facing validation failures, in the order they are checked. */
  datatype ValidationError = InvalidHomePrice | DownPaymentTooLarge | InvalidInterestRate

  /** The already-parsed form fields. `interestRate` and `pmiRate` are annual
      percentages, `propertyTax` and `homeInsurance` yearly amounts, `loanTerm` years. */
  datatype LoanInput = LoanInput(
    homePrice: real,
    downPayment: real,
    loanTerm: int,
    interestRate: real,
    propertyTax: real,
    homeInsurance: real,
    pmiRate: real)

  /** The figures handed to the results panel. */
  datatype Breakdown = Breakdown(
    monthlyPayment: real,
    principalInterest: real,
    monthlyTax: real,
    monthlyInsurance: real,
    monthlyPMI: real,
    totalInterest: real,
    totalAmount: real,
    loanAmount: real)

  datatype Outcome = Ok(breakdown: Breakdown) | Err(error: ValidationError)

  /** A number parsed from a text field; `NaN` is what parsing yields on text
      that does not start with a number. */
  datatype Parsed<T> = NaN | Number(value: T)

  /** The `parsed || default` fallback applied to each field: both falsy numbers,
      NaN and the type's zero, are replaced by the default. The real fields use it
      with zero 0.0 and default 0.0, the integer loan term with zero 0 and default 30. */
  function OrDefault<T(==)>(p: Parsed<T>, zero: T, default: T): (r: T)
    ensures p.Number? && p.value != zero ==> r == p.value
    ensures p.NaN? || p.value == zero ==> r == default
    ensures default != zero ==> r != zero
  {
    match p
    case NaN => default
    case Number(v) => if v == zero then default else v
  }

  /** x raised to the natural power n. */
  function Pow(x: real, n: nat): (r: real)
    ensures x > 0.0 ==> r > 0.0
    ensures x == 1.0 ==> r == 1.0
  {
    if n == 0 then 1.0
    else
      var p := Pow(x, n - 1);
      assert x > 0.0 ==> x * p > 0.0 by {
        if x > 0.0 { MulPos(x, p); }
      }
      x * p
  }

  lemma {:induction false} PowAtLeastOne(x: real, n: nat)
    requires x >= 1.0
    ensures Pow(x, n) >= 1.0
    ensures x > 1.0 && n >= 1 ==> Pow(x, n) > 1.0
  {
    if n > 0 {
      PowAtLeastOne(x, n - 1);
      ScaleStrict(x, 1.0, Pow(x, n - 1));
    }
  }

  /** The annual percentage rate turned into a monthly fraction. */
  function MonthlyRate(interestRate: real): (r: real)
    ensures r > 0.0 <==> interestRate > 0.0
  {
    interestRate / 100.0 / 12.0
  }

  /** The level monthly payment of the annuity formula, for a positive rate. */
  function AnnuityPayment(loanAmount: real, rate: real, n: nat): (payment: real)
    requires rate > 0.0 && n >= 1
    ensures loanAmount > 0.0 ==> payment > loanAmount * rate
  {
    PowAtLeastOne(1.0 + rate, n);
    var growth := Pow(1.0 + rate, n);
    AnnuityExceedsInterest(loanAmount, rate, growth);
    loanAmount * (rate * growth) / (growth - 1.0)
  }

  /** A payment of loanAmount * rate * g / (g - 1) covers more than the interest. */
  lemma AnnuityExceedsInterest(loanAmount: real, rate: real, growth: real)
    requires rate > 0.0 && growth > 1.0
    ensures loanAmount > 0.0 ==> loanAmount * (rate * growth) / (growth - 1.0) > loanAmount * rate
  {
    if loanAmount > 0.0 {
      var li := loanAmount * rate;
      var d := growth - 1.0;
      var x := loanAmount * (rate * growth);
      MulPos(loanAmount, rate);
      assert x == li * growth;
      ScaleStrict(li, d, growth);
      assert d * (x / d) == x;
      ScaleStrict(d, li, x / d);
    }
  }

  /** The monthly principal and interest: the annuity formula when the monthly
      rate is positive, otherwise the loan split evenly over the payments. */
  function PrincipalInterest(loanAmount: real, rate: real, n: nat): (payment: real)
    requires n >= 1
    ensures rate <= 0.0 ==> payment * (n as real) == loanAmount
    ensures rate > 0.0 && loanAmount > 0.0 ==> payment > loanAmount * rate
  {
    if rate > 0.0 then AnnuityPayment(loanAmount, rate, n) else loanAmount / (n as real)
  }

  /** Validates the inputs (first failing check wins) and computes the breakdown. */
  function Compute(input: LoanInput): (r: Outcome)
    requires input.loanTerm >= 1
    ensures input.homePrice <= 0.0 ==> r == Err(InvalidHomePrice)
    ensures input.homePrice > 0.0 && input.downPayment >= input.homePrice ==> r == Err(DownPaymentTooLarge)
    ensures r == Err(InvalidInterestRate) <==>
              input.homePrice > 0.0 && input.downPayment < input.homePrice && input.interestRate <= 0.0
    ensures r.Ok? <==>
              input.homePrice > 0.0 && input.downPayment < input.homePrice && input.interestRate > 0.0
    ensures r.Ok? ==>
              var b := r.breakdown;
              var n := (input.loanTerm * 12) as real;
              && b.loanAmount == input.homePrice - input.downPayment
              && b.loanAmount > 0.0
              && b.monthlyTax * 12.0 == input.propertyTax
              && b.monthlyInsurance * 12.0 == input.homeInsurance
              && b.monthlyPayment == b.principalInterest + b.monthlyTax + b.monthlyInsurance + b.monthlyPMI
              && b.totalAmount == b.monthlyPayment * n
              && b.totalInterest == b.principalInterest * n - b.loanAmount
  {
    if input.homePrice <= 0.0 then Err(InvalidHomePrice)
    else if input.downPayment >= input.homePrice then Err(DownPaymentTooLarge)
    else if input.interestRate <= 0.0 then Err(InvalidInterestRate)
    else
      var loanAmount := input.homePrice - input.downPayment;
      var monthlyInterestRate := MonthlyRate(input.interestRate);
      var numberOfPayments := input.loanTerm * 12;
      var principalInterest := PrincipalInterest(loanAmount, monthlyInterestRate, numberOfPayments);
      var monthlyTax := input.propertyTax / 12.0;
      var monthlyInsurance := input.homeInsurance / 12.0;
      var downPaymentPercentage := input.downPayment / input.homePrice * 100.0;
      var monthlyPMI := if downPaymentPercentage < 20.0 then loanAmount * input.pmiRate / 100.0 / 12.0 else 0.0;
      var monthlyPayment := principalInterest + monthlyTax + monthlyInsurance + monthlyPMI;
      var totalInterest := principalInterest * (numberOfPayments as real) - loanAmount;
      var totalAmount := monthlyPayment * (numberOfPayments as real);
      Ok(Breakdown(monthlyPayment, principalInterest, monthlyTax, monthlyInsurance,
                   monthlyPMI, totalInterest, totalAmount, loanAmount))
  }

  /** Once validation passes the monthly rate is positive, so the even-split
      branch of PrincipalInterest is never taken by Compute. */
  lemma ZeroRateBranchUnreachable(input: LoanInput)
    requires input.loanTerm >= 1 && Compute(input).Ok?
    ensures MonthlyRate(input.interestRate) > 0.0
    ensures Compute(input).breakdown.principalInterest ==
              AnnuityPayment(Compute(input).breakdown.loanAmount, MonthlyRate(input.interestRate), input.loanTerm * 12)
  {
  }

  /** PMI is waived at 20% down or more (20% itself included) and otherwise is
      the annual PMI percentage of the loan, spread over twelve months. */
  lemma PmiRule(input: LoanInput)
    requires input.loanTerm >= 1 && Compute(input).Ok?
    ensures input.downPayment * 5.0 >= input.homePrice ==> Compute(input).breakdown.monthlyPMI == 0.0
    ensures input.downPayment * 5.0 < input.homePrice ==>
              Compute(input).breakdown.monthlyPMI * 1200.0 == Compute(input).breakdown.loanAmount * input.pmiRate
  {
    PercentThreshold(input.homePrice, input.downPayment);
  }

  /** "Less than 20% down", read without the division. */
  lemma PercentThreshold(price: real, down: real)
    requires price > 0.0
    ensures down / price * 100.0 < 20.0 <==> down * 5.0 < price
  {
    var pct := down / price * 100.0;
    assert price * pct == down * 100.0;
    ScaleStrict(price, pct, 20.0);
  }

  /** The sample case: 500000 price, 100000 down (exactly 20%), 6000 yearly tax and
      1200 yearly insurance give a 400000 loan, 500 tax, 100 insurance and no PMI. */
  lemma TwentyPercentSample()
    ensures var r := Compute(LoanInput(500000.0, 100000.0, 30, 6.5, 6000.0, 1200.0, 0.5));
            && r.Ok?
            && r.breakdown.loanAmount == 400000.0
            && r.breakdown.monthlyTax == 500.0
            && r.breakdown.monthlyInsurance == 100.0
            && r.breakdown.monthlyPMI == 0.0
  {
  }

  /** The balance still owed after k monthly payments of `payment`, when each
      month's interest at `rate` is added before the payment is taken off. */
  function Balance(loanAmount: real, rate: real, payment: real, k: nat): real
  {
    if k == 0 then loanAmount else Balance(loanAmount, rate, payment, k - 1) * (1.0 + rate) - payment
  }

  /** Closed form of the balance, multiplied through by the rate. */
  lemma {:induction false} BalanceClosedForm(loanAmount: real, rate: real, payment: real, k: nat)
    ensures Balance(loanAmount, rate, payment, k) * rate ==
              loanAmount * rate * Pow(1.0 + rate, k) - payment * (Pow(1.0 + rate, k) - 1.0)
  {
    if k > 0 {
      BalanceClosedForm(loanAmount, rate, payment, k - 1);
      ClosedFormStep(loanAmount, rate, payment,
                     Balance(loanAmount, rate, payment, k - 1), Pow(1.0 + rate, k - 1));
    }
  }

  /** One month of the closed-form induction, as plain algebra. */
  lemma ClosedFormStep(loanAmount: real, rate: real, payment: real, b: real, g: real)
    requires b * rate == loanAmount * rate * g - payment * (g - 1.0)
    ensures (b * (1.0 + rate) - payment) * rate ==
              loanAmount * rate * (g * (1.0 + rate)) - payment * (g * (1.0 + rate) - 1.0)
  {
    var br := b * rate;
    assert (b * (1.0 + rate) - payment) * rate == br * (1.0 + rate) - payment * rate;
  }

  /** With no interest the balance drops by one payment per month. */
  lemma {:induction false} BalanceWithoutInterest(loanAmount: real, payment: real, k: nat)
    ensures Balance(loanAmount, 0.0, payment, k) == loanAmount - (k as real) * payment
  {
    if k > 0 {
      BalanceWithoutInterest(loanAmount, payment, k - 1);
    }
  }

  /** The level payment pays the loan off exactly: after n payments nothing is owed. */
  lemma PaymentAmortizesLoan(loanAmount: real, rate: real, n: nat)
    requires n >= 1 && rate >= 0.0
    ensures Balance(loanAmount, rate, PrincipalInterest(loanAmount, rate, n), n) == 0.0
  {
    var payment := PrincipalInterest(loanAmount, rate, n);
    if rate > 0.0 {
      PowAtLeastOne(1.0 + rate, n);
      var g := Pow(1.0 + rate, n);
      assert payment == AnnuityPayment(loanAmount, rate, n);
      assert payment == loanAmount * (rate * g) / (g - 1.0);
      BalanceClosedForm(loanAmount, rate, payment, n);
      AnnuityLeavesNothing(loanAmount, rate, g, payment, Balance(loanAmount, rate, payment, n));
    } else {
      BalanceWithoutInterest(loanAmount, payment, n);
    }
  }

  /** The last step of the amortization proof, as plain algebra: the closed-form
      balance at the annuity payment is zero. */
  lemma AnnuityLeavesNothing(loanAmount: real, rate: real, g: real, payment: real, b: real)
    requires rate > 0.0 && g > 1.0
    requires payment == loanAmount * (rate * g) / (g - 1.0)
    requires b * rate == loanAmount * rate * g - payment * (g - 1.0)
    ensures b == 0.0
  {
    var x := loanAmount * (rate * g);
    assert payment * (g - 1.0) == x;
    assert b * rate == 0.0;
    if b > 0.0 {
      MulPos(b, rate);
    } else if b < 0.0 {
      MulPos(-b, rate);
    }
  }

  /** Bernoulli-style bound: (1+r)^n - 1 < n * r * (1+r)^n for r > 0 and n >= 1. */
  lemma {:induction false} GrowthBound(rate: real, n: nat)
    requires rate > 0.0 && n >= 1
    ensures Pow(1.0 + rate, n) - 1.0 < (n as real) * rate * Pow(1.0 + rate, n)
  {
    PowAtLeastOne(1.0 + rate, n);
    var p := Pow(1.0 + rate, n - 1);
    assert Pow(1.0 + rate, n) == (1.0 + rate) * p;
    assert ((n - 1) as real) + 1.0 == n as real;
    if n == 1 {
      assert p - 1.0 == 0.0 * rate * p;
    } else {
      GrowthBound(rate, n - 1);
    }
    GrowthStep(rate, p, (n - 1) as real);
  }

  /** One step of the growth bound, as plain algebra. */
  lemma GrowthStep(rate: real, p: real, m: real)
    requires rate > 0.0 && (1.0 + rate) * p > 1.0
    requires p - 1.0 <= m * rate * p
    ensures (1.0 + rate) * p - 1.0 < (m + 1.0) * rate * ((1.0 + rate) * p)
  {
    var g := 1.0 + rate;
    var gp, a := g * p, m * rate * p;
    ScaleStrict(g, a, p - 1.0);
    ScaleStrict(rate, 1.0, gp);
    calc {
      gp - 1.0;
      ==
      g * (p - 1.0) + rate;
      <=
      g * a + rate;
      ==
      m * rate * gp + rate;
      <
      m * rate * gp + rate * gp;
      ==
      (m + 1.0) * rate * gp;
    }
  }

  /** With a positive rate the payments add up to more than the loan. */
  lemma TotalInterestPositive(loanAmount: real, rate: real, n: nat)
    requires loanAmount > 0.0 && rate > 0.0 && n >= 1
    ensures AnnuityPayment(loanAmount, rate, n) * (n as real) > loanAmount
  {
    var g := Pow(1.0 + rate, n);
    PowAtLeastOne(1.0 + rate, n);
    GrowthBound(rate, n);
    var payment := AnnuityPayment(loanAmount, rate, n);
    var nr := n as real;
    assert payment * (g - 1.0) == loanAmount * (rate * g);
    assert g - 1.0 < nr * rate * g;
    calc {
      payment * nr * (g - 1.0);
      nr * (payment * (g - 1.0));
      nr * (loanAmount * (rate * g));
      loanAmount * (nr * rate * g);
    >  { ScaleStrict(loanAmount, g - 1.0, nr * rate * g); }
      loanAmount * (g - 1.0);
    }
    ScaleStrict(g - 1.0, loanAmount, payment * nr);
  }

  /** On success the computed payment retires the loan over the term, exceeds the
      first month's interest, and the total interest is positive. */
  lemma ComputeAmortizes(input: LoanInput)
    requires input.loanTerm >= 1 && Compute(input).Ok?
    ensures var b := Compute(input).breakdown;
            var rate := MonthlyRate(input.interestRate);
            && Balance(b.loanAmount, rate, b.principalInterest, input.loanTerm * 12) == 0.0
            && b.principalInterest > b.loanAmount * rate
            && b.totalInterest > 0.0
  {
    var b := Compute(input).breakdown;
    var rate := MonthlyRate(input.interestRate);
    var n := input.loanTerm * 12;
    PaymentAmortizesLoan(b.loanAmount, rate, n);
    TotalInterestPositive(b.loanAmount, rate, n);
  }
}
