# Mortgage calculator: verified model of its computation

The calculator is a single browser script. Its one piece of real logic is
`calculateMortgage`: read seven numeric fields, run three ordered checks (the first failure
wins), then compute the loan amount, the level monthly principal-and-interest payment by the
annuity formula, monthly tax, insurance and PMI, the total monthly payment, and the totals over
the term. The second piece is `formatCurrencyInput`. It cleans the home-price, down-payment,
property-tax and home-insurance fields on every keystroke: it keeps only the digits, then
parses the result as an integer and prints it back, which drops leading zeros.

This project models both pieces as pure Dafny functions:

- `mortgage.dfy` (module `Mortgage`) models the computation. `Compute` maps an
  already-parsed `LoanInput` to either a `ValidationError` or a `Breakdown` of the eight
  figures the results panel shows. Arithmetic is over exact `real`s, with `Pow` as
  repeated multiplication.
  - The annuity payment is checked against an independent reference: `Balance`, the
    month-by-month balance recurrence (add a month's interest, subtract a payment).
    `PaymentAmortizesLoan` proves that the computed payment leaves exactly nothing owed
    after the last payment.
  - `TotalInterestPositive` proves that, at a positive rate, the payments add up to more
    than the loan.
- `currency_input.dfy` (module `CurrencyInput`) models the field sanitiser as `Sanitize`.
  It is written the way the source computes it: keep the digits, then take the decimal text
  of their value (`NatToDecimal(DigitsValue(d))`).
  - `SanitizeStripsLeadingZeros` proves that this equals "strip leading zeros, leaving `0`
    when only zeros were typed".
  - `SanitizeIdempotent` proves that sanitising twice is the same as sanitising once.
- `real_arith.dfy` (module `RealArith`) holds two facts about multiplying reals that the
  proofs use.

Two points about the code's validation, which the model keeps as they are:

- The interest-rate error is reported only when the home-price and down-payment checks have
  already passed. `Compute` states this order.
- The code does not reject a negative down payment, tax or insurance amount, and neither
  does the model.

## Model

| member | source | states |
|---|---|---|
| `Mortgage.OrDefault` | mortgage-calculator/script.js:112-118 | the "parsed or default" fallback, for the real fields (zero 0, default 0) and the integer term (zero 0, default 30): NaN and zero both give the default, any other parsed number passes through, and a non-zero default never yields zero |
| `Mortgage.Pow` | mortgage-calculator/script.js:149-150 | the power used by the annuity formula, by repeated multiplication: positive for a positive base, and 1 for base 1 |
| `Mortgage.PowAtLeastOne` | mortgage-calculator/script.js:149-150 | the growth factor (1+r)^n is at least 1, and above 1 for r > 0 and n >= 1, so the annuity denominator is positive |
| `Mortgage.MonthlyRate` | mortgage-calculator/script.js:140 | the monthly rate is positive exactly when the annual percentage is positive |
| `Mortgage.AnnuityPayment` | mortgage-calculator/script.js:147-150 | the annuity formula is well defined for a positive rate and at least one payment, and for a positive loan the payment exceeds the first month's interest |
| `Mortgage.PrincipalInterest` | mortgage-calculator/script.js:146-153 | with a non-positive rate the payments add back to the loan exactly (payment * n == loan); with a positive rate and loan the payment exceeds one month's interest |
| `Mortgage.Compute` | mortgage-calculator/script.js:109-173 | a non-positive price gives the home-price error whatever else holds; a positive price with down >= price gives the down-payment error whatever the rate; the interest-rate error occurs exactly when both earlier checks pass and rate <= 0; success exactly when all three pass; on success the loan is price - down and positive, tax and insurance are the yearly figures over 12, the monthly payment is the sum of its four parts, total amount is monthly payment * n and total interest is principal-and-interest * n - loan |
| `Mortgage.ZeroRateBranchUnreachable` | mortgage-calculator/script.js:131-153 | in exact arithmetic, once validation passes the monthly rate is positive, so the computed principal-and-interest is always the annuity payment and the even-split branch is dead |
| `Mortgage.PercentThreshold` | mortgage-calculator/script.js:162-163 | the down-payment percentage is below 20 exactly when down * 5 < price |
| `Mortgage.PmiRule` | mortgage-calculator/script.js:162-164 | on success PMI is 0 whenever the down payment is at least 20% of the price, 20% itself included, and otherwise is loan * annual PMI percentage / 1200 |
| `Mortgage.TwentyPercentSample` | mortgage-calculator/script.js:137-164 | the sample 500000 / 100000 / 30 years / 6.5% / 6000 / 1200 / 0.5% succeeds with loan 400000, tax 500, insurance 100 and no PMI at exactly 20% down |
| `Mortgage.BalanceClosedForm` | mortgage-calculator/script.js:146-150 | after k payments the balance times the rate equals loan * r * (1+r)^k - payment * ((1+r)^k - 1) |
| `Mortgage.BalanceWithoutInterest` | mortgage-calculator/script.js:151-153 | at rate 0 each payment lowers the balance by its amount |
| `Mortgage.PaymentAmortizesLoan` | mortgage-calculator/script.js:146-153 | for any rate >= 0 and n >= 1 the computed payment leaves a balance of exactly 0 after n months |
| `Mortgage.GrowthBound` | mortgage-calculator/script.js:149-150 | (1+r)^n - 1 < n * r * (1+r)^n for r > 0 and n >= 1 |
| `Mortgage.TotalInterestPositive` | mortgage-calculator/script.js:147-170 | at a positive rate the n annuity payments sum to more than the loan |
| `Mortgage.ComputeAmortizes` | mortgage-calculator/script.js:137-170 | on success the computed payment retires the loan over the term, exceeds the first month's interest, and total interest is positive |
| `CurrencyInput.DigitValue` | mortgage-calculator/script.js:103 | a digit denotes a value below 10 |
| `CurrencyInput.DigitChar` | mortgage-calculator/script.js:103 | printing a digit value gives a digit that reads back as that value |
| `CurrencyInput.KeepDigits` | mortgage-calculator/script.js:99 | the result holds only '0'-'9', is no longer than the input, is empty exactly when the input has no digit, and leaves an all-digit input unchanged |
| `CurrencyInput.KeepDigitsAppend` | mortgage-calculator/script.js:99 | removing non-digits from a concatenation is the concatenation of the two filtered parts |
| `CurrencyInput.KeepDigitsSingle` | mortgage-calculator/script.js:99 | a single character survives exactly when it is a digit; with `KeepDigitsAppend` this fixes the filter on every string: every digit kept, in order, nothing else |
| `CurrencyInput.DigitsValue` | mortgage-calculator/script.js:103 | integer parsing of a digit string: the value is 0 exactly when every digit is '0' |
| `CurrencyInput.NatToDecimal` | mortgage-calculator/script.js:103 | a number prints as canonical text (non-empty, digits only, no leading zero except "0"), starting with '0' exactly for 0 |
| `CurrencyInput.DecimalRoundTrip` | mortgage-calculator/script.js:103 | parsing the printed text of n gives n back |
| `CurrencyInput.LeadingNonZero` | mortgage-calculator/script.js:103 | a digit string that does not start with '0' denotes a positive number |
| `CurrencyInput.CanonicalFixedPoint` | mortgage-calculator/script.js:101-104 | printing the value of canonical text gives the same text back, so parse-then-print leaves canonical text alone |
| `CurrencyInput.LeadingZeroValue` | mortgage-calculator/script.js:101-104 | a leading '0' does not change the value of a digit string |
| `CurrencyInput.StripLeadingZeros` | mortgage-calculator/script.js:101-104 | the result is a suffix of the input, everything cut off is '0', and it does not start with '0' |
| `CurrencyInput.StripKeepsValue` | mortgage-calculator/script.js:101-104 | stripping leading zeros keeps a digit string's value |
| `CurrencyInput.Sanitize` | mortgage-calculator/script.js:97-107 | the new field text holds only digits; it is empty exactly when the input has no digit; otherwise it is canonical and has the same value as the digits typed |
| `CurrencyInput.SanitizeStripsLeadingZeros` | mortgage-calculator/script.js:99-104 | parse-then-print equals "keep the digits, drop the leading zeros, and leave "0" if only zeros remain" |
| `CurrencyInput.SanitizeIdempotent` | mortgage-calculator/script.js:99-106 | sanitising already-sanitised text changes nothing |

## Left out

- The browser side is not modelled: element lookup, event binding, touch and zoom handling,
  the injected animation styles, `showError`, `clearError`, `resetCalculator` and the
  animated `updateResults`. None of it computes anything. The model returns the error kind
  or the figures instead of writing them to the page.
- `formatCurrency` is not modelled. It only delegates to the browser's number-formatting
  library.
- `setDownPaymentByPercentage` is not modelled. It reads the page and the global event
  object, and it rounds a float.
- Floating point is not modelled. The model computes with exact reals, so it does not
  reproduce rounded results such as the sample's monthly principal and interest of about
  2528.27, or the rounding of `Math.pow`. Two double-precision effects fall outside it, and
  there `ZeroRateBranchUnreachable`, `PaymentAmortizesLoan` and `ComputeAmortizes` do not
  describe the program. A tiny positive rate such as 1e-322 underflows to a monthly rate of
  0, so the even-split branch is taken. A rate such as 1e-14 makes `1 + r` round to 1, so
  the annuity denominator is 0 and the payment is Infinity.
- Compute: takes already-parsed numbers. The text-to-number parsing of each field is not
  modelled. Only the "parsed or default" fallback after parsing is modelled, separately, as
  `OrDefault`.
- Compute: requires a term of at least one year. In the page the term comes from a fixed
  list of choices. The term's fallback replaces only NaN and 0 with 30, so a negative parsed
  term would reach the computation; the model does not cover that case.
- The `try`/`catch` around the computation is not modelled. Exact arithmetic raises nothing
  there.
- Sanitize: models integer parsing as exact. Very long digit strings behave differently in
  the browser, and there the model does not describe the program. From 22 digits on (values
  of 1e21 or more) the number prints in exponent notation, such as "1e+21". That text is not
  digits only and is not canonical, so those clauses of `Sanitize` fail. A second pass turns
  it into "121", so `SanitizeIdempotent` fails too. Above 2^53 the parsed value is rounded:
  "9007199254740993" becomes "9007199254740992". So the "same value as the digits typed"
  clause of `Sanitize` fails there.
