# Retirement projection in Dafny

This project models the core of a retirement calculator, `src/calculator.py`.
Given a date of birth and a household's figures, the calculator works out two numbers:

- **the amount needed to retire.** The household's retirement expenses are inflated from today to the
  retirement date. They are then paid out as an ordinary annuity over the retirement years, discounted at
  the inflation rate.
- **the expected total savings at retirement age.** The current savings are compounded at the expected
  rate of return. To that is added one contribution per year until retirement. The first contribution is
  the household income times the savings rate, and each later one grows by the assumed salary increase.
  Each contribution compounds from its own year up to retirement.

The model has two files:

- `powers.dfy` (module `Powers`): exponentiation on exact reals, standing in for `float ** int`.
  `Pow` takes a natural exponent. `IntPow` takes an integer exponent, and a negative exponent gives the
  reciprocal.
- `calculator.dfy` (module `Calculator`):
  - the two constants `InflationRate` (0.03) and `SalaryIncreaseRate` (0.02);
  - the two time-value-of-money primitives;
  - the age rule and the two horizons;
  - the contribution series;
  - the calculation itself.

The calculation is the method `CalculateRetirementSavings`. It takes the steps of the source in the
source's order:

1. the age;
2. the horizons;
3. the inflated expenses, assigned twice as in the source;
4. the annuity;
5. the future value of the current savings;
6. the yearly loop;
7. the sum.

The method is proved equal to the function `Projection`, and the properties are proved about the function.
The yearly loop is the method `FutureValueAnnualSavings`, whose loop invariant ties the running total to
the series sum `ContributionSum`.

The result is an `Outcome`, which is one of two things:

- `Projected(amountNeededToRetire, expectedTotalSavings)`;
- `ZeroDivisionError`. Python raises this in exactly one reachable case: the retirement age has already
  passed (`years_until_retirement < 0`) and the expected rate of return is -100%. Then
  `(1 + rate) ** years_until_retirement` raises `0.0 ** -n`. The model raises it at the same point as the
  source: after the amount needed has been computed, and before the loop.

Two facts about the code shape the model:

- Every exponent in the code is an integer: the horizons are integer differences, and the loop counter is
  an integer. The lump-sum future value is therefore modelled for integer periods only, matching the
  `periods (int)` parameter of both primitives.
- The inflated expenses are computed twice with the same expression (lines 83-85 and 88-90), and the model
  keeps both assignments. `AmountNeededFactors` shows that the amount needed depends only on the expense
  figure and the two horizons, so the repetition changes nothing.

Strict monotonicity in household income holds only with extra conditions:

- at least one year before retirement and at least one in retirement;
- a positive income share;
- a positive savings rate;
- a growth factor above zero.

Without them the claim is false. For example, with zero retirement years both amounts needed are 0.
`IncomeRaisesBothFigures` therefore carries these conditions as preconditions.

## Model

| member | source | states |
|---|---|---|
| Powers.IntPow | src/calculator.py:37 | A non-negative integer power is the repeated product. A negative power times the matching positive power is one, which needs a non-zero base: Python raises ZeroDivisionError for `0.0 ** -n`. |
| Powers.IntPowPositive | src/calculator.py:37 | Every integer power of a positive base is positive. |
| Powers.IntPowInverse | src/calculator.py:37 | For a non-zero base, the powers e and -e multiply to one. |
| Calculator.PresentValueAnnuity | src/calculator.py:10-22 | The annuity formula. Rate 0 divides by zero and is excluded by the precondition. Zero periods are worth exactly 0. |
| Calculator.PresentValueIsDiscountedSum | src/calculator.py:22 | For every n >= 0 periods, the closed annuity formula equals the sum of n payments, the k-th discounted k periods. |
| Calculator.DiscountedPaymentsPositive | src/calculator.py:22 | Positive payments at a positive rate over at least one period have a positive present value. |
| Calculator.FutureValueLumpSum | src/calculator.py:25-37 | Compounding for zero periods leaves the principal unchanged. Negative periods with a zero growth factor are excluded, because Python raises there. |
| Calculator.FutureValueZeroRate | src/calculator.py:37 | At rate 0 a lump sum keeps its value for every integer number of periods. |
| Calculator.FutureValueCompose | src/calculator.py:37 | Compounding m periods and then n periods equals compounding m + n periods. |
| Calculator.FutureValueRoundTrip | src/calculator.py:37 | Compounding for k periods and then for -k periods gives back the principal. |
| Calculator.CurrentAge | src/calculator.py:68-75 | In both directions: the age is the year difference minus one exactly when today's (month, day) is before the birthday's, and the plain year difference exactly otherwise. |
| Calculator.AgeIsCompletedYears | src/calculator.py:69-75 | A number of years is the computed age if and only if that anniversary is on or before today and the next anniversary is after today. |
| Calculator.BirthdayToday | src/calculator.py:73 | A birthday that falls today counts: the age is the plain year difference. |
| Calculator.BirthdayTomorrow | src/calculator.py:73 | A birthday due tomorrow leaves the age one below the year difference. This holds both within the month and when today is a month's last day and the birthday is the first of the next month. |
| Calculator.HorizonsSplitRemainingYears | src/calculator.py:77-78 | The years until retirement and the years in retirement add up to the years from the current age to the life expectancy. The first is zero or negative exactly when the current age has reached the retirement age. |
| Calculator.AgeMonotone | src/calculator.py:69-75 | A later evaluation date never gives a smaller age. |
| Calculator.CompoundingOrder | src/calculator.py:104-108 | The contribution of year j is the salary-grown amount compounded for n - j periods. The first compounds the full horizon n. The last compounds exactly one period. |
| Calculator.ContributionSumShift | src/calculator.py:104-107 | One more year before retirement compounds every existing contribution once more. |
| Calculator.ContributionSumClosedForm | src/calculator.py:102-108 | The n contributions times (r - g) equal s(1+r)((1+r)^n - (1+g)^n). |
| Calculator.ContributionSeriesClosedForm | src/calculator.py:102-108 | The same geometric closed form, stated for the series the loop computes. |
| Calculator.ContributionSeriesEqualRates | src/calculator.py:102-108 | When salaries grow at the rate of return, the n contributions are worth n * s(1+r)^n. |
| Calculator.ContributionSumLinear | src/calculator.py:102-108 | The series is proportional to the first-year contribution. |
| Calculator.UnitContributionsPositive | src/calculator.py:102-108 | With positive growth factors, a stream of unit contributions of one or more years is positive. |
| Calculator.ContributionSeriesMonotone | src/calculator.py:102-108 | A larger first-year contribution gives a strictly larger series once there is a year to save. |
| Calculator.FutureValueAnnualSavings | src/calculator.py:102-108 | The loop runs max(0, years) times. Its total equals the series sum, which is 0 when years <= 0. The invariant: after k years the total is the sum over j < k of s(1+g)^j(1+r)^(n-j), and the current contribution is s(1+g)^k. |
| Calculator.CalculateRetirementSavings | src/calculator.py:40-113 | The step-by-step calculation equals `Projection`. It raises ZeroDivisionError exactly when the retirement age has passed and the rate of return is -100%. |
| Calculator.AmountNeededFactors | src/calculator.py:82-94 | The amount needed is the expenses times the inflation factor times a unit annuity, so computing the inflated expenses twice changes nothing. |
| Calculator.NoContributionYears | src/calculator.py:97-111 | With no years left before retirement, the expected total is the future value of the current savings alone. |
| Calculator.AmountNeededMonotone | src/calculator.py:82-94 | Strictly larger expenses need a strictly larger amount whenever there is a year of retirement. |
| Calculator.IncomeRaisesBothFigures | src/calculator.py:82-111 | A higher household income strictly raises both the amount needed and the expected total savings, under the stated conditions. |
| Calculator.PercentRaisesAmountNeeded | src/calculator.py:82-94 | A higher share of income needed in retirement strictly raises the amount needed. |
| Calculator.ProjectionPositive | src/calculator.py:82-111 | Both figures are positive under these conditions: positive income, shares and savings, a positive growth factor, and at least one year before and in retirement. |
| Calculator.ExampleScenario | src/calculator.py:40-113 | The example household is 35 on 2024-06-01. Its horizons are 30 and 25 years, both figures are positive, and needing 90% instead of 80% raises the amount needed. |

## Left out

- Entry points and presentation: `app.py`, `routes.py` and `main.py` are not part of this model. The model
  covers none of the following:
  - the HTTP query to the user-data service;
  - JSON decoding and `strptime` date parsing;
  - the division of percentages by 100;
  - rounding to the nearest thousand and the message text.
- The HTTP routing and CORS set-up, because they are framework glue.
- The clock: `datetime.now()` becomes the `today` parameter, and only its year, month and day are used.
- Floating point: all arithmetic is on exact reals. Rounding and NaN are not modelled. Neither is the
  OverflowError that Python's float `**` raises when a power overflows, for example
  `(1 + INFLATION_RATE) ** years_until_retirement` with a huge horizon: the model has no error path for it.
- Determinism is not stated separately: Dafny functions are deterministic by construction.
- Calculator.PresentValueAnnuity: domain restriction. Where Python raises ZeroDivisionError (rate 0, or a
  zero growth factor with a positive number of periods), the function has a precondition instead of an
  error value. The calculation only calls it with the fixed 3% inflation rate, where neither case arises.
- Calculator.FutureValueLumpSum: domain restriction. Negative periods with a zero growth factor are a
  precondition. The calculation checks that case first and returns `ZeroDivisionError`.
- Calculator.IncomeRaisesBothFigures: weaker than the unconditional "higher income raises both figures".
  The extra preconditions are needed because without them the claim is false, for example with zero
  retirement years.
- Calculator.FutureValueAnnualSavings: the yearly loop is a method of its own rather than inline in
  `CalculateRetirementSavings`. It has the same statements, in the same order.
