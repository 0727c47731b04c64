/**
 * The retirement projection: two time-value-of-money primitives, the age and
 * horizon rule, and the projection that combines them into the amount needed
 * to retire and the savings expected at retirement age.
 *
 * Amounts and rates are exact reals; the clock is an explicit `today`.
 */
module Calculator {
  import opened Powers

  /** Annual inflation, also the discount rate of the retirement annuity. */
  const InflationRate: real := 0.03
  /** Annual growth of the yearly contribution. */
  const SalaryIncreaseRate: real := 0.02

  // ---------------------------------------------------------------------
  // Time-value-of-money primitives
  // ---------------------------------------------------------------------

  /**
   * Present value of an ordinary annuity of `periods` equal payments,
   * payment * (1 - (1 + rate)^-periods) / rate.
   */
  function PresentValueAnnuity(payment: real, rate: real, periods: int): (pv: real)
    requires rate != 0.0
    requires periods > 0 ==> 1.0 + rate != 0.0
    ensures periods == 0 ==> pv == 0.0
  {
    payment * ((1.0 - IntPow(1.0 + rate, -periods)) / rate)
  }

  /** Future value of a single amount compounded for `periods` periods. */
  function FutureValueLumpSum(principal: real, rate: real, periods: int): (fv: real)
    requires periods < 0 ==> 1.0 + rate != 0.0
    ensures periods == 0 ==> fv == principal
  {
    principal * IntPow(1.0 + rate, periods)
  }

  /** Reference definition: the sum of `n` payments, the k-th discounted k periods. */
  function DiscountedPayments(payment: real, rate: real, n: nat): real
    requires 1.0 + rate != 0.0
  {
    if n == 0 then 0.0
    else
      PowNonZero(1.0 + rate, n);
      DiscountedPayments(payment, rate, n - 1) + payment / Pow(1.0 + rate, n)
  }

  /** One more period of the annuity formula adds one more discounted unit. */
  lemma AnnuityStep(w: real, r: real, q: real)
    requires w == 1.0 + r && w != 0.0 && r != 0.0 && q != 0.0
    ensures (1.0 - 1.0 / (w * q)) / r == (1.0 - 1.0 / q) / r + 1.0 / (w * q)
  {
  }

  /**
   * The annuity formula equals the sum of the discounted payments, for every
   * non-negative number of periods.
   */
  lemma {:induction false} PresentValueIsDiscountedSum(payment: real, rate: real, n: nat)
    requires rate != 0.0 && 1.0 + rate != 0.0
    ensures PresentValueAnnuity(payment, rate, n) == DiscountedPayments(payment, rate, n)
  {
    var w := 1.0 + rate;
    if n > 0 {
      PresentValueIsDiscountedSum(payment, rate, n - 1);
      var q := Pow(w, n - 1);
      assert Pow(w, n) == w * q;
      assert IntPow(w, -(n as int)) == 1.0 / (w * q);
      assert n - 1 == 0 ==> q == 1.0;
      assert IntPow(w, -((n - 1) as int)) == 1.0 / q;
      AnnuityStep(w, rate, q);
      calc {
        PresentValueAnnuity(payment, rate, n);
        payment * ((1.0 - 1.0 / (w * q)) / rate);
        payment * ((1.0 - 1.0 / q) / rate) + payment * (1.0 / (w * q));
        PresentValueAnnuity(payment, rate, n - 1) + payment / Pow(w, n);
      }
    }
  }

  /** Positive payments at a positive rate have a positive present value. */
  lemma {:induction false} DiscountedPaymentsPositive(payment: real, rate: real, n: nat)
    requires payment > 0.0 && rate > 0.0 && n > 0
    ensures DiscountedPayments(payment, rate, n) > 0.0
  {
    if n > 1 {
      DiscountedPaymentsPositive(payment, rate, n - 1);
    }
    PowPositive(1.0 + rate, n);
  }

  /** Without growth a lump sum keeps its value, whatever the number of periods. */
  lemma FutureValueZeroRate(principal: real, periods: int)
    ensures FutureValueLumpSum(principal, 0.0, periods) == principal
  {
    IntPowOfOne(periods);
  }

  /** Compounding for m periods and then for n more is compounding for m + n. */
  lemma FutureValueCompose(principal: real, rate: real, m: nat, n: nat)
    ensures FutureValueLumpSum(FutureValueLumpSum(principal, rate, m), rate, n)
         == FutureValueLumpSum(principal, rate, m + n)
  {
    PowAdd(1.0 + rate, m, n);
  }

  /** Discounting a future value by the same number of periods gives back the principal. */
  lemma FutureValueRoundTrip(principal: real, rate: real, periods: int)
    requires 1.0 + rate != 0.0
    ensures FutureValueLumpSum(FutureValueLumpSum(principal, rate, periods), rate, -periods)
         == principal
  {
  }

  // ---------------------------------------------------------------------
  // Age and horizons
  // ---------------------------------------------------------------------

  /** A calendar date, as the year, month and day fields of a datetime. */
  datatype Date = Date(year: int, month: int, day: int)

  /** Python's lexicographic comparison of (month, day) pairs. */
  predicate MonthDayBefore(m1: int, d1: int, m2: int, d2: int) {
    m1 < m2 || (m1 == m2 && d1 < d2)
  }

  /** The birthday of `dob` has not come yet in the year of `today`. */
  predicate BirthdayNotYetReached(today: Date, dob: Date) {
    MonthDayBefore(today.month, today.day, dob.month, dob.day)
  }

  /**
   * Age in whole years: the difference of the years, one less while this
   * year's birthday has not come.
   */
  function CurrentAge(today: Date, dob: Date): (age: int)
    ensures BirthdayNotYetReached(today, dob) <==> age == today.year - dob.year - 1
    ensures !BirthdayNotYetReached(today, dob) <==> age == today.year - dob.year
  {
    today.year - dob.year - (if BirthdayNotYetReached(today, dob) then 1 else 0)
  }

  /** Date order: years first, then months, then days. */
  predicate OnOrBefore(a: Date, b: Date) {
    a.year < b.year || (a.year == b.year && !MonthDayBefore(b.month, b.day, a.month, a.day))
  }

  /** The date on which someone born on `dob` turns `years` old. */
  function Anniversary(dob: Date, years: int): Date {
    Date(dob.year + years, dob.month, dob.day)
  }

  /** Reference definition of age: `years` is an age reached by `today` and the next one is not. */
  predicate IsCompletedYears(today: Date, dob: Date, years: int) {
    OnOrBefore(Anniversary(dob, years), today) && !OnOrBefore(Anniversary(dob, years + 1), today)
  }

  /** The age rule yields exactly the number of completed years, and no other number does. */
  lemma AgeIsCompletedYears(today: Date, dob: Date, years: int)
    ensures IsCompletedYears(today, dob, years) <==> years == CurrentAge(today, dob)
  {
  }

  /** A birthday that falls today counts: the age is the plain year difference. */
  lemma BirthdayToday(today: Date, dob: Date)
    requires dob.month == today.month && dob.day == today.day
    ensures CurrentAge(today, dob) == today.year - dob.year
  {
  }

  /**
   * A birthday due tomorrow, in the same month or on the first of the next
   * month, leaves the age one below the year difference.
   */
  lemma BirthdayTomorrow(today: Date, dob: Date)
    requires (dob.month == today.month && dob.day == today.day + 1)
          || (dob.month == today.month + 1 && dob.day == 1)
    ensures CurrentAge(today, dob) == today.year - dob.year - 1
  {
  }

  /** Age never decreases as time moves forward. */
  lemma AgeMonotone(t1: Date, t2: Date, dob: Date)
    requires OnOrBefore(t1, t2)
    ensures CurrentAge(t1, dob) <= CurrentAge(t2, dob)
  {
  }

  /** The caller-supplied figures of one calculation. */
  datatype Inputs = Inputs(
    dateOfBirth: Date,
    householdIncome: real,
    currentSavingsRate: real,
    currentRetirementSavings: real,
    preRetirementIncomePercent: real,
    lifeExpectancy: int,
    expectedRateOfReturn: real,
    retirementAge: int)

  /** Years left before retirement; negative once the retirement age is passed. */
  function YearsUntilRetirement(today: Date, p: Inputs): int {
    p.retirementAge - CurrentAge(today, p.dateOfBirth)
  }

  /** Length of the retirement annuity. */
  function YearsInRetirement(p: Inputs): int {
    p.lifeExpectancy - p.retirementAge
  }

  /**
   * The two horizons split the years from the current age to the life
   * expectancy at the retirement age, and the first is zero or negative
   * exactly when the retirement age has been reached.
   */
  lemma HorizonsSplitRemainingYears(today: Date, p: Inputs)
    ensures YearsUntilRetirement(today, p) + YearsInRetirement(p)
         == p.lifeExpectancy - CurrentAge(today, p.dateOfBirth)
    ensures YearsUntilRetirement(today, p) <= 0 <==> CurrentAge(today, p.dateOfBirth) >= p.retirementAge
  {
  }

  // ---------------------------------------------------------------------
  // The growing contribution series
  // ---------------------------------------------------------------------

  /**
   * The contribution of year j of an n-year horizon valued at retirement:
   * the first-year amount s grown j times by salary and compounded n - j times.
   */
  function ContributionTerm(s: real, g: real, r: real, n: nat, j: nat): real
    requires j <= n
  {
    s * Pow(1.0 + g, j) * Pow(1.0 + r, n - j)
  }

  /** The contributions of years 0 .. k-1 of an n-year horizon, valued at retirement. */
  function ContributionSum(s: real, g: real, r: real, n: nat, k: nat): real
    requires k <= n
  {
    if k == 0 then 0.0
    else ContributionSum(s, g, r, n, k - 1) + ContributionTerm(s, g, r, n, k - 1)
  }

  /** The whole series; a horizon that is zero or negative has no contribution years. */
  function ContributionSeries(s: real, g: real, r: real, n: int): real {
    if n <= 0 then 0.0 else ContributionSum(s, g, r, n, n)
  }

  /** Each contribution is the salary-grown amount compounded from its year to retirement. */
  lemma CompoundingOrder(s: real, g: real, r: real, n: nat, j: nat)
    requires j < n
    ensures ContributionTerm(s, g, r, n, j) == FutureValueLumpSum(s * Pow(1.0 + g, j), r, n - j)
    ensures ContributionTerm(s, g, r, n, 0) == FutureValueLumpSum(s, r, n)
    ensures ContributionTerm(s, g, r, n, n - 1) == FutureValueLumpSum(s * Pow(1.0 + g, n - 1), r, 1)
  {
    TermIsFutureValue(s, g, r, n, j);
    TermIsFutureValue(s, g, r, n, 0);
    assert s * Pow(1.0 + g, 0) == s;
    LastTermIsFutureValue(s, g, r, n);
  }

  /** The last contribution compounds for exactly one period. */
  lemma LastTermIsFutureValue(s: real, g: real, r: real, n: nat)
    requires n > 0
    ensures ContributionTerm(s, g, r, n, n - 1) == FutureValueLumpSum(s * Pow(1.0 + g, n - 1), r, 1)
  {
    var x := s * Pow(1.0 + g, n - 1);
    assert ContributionTerm(s, g, r, n, n - 1) == x * Pow(1.0 + r, 1);
    assert FutureValueLumpSum(x, r, 1) == x * Pow(1.0 + r, 1);
    assert s * Pow(1.0 + g, n - 1) == x;
  }

  /** A term of the series is its salary-grown amount compounded from its year to retirement. */
  lemma TermIsFutureValue(s: real, g: real, r: real, n: nat, j: nat)
    requires j < n
    ensures ContributionTerm(s, g, r, n, j) == FutureValueLumpSum(s * Pow(1.0 + g, j), r, n - j)
  {
    var x := s * Pow(1.0 + g, j);
    var e: int := n - j;
    assert FutureValueLumpSum(x, r, e) == x * Pow(1.0 + r, e);
    assert FutureValueLumpSum(x, r, n - j) == FutureValueLumpSum(x, r, e);
    assert s * Pow(1.0 + g, j) == x;
    assert FutureValueLumpSum(s * Pow(1.0 + g, j), r, e) == FutureValueLumpSum(x, r, e);
  }

  /** One more year before retirement compounds a contribution once more. */
  lemma TermShift(s: real, g: real, r: real, n: nat, j: nat)
    requires j <= n
    ensures ContributionTerm(s, g, r, n + 1, j) == (1.0 + r) * ContributionTerm(s, g, r, n, j)
  {
  }

  /** Lengthening the horizon by one year compounds every existing contribution once more. */
  lemma {:induction false} ContributionSumShift(s: real, g: real, r: real, n: nat, k: nat)
    requires k <= n
    ensures ContributionSum(s, g, r, n + 1, k) == (1.0 + r) * ContributionSum(s, g, r, n, k)
  {
    if k > 0 {
      ContributionSumShift(s, g, r, n, k - 1);
      TermShift(s, g, r, n, k - 1);
    }
  }

  /** The series over n years, in terms of the series over n - 1 years. */
  lemma NextHorizon(s: real, g: real, r: real, n: nat)
    requires n > 0
    ensures ContributionSum(s, g, r, n, n)
         == (1.0 + r) * ContributionSum(s, g, r, n - 1, n - 1) + s * Pow(1.0 + g, n - 1) * (1.0 + r)
  {
    ContributionSumShift(s, g, r, n - 1, n - 1);
    assert Pow(1.0 + r, 1) == 1.0 + r;
  }

  /** Closed form of the sum of all n contributions (see ContributionSeriesClosedForm). */
  lemma {:induction false} ContributionSumClosedForm(s: real, g: real, r: real, n: nat)
    ensures ContributionSum(s, g, r, n, n) * (r - g)
         == s * (1.0 + r) * (Pow(1.0 + r, n) - Pow(1.0 + g, n))
  {
    if n > 0 {
      ContributionSumClosedForm(s, g, r, n - 1);
      ClosedFormStep(s, g, r, n);
    }
  }

  /** One induction step of ContributionSumClosedForm: from horizon n - 1 to horizon n. */
  lemma ClosedFormStep(s: real, g: real, r: real, n: nat)
    requires n > 0
    requires ContributionSum(s, g, r, n - 1, n - 1) * (r - g)
          == s * (1.0 + r) * (Pow(1.0 + r, n - 1) - Pow(1.0 + g, n - 1))
    ensures ContributionSum(s, g, r, n, n) * (r - g)
         == s * (1.0 + r) * (Pow(1.0 + r, n) - Pow(1.0 + g, n))
  {
    NextHorizon(s, g, r, n);
    GeometricStep(s, g, r, ContributionSum(s, g, r, n - 1, n - 1), Pow(1.0 + g, n - 1), Pow(1.0 + r, n - 1),
                  ContributionSum(s, g, r, n, n), Pow(1.0 + g, n), Pow(1.0 + r, n));
  }

  /** The algebra of one induction step of the closed form. */
  lemma GeometricStep(s: real, g: real, r: real, t: real, pa: real, pb: real, u: real, qa: real, qb: real)
    requires t * (r - g) == s * (1.0 + r) * (pb - pa)
    requires u == (1.0 + r) * t + s * pa * (1.0 + r)
    requires qa == (1.0 + g) * pa && qb == (1.0 + r) * pb
    ensures u * (r - g) == s * (1.0 + r) * (qb - qa)
  {
  }

  /**
   * Closed form of the growing series (a geometric sum):
   * series * (r - g) == s * (1 + r) * ((1 + r)^n - (1 + g)^n).
   */
  lemma ContributionSeriesClosedForm(s: real, g: real, r: real, n: nat)
    ensures ContributionSeries(s, g, r, n) * (r - g)
         == s * (1.0 + r) * (Pow(1.0 + r, n) - Pow(1.0 + g, n))
  {
    ContributionSumClosedForm(s, g, r, n);
    var t := ContributionSum(s, g, r, n, n);
    assert ContributionSeries(s, g, r, n) == t;
    assert ContributionSeries(s, g, r, n) * (r - g) == t * (r - g);
  }

  /** When salary grows at the rate of return, every contribution is worth s(1+r)^n at retirement. */
  lemma EqualRatesTerm(s: real, r: real, n: nat, j: nat)
    requires j <= n
    ensures ContributionTerm(s, r, r, n, j) == s * Pow(1.0 + r, n)
  {
    var a := Pow(1.0 + r, j);
    var b := Pow(1.0 + r, n - j);
    PowAdd(1.0 + r, j, n - j);
    assert j + (n - j) == n;
    assert Pow(1.0 + r, n) == a * b;
    assert s * a * b == s * (a * b);
  }

  /** When salary grows at the rate of return, the first k contributions are worth k * s(1+r)^n. */
  lemma {:induction false} ContributionSumEqualRates(s: real, r: real, n: nat, k: nat)
    requires k <= n
    ensures ContributionSum(s, r, r, n, k) == (k as real) * (s * Pow(1.0 + r, n))
  {
    if k > 0 {
      ContributionSumEqualRates(s, r, n, k - 1);
      EqualRatesTerm(s, r, n, k - 1);
    }
  }

  /** The series form of ContributionSumEqualRates: n contributions worth s(1+r)^n each. */
  lemma ContributionSeriesEqualRates(s: real, r: real, n: nat)
    ensures ContributionSeries(s, r, r, n) == (n as real) * (s * Pow(1.0 + r, n))
  {
    ContributionSumEqualRates(s, r, n, n);
  }

  /** The series is proportional to the first-year contribution. */
  lemma {:induction false} ContributionSumLinear(s: real, g: real, r: real, n: nat, k: nat)
    requires k <= n
    ensures ContributionSum(s, g, r, n, k) == s * ContributionSum(1.0, g, r, n, k)
  {
    if k > 0 {
      ContributionSumLinear(s, g, r, n, k - 1);
      assert ContributionTerm(s, g, r, n, k - 1) == s * ContributionTerm(1.0, g, r, n, k - 1);
    }
  }

  /** With positive growth factors, a unit contribution stream has positive value. */
  lemma {:induction false} UnitContributionsPositive(g: real, r: real, n: nat, k: nat)
    requires 1.0 + g > 0.0 && 1.0 + r > 0.0 && 0 < k <= n
    ensures ContributionSum(1.0, g, r, n, k) > 0.0
  {
    if k > 1 {
      UnitContributionsPositive(g, r, n, k - 1);
    }
    var j := k - 1;
    PowPositive(1.0 + g, j);
    PowPositive(1.0 + r, n - j);
    assert Pow(1.0 + g, j) * Pow(1.0 + r, n - j) > 0.0;
  }

  // ---------------------------------------------------------------------
  // The projection
  // ---------------------------------------------------------------------

  /** Result of one calculation: the two figures, or the arithmetic error Python raises. */
  datatype Outcome =
    | Projected(amountNeededToRetire: real, expectedTotalSavings: real)
    | ZeroDivisionError

  /** Yearly spending assumed in retirement, in today's money. */
  function AnnualRetirementExpenses(p: Inputs): real {
    p.householdIncome * p.preRetirementIncomePercent
  }

  /** The contribution of the first year; later years grow it by the salary increase. */
  function AnnualSavings(p: Inputs): real {
    p.householdIncome * p.currentSavingsRate
  }

  /**
   * Lump sum needed at retirement: expenses inflated to the retirement date,
   * paid for the retirement years and discounted at the inflation rate.
   */
  function AmountNeededToRetire(annualExpenses: real, yearsUntil: int, yearsIn: int): real {
    PresentValueAnnuity(annualExpenses * IntPow(1.0 + InflationRate, yearsUntil),
                        InflationRate, yearsIn)
  }

  /** Current savings compounded to retirement plus the growing contribution series. */
  function ExpectedTotalSavings(p: Inputs, yearsUntil: int): real
    requires yearsUntil < 0 ==> 1.0 + p.expectedRateOfReturn != 0.0
  {
    FutureValueLumpSum(p.currentRetirementSavings, p.expectedRateOfReturn, yearsUntil)
    + ContributionSeries(AnnualSavings(p), SalaryIncreaseRate, p.expectedRateOfReturn, yearsUntil)
  }

  /** What one calculation evaluates to on `today`. */
  function Projection(today: Date, p: Inputs): Outcome {
    var yearsUntil := YearsUntilRetirement(today, p);
    var yearsIn := YearsInRetirement(p);
    if yearsUntil < 0 && 1.0 + p.expectedRateOfReturn == 0.0 then ZeroDivisionError
    else Projected(AmountNeededToRetire(AnnualRetirementExpenses(p), yearsUntil, yearsIn),
                   ExpectedTotalSavings(p, yearsUntil))
  }

  /**
   * The calculation step by step: age, horizons, inflated expenses, the
   * annuity, then the yearly loop over contributions.
   */
  method CalculateRetirementSavings(today: Date, p: Inputs) returns (out: Outcome)
    ensures out == Projection(today, p)
    ensures out.ZeroDivisionError?
        <==> YearsUntilRetirement(today, p) < 0 && p.expectedRateOfReturn == -1.0
  {
    var currentAge := today.year - p.dateOfBirth.year
      - (if MonthDayBefore(today.month, today.day, p.dateOfBirth.month, p.dateOfBirth.day) then 1 else 0);
    var yearsUntil := p.retirementAge - currentAge;
    var yearsIn := p.lifeExpectancy - p.retirementAge;

    var annualExpenses := p.householdIncome * p.preRetirementIncomePercent;
    var adjustedExpenses := annualExpenses * IntPow(1.0 + InflationRate, yearsUntil);
    adjustedExpenses := annualExpenses * IntPow(1.0 + InflationRate, yearsUntil);
    var amountNeeded := PresentValueAnnuity(adjustedExpenses, InflationRate, yearsIn);

    if yearsUntil < 0 && 1.0 + p.expectedRateOfReturn == 0.0 {
      // (1 + rate) ** years_until_retirement with a zero base and a negative exponent
      assert yearsUntil == YearsUntilRetirement(today, p);
      return ZeroDivisionError;
    }
    var fvCurrentSavings := FutureValueLumpSum(p.currentRetirementSavings, p.expectedRateOfReturn, yearsUntil);

    var annualSavings := p.householdIncome * p.currentSavingsRate;
    var fvAnnualSavings := FutureValueAnnualSavings(annualSavings, p.expectedRateOfReturn, yearsUntil);
    assert annualSavings == AnnualSavings(p);
    assert currentAge == CurrentAge(today, p.dateOfBirth);
    assert yearsUntil == YearsUntilRetirement(today, p) && yearsIn == YearsInRetirement(p);
    assert annualExpenses == AnnualRetirementExpenses(p);
    assert amountNeeded == AmountNeededToRetire(AnnualRetirementExpenses(p), yearsUntil, yearsIn);
    assert fvCurrentSavings + fvAnnualSavings == ExpectedTotalSavings(p, yearsUntil);

    out := Projected(amountNeeded, fvCurrentSavings + fvAnnualSavings);
  }

  /**
   * The yearly loop: `years` contributions, each grown by the salary increase
   * over the one before and compounded from its year to retirement.
   */
  method FutureValueAnnualSavings(annualSavings: real, rate: real, years: int) returns (total: real)
    ensures total == ContributionSeries(annualSavings, SalaryIncreaseRate, rate, years)
  {
    var savings := annualSavings;
    total := 0.0;
    var count: nat := if years > 0 then years else 0;
    for year := 0 to count
      invariant savings == annualSavings * Pow(1.0 + SalaryIncreaseRate, year)
      invariant total == ContributionSum(annualSavings, SalaryIncreaseRate, rate, count, year)
    {
      assert years - year == count - year;
      ContributionOfYear(annualSavings, savings, rate, count, year);
      total := total + FutureValueLumpSum(savings, rate, years - year);
      GrowOneYear(annualSavings, savings, year);
      savings := savings * (1.0 + SalaryIncreaseRate);
    }
  }

  /** The amount saved in year j, compounded to retirement, is the j-th term of the series. */
  lemma ContributionOfYear(s: real, annual: real, r: real, n: nat, j: nat)
    requires j < n && annual == s * Pow(1.0 + SalaryIncreaseRate, j)
    ensures FutureValueLumpSum(annual, r, n - j) == ContributionTerm(s, SalaryIncreaseRate, r, n, j)
  {
  }

  /** One salary increase takes the year-k contribution to the year-(k+1) one. */
  lemma GrowOneYear(s: real, annual: real, k: nat)
    requires annual == s * Pow(1.0 + SalaryIncreaseRate, k)
    ensures annual * (1.0 + SalaryIncreaseRate) == s * Pow(1.0 + SalaryIncreaseRate, k + 1)
  {
  }

  // ---------------------------------------------------------------------
  // Properties of the projection
  // ---------------------------------------------------------------------

  /**
   * The amount needed is the inflated expenses times the annuity factor of the
   * retirement years; computing the inflated expenses once or twice is the same.
   */
  lemma AmountNeededFactors(annualExpenses: real, yearsUntil: int, yearsIn: int)
    ensures AmountNeededToRetire(annualExpenses, yearsUntil, yearsIn)
         == annualExpenses * (IntPow(1.0 + InflationRate, yearsUntil)
                              * PresentValueAnnuity(1.0, InflationRate, yearsIn))
  {
  }

  /** With no years left before retirement only the current savings count. */
  lemma NoContributionYears(today: Date, p: Inputs)
    requires YearsUntilRetirement(today, p) <= 0
    requires Projection(today, p).Projected?
    ensures Projection(today, p).expectedTotalSavings
         == FutureValueLumpSum(p.currentRetirementSavings, p.expectedRateOfReturn,
                               YearsUntilRetirement(today, p))
  {
  }

  /** More expenses need strictly more savings whenever the retirement lasts a year or more. */
  lemma AmountNeededMonotone(e1: real, e2: real, yearsUntil: int, yearsIn: int)
    requires e1 < e2 && yearsIn > 0
    ensures AmountNeededToRetire(e1, yearsUntil, yearsIn) < AmountNeededToRetire(e2, yearsUntil, yearsIn)
  {
    var f := IntPow(1.0 + InflationRate, yearsUntil);
    PresentValueIsDiscountedSum(1.0, InflationRate, yearsIn);
    DiscountedPaymentsPositive(1.0, InflationRate, yearsIn);
    var u := PresentValueAnnuity(1.0, InflationRate, yearsIn);
    IntPowPositive(1.0 + InflationRate, yearsUntil);
    AmountNeededFactors(e1, yearsUntil, yearsIn);
    AmountNeededFactors(e2, yearsUntil, yearsIn);
    ScaleByPositive(e1, e2, f * u);
  }

  /** Multiplying by a positive factor keeps a strict order. */
  lemma ScaleByPositive(x: real, y: real, c: real)
    requires x < y && c > 0.0
    ensures x * c < y * c
  {
  }

  /** A larger first-year contribution gives a strictly larger series once there is a year to save. */
  lemma ContributionSeriesMonotone(s1: real, s2: real, r: real, n: int)
    requires s1 < s2 && n > 0 && 1.0 + r > 0.0
    ensures ContributionSeries(s1, SalaryIncreaseRate, r, n) < ContributionSeries(s2, SalaryIncreaseRate, r, n)
  {
    ContributionSumLinear(s1, SalaryIncreaseRate, r, n, n);
    ContributionSumLinear(s2, SalaryIncreaseRate, r, n, n);
    UnitContributionsPositive(SalaryIncreaseRate, r, n, n);
  }

  /**
   * A higher household income (all else fixed) raises both figures, given a
   * positive income share in retirement, a positive savings rate, a growth
   * factor above zero and at least one year both before and in retirement.
   */
  lemma IncomeRaisesBothFigures(today: Date, p: Inputs, income: real)
    requires p.householdIncome < income
    requires p.preRetirementIncomePercent > 0.0 && p.currentSavingsRate > 0.0
    requires 1.0 + p.expectedRateOfReturn > 0.0
    requires YearsUntilRetirement(today, p) > 0 && YearsInRetirement(p) > 0
    ensures Projection(today, p).Projected? && Projection(today, p.(householdIncome := income)).Projected?
    ensures Projection(today, p).amountNeededToRetire
          < Projection(today, p.(householdIncome := income)).amountNeededToRetire
    ensures Projection(today, p).expectedTotalSavings
          < Projection(today, p.(householdIncome := income)).expectedTotalSavings
  {
    var q := p.(householdIncome := income);
    var n := YearsUntilRetirement(today, p);
    assert YearsUntilRetirement(today, q) == n && YearsInRetirement(q) == YearsInRetirement(p);
    assert AnnualRetirementExpenses(p) < AnnualRetirementExpenses(q);
    AmountNeededMonotone(AnnualRetirementExpenses(p), AnnualRetirementExpenses(q), n, YearsInRetirement(p));
    assert AnnualSavings(p) < AnnualSavings(q);
    ContributionSeriesMonotone(AnnualSavings(p), AnnualSavings(q), p.expectedRateOfReturn, n);
  }

  /** A higher share of income needed in retirement raises the amount needed. */
  lemma PercentRaisesAmountNeeded(today: Date, p: Inputs, percent: real)
    requires p.preRetirementIncomePercent < percent && p.householdIncome > 0.0
    requires YearsInRetirement(p) > 0
    requires Projection(today, p).Projected?
    ensures Projection(today, p.(preRetirementIncomePercent := percent)).Projected?
    ensures Projection(today, p).amountNeededToRetire
          < Projection(today, p.(preRetirementIncomePercent := percent)).amountNeededToRetire
  {
    var q := p.(preRetirementIncomePercent := percent);
    var n := YearsUntilRetirement(today, p);
    assert YearsUntilRetirement(today, q) == n && YearsInRetirement(q) == YearsInRetirement(p);
    assert AnnualRetirementExpenses(p) < AnnualRetirementExpenses(q);
    AmountNeededMonotone(AnnualRetirementExpenses(p), AnnualRetirementExpenses(q), n, YearsInRetirement(p));
  }

  /**
   * With positive income, shares and rates and at least one year both before
   * and in retirement, both figures are positive.
   */
  lemma ProjectionPositive(today: Date, p: Inputs)
    requires p.householdIncome > 0.0 && p.preRetirementIncomePercent > 0.0
    requires p.currentSavingsRate > 0.0 && p.currentRetirementSavings >= 0.0
    requires 1.0 + p.expectedRateOfReturn > 0.0
    requires YearsUntilRetirement(today, p) > 0 && YearsInRetirement(p) > 0
    ensures Projection(today, p).Projected?
    ensures Projection(today, p).amountNeededToRetire > 0.0
    ensures Projection(today, p).expectedTotalSavings > 0.0
  {
    var n := YearsUntilRetirement(today, p);
    assert AnnualRetirementExpenses(p) > 0.0 && AnnualSavings(p) > 0.0;
    AmountNeededMonotone(0.0, AnnualRetirementExpenses(p), n, YearsInRetirement(p));
    ContributionSumLinear(0.0, SalaryIncreaseRate, p.expectedRateOfReturn, n, n);
    ContributionSeriesMonotone(0.0, AnnualSavings(p), p.expectedRateOfReturn, n);
    IntPowPositive(1.0 + p.expectedRateOfReturn, n);
    assert FutureValueLumpSum(p.currentRetirementSavings, p.expectedRateOfReturn, n) >= 0.0;
  }

  /**
   * A worked scenario: income 100000, savings rate 10%, current savings 50000,
   * 80% of income needed, life expectancy 90, 7% return, retirement at 65, and
   * a 35-year-old on the evaluation date. The horizons are 30 and 25 years, both
   * figures are positive, and needing 90% instead of 80% raises the amount needed.
   */
  lemma ExampleScenario()
    ensures var today := Date(2024, 6, 1);
            var p := Inputs(Date(1989, 1, 15), 100000.0, 0.10, 50000.0, 0.80, 90, 0.07, 65);
            && CurrentAge(today, p.dateOfBirth) == 35
            && YearsUntilRetirement(today, p) == 30 && YearsInRetirement(p) == 25
            && Projection(today, p).Projected?
            && Projection(today, p).amountNeededToRetire > 0.0
            && Projection(today, p).expectedTotalSavings > 0.0
            && Projection(today, p).amountNeededToRetire
               < Projection(today, p.(preRetirementIncomePercent := 0.90)).amountNeededToRetire
  {
    var today := Date(2024, 6, 1);
    var p := Inputs(Date(1989, 1, 15), 100000.0, 0.10, 50000.0, 0.80, 90, 0.07, 65);
    ProjectionPositive(today, p);
    PercentRaisesAmountNeeded(today, p, 0.90);
  }
}
