/** The calendar and salary rules the planner applies in month `i` of the
    loan (1-based): the year index `(i - 1) // 12`, the salary compounded
    once per year by the annual inflation rate, and the monthly interest
    rate derived from the annual percentage. Amounts and rates are exact
    reals standing in for Python floats. */
module Salary {

  /** The month -> year index `(i - 1) // 12`. Python's `//` rounds toward
      minus infinity; for the positive divisor 12 that is Dafny's `/`. */
  function YearOf(i: int): (y: int)
    ensures 12 * y <= i - 1 < 12 * y + 12
  {
    (i - 1) / 12
  }

  /** Months 1-12 are year 0, 13-24 year 1, and so on: month `12y + r`
      for `1 <= r <= 12` belongs to year `y`. */
  lemma {:induction false} YearOfBlock(y: int, r: int)
    requires 1 <= r <= 12
    ensures YearOf(12 * y + r) == y
  {
  }

  /** The year index never decreases as the month increases. */
  lemma {:induction false} YearOfMonotone(i: int, j: int)
    requires i <= j
    ensures YearOf(i) <= YearOf(j)
  {
  }

  /** Moving to the next month raises the year by one exactly when the next
      month is the first month of a year (`i + 1 ≡ 1 (mod 12)`), and
      otherwise leaves it unchanged. */
  lemma {:induction false} YearOfStep(i: int)
    ensures YearOf(i + 1) == YearOf(i) + (if (i + 1) % 12 == 1 then 1 else 0)
  {
    var y := YearOf(i);
    var r := i - 12 * y;
    assert 1 <= r <= 12;
    assert i + 1 == 12 * y + (r + 1);
    if r == 12 {
      assert i + 1 == 12 * (y + 1) + 1;
      YearOfBlock(y + 1, 1);
      assert (i + 1) % 12 == 1;
    } else {
      YearOfBlock(y, r + 1);
      assert (i + 1) % 12 == (r + 1) % 12;
    }
  }

  /** Python's `b ** e` for a natural exponent. A non-negative base gives a
      non-negative power, and a base of at least 1 a power of at least 1. */
  function Pow(b: real, e: nat): (r: real)
    ensures 0.0 <= b ==> 0.0 <= r
    ensures 1.0 <= b ==> 1.0 <= r
  {
    if e == 0 then 1.0
    else
      var p := Pow(b, e - 1);
      assert 1.0 <= b ==> 1.0 * p <= b * p;
      b * p
  }

  /** With a growth factor of at least 1 the power never decreases with the exponent. */
  lemma {:induction false} PowMonotone(b: real, e1: nat, e2: nat)
    requires 1.0 <= b
    requires e1 <= e2
    ensures 1.0 <= Pow(b, e2)
    ensures Pow(b, e1) <= Pow(b, e2)
  {
    if e2 > 0 {
      var p := Pow(b, e2 - 1);
      if e1 < e2 {
        PowMonotone(b, e1, e2 - 1);
      } else {
        PowMonotone(b, e2 - 1, e2 - 1);
      }
      assert (b - 1.0) * p >= 0.0;
      assert 1.0 * p <= b * p;
    }
  }

  /** The annual salary growth factor `1 + inflation_rate / 100`. */
  function GrowthFactor(inflationRate: real): real {
    1.0 + inflationRate / 100.0
  }

  /** `monthly_salary * ((1 + inflation_rate / 100) ** year)` in month `i`.
      With non-negative salary and inflation it is never below the initial
      salary. */
  function AdjustedSalary(monthlySalary: real, inflationRate: real, i: int): (r: real)
    requires 1 <= i
    ensures 0.0 <= monthlySalary && 0.0 <= inflationRate ==> monthlySalary <= r
  {
    var p := Pow(GrowthFactor(inflationRate), YearOf(i));
    assert 0.0 <= monthlySalary && 1.0 <= p ==> monthlySalary * 1.0 <= monthlySalary * p;
    monthlySalary * p
  }

  /** Throughout year 0 (months 1-12) the adjusted salary is the initial salary. */
  lemma AdjustedSalaryFirstYear(monthlySalary: real, inflationRate: real, i: int)
    requires 1 <= i <= 12
    ensures AdjustedSalary(monthlySalary, inflationRate, i) == monthlySalary
  {
    YearOfBlock(0, i);
  }

  /** The salary is constant within each 12-month block. */
  lemma AdjustedSalaryWithinYear(monthlySalary: real, inflationRate: real, y: nat, r1: int, r2: int)
    requires 1 <= r1 <= 12 && 1 <= r2 <= 12
    ensures AdjustedSalary(monthlySalary, inflationRate, 12 * y + r1)
         == AdjustedSalary(monthlySalary, inflationRate, 12 * y + r2)
  {
    YearOfBlock(y, r1);
    YearOfBlock(y, r2);
  }

  /** The salary is compounded once per year: twelve months later it has
      been multiplied by the growth factor exactly once. */
  lemma AdjustedSalaryYearOverYear(monthlySalary: real, inflationRate: real, i: int)
    requires 1 <= i
    ensures AdjustedSalary(monthlySalary, inflationRate, i + 12)
         == AdjustedSalary(monthlySalary, inflationRate, i) * GrowthFactor(inflationRate)
  {
    var y := YearOf(i);
    var g := GrowthFactor(inflationRate);
    YearOfBlock(y + 1, i - 12 * y);
    assert YearOf(i + 12) == y + 1;
    assert Pow(g, y + 1) == g * Pow(g, y);
  }

  /** With non-negative inflation and salary, the adjusted salary never
      decreases from one month to a later one. */
  lemma AdjustedSalaryMonotone(monthlySalary: real, inflationRate: real, i: int, j: int)
    requires 0.0 <= monthlySalary && 0.0 <= inflationRate
    requires 1 <= i <= j
    ensures AdjustedSalary(monthlySalary, inflationRate, i)
         <= AdjustedSalary(monthlySalary, inflationRate, j)
  {
    var g := GrowthFactor(inflationRate);
    YearOfMonotone(1, i);
    YearOfMonotone(i, j);
    PowMonotone(g, YearOf(i), YearOf(j));
    var p, q := Pow(g, YearOf(i)), Pow(g, YearOf(j));
    assert monthlySalary * (q - p) >= 0.0;
  }

  /** `interest_rate / 12 / 100`: the periodic (monthly) rate as a fraction. */
  function MonthlyRate(interestRate: real): (r: real)
    ensures 1200.0 * r == interestRate
    ensures 0.0 <= interestRate ==> 0.0 <= r
  {
    interestRate / 12.0 / 100.0
  }
}
