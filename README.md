# Smart Home Loan Planner — disbursement schedule and monthly loop

This project models the computational start of the Smart Home Loan Planner
script (`new.py`). The planner projects a home loan that is disbursed in
slabs (tranches) against a salary that grows with inflation. The model covers
three parts:

- **Schedule** (`schedule.dfy`). The parsed slab months and slab amounts are
  paired by position into the disbursement dictionary, as
  `dict(zip(slab_months, loan_slabs))` does. `Zip` stops at the shorter list.
  `DictOf` inserts pairs left to right, so a repeated month keeps its last
  amount. `BuildSchedule` composes the two.
- **Salary** (`salary.dfy`). The calendar and salary rules of one month: the
  year index `YearOf(i) = (i - 1) // 12`, the salary compounded once a year,
  `AdjustedSalary = monthly_salary * (1 + inflation_rate / 100) ^ year`, with
  `Pow` as the natural-exponent power, and the monthly rate
  `MonthlyRate = interest_rate / 12 / 100`.
- **Simulation** (`simulation.dfy`). The method `Run` is the script from the
  schedule construction to the end of the visible loop body. It runs months
  `1 .. tenure_years * 12`. In each month it adds the scheduled slab, if
  any, to both `principal` and `disbursed_amount`. It then computes the year
  index and the adjusted salary. `Range` is Python's `range`, and `Months`
  the length of `range(1, tenure_years * 12 + 1)`. `Run` returns the final accumulators and a
  trace of the loop variables after each month. The trace is tied to the
  specification functions `SumDisbursedUpTo` (scheduled amounts whose month
  lies in 1..m) and `ExpectedMonth`. The properties are proved as lemmas
  about those functions.

Python floats are modelled as exact `real`s and Python ints as unbounded
`int`s. Python's `//` with the positive divisor 12 rounds toward minus
infinity. For a positive divisor that is the same as Dafny's `/`, so
`YearOf` is exact for every month, not only positive ones.

The schedule is built without validation, and the model keeps that
behaviour. Ragged lists are truncated to the shorter one. A repeated month
overwrites the earlier amount. A month outside `1 .. tenure_years * 12`
(zero, negative or past the tenure) is accepted and never disbursed.

## Model

| member | source | states |
|---|---|---|
| Schedule.Zip | new.py:18 | zip pairs the lists by position; the result is as long as the shorter list, and pair k is (slab_months[k], loan_slabs[k]) |
| Schedule.DictOf | new.py:18 | the keys of dict(pairs) are exactly the first components of the pairs |
| Schedule.DictOfLastWins | new.py:18 | a pair whose key does not recur later in the sequence decides that key's value in the dict |
| Schedule.DictOfValueSource | new.py:18 | every value in the dict comes from the last pair that carries its key |
| Schedule.BuildSchedule | new.py:18 | dict(zip(slab_months, loan_slabs)): the scheduled months are exactly the slab months among the first min(len(slab_months), len(loan_slabs)) positions; its values are pinned down by ScheduleLastWins and ScheduleValueSource |
| Schedule.ScheduleTruncates | new.py:18 | extra items of the longer list are dropped: the schedule equals the one built from the first min(...) items of each list |
| Schedule.ScheduleLastWins | new.py:18 | when position k is the last occurrence of its month among the paired items, that month maps to loan_slabs[k] |
| Schedule.ScheduleValueSource | new.py:18 | every scheduled amount is the amount paired with the last occurrence of its month |
| Schedule.ScheduleSnoc | new.py:18 | appending one more (month, amount) pair to equal-length lists sets that month to that amount, overwriting any earlier amount |
| Salary.YearOf | new.py:43 | the year index y of month i satisfies 12y <= i-1 < 12y+12, which is floor division of i-1 by 12 |
| Salary.YearOfBlock | new.py:43 | months 1-12 give year 0, 13-24 give year 1: month 12y+r with 1 <= r <= 12 is in year y |
| Salary.YearOfMonotone | new.py:43 | the year index never decreases as the month increases |
| Salary.YearOfStep | new.py:43 | going from month i to i+1 raises the year by exactly 1 when i+1 ≡ 1 (mod 12), and leaves it unchanged otherwise |
| Salary.Pow | new.py:44 | `**` with a natural exponent: a non-negative base gives a non-negative power and a base of at least 1 a power of at least 1; PowMonotone and AdjustedSalaryYearOverYear carry its growth |
| Salary.PowMonotone | new.py:44 | for a base of at least 1, the power is at least 1 and never decreases as the exponent grows |
| Salary.AdjustedSalary | new.py:44 | monthly_salary * (1 + inflation_rate/100) ** year; with non-negative salary and inflation it is never below monthly_salary. Its month-to-month behaviour is in the AdjustedSalary lemmas below |
| Salary.AdjustedSalaryFirstYear | new.py:43-44 | throughout months 1-12 the adjusted salary equals monthly_salary |
| Salary.AdjustedSalaryWithinYear | new.py:43-44 | the adjusted salary is the same in every month of a 12-month block |
| Salary.AdjustedSalaryYearOverYear | new.py:43-44 | twelve months later the salary has been multiplied by (1 + inflation_rate/100) exactly once |
| Salary.AdjustedSalaryMonotone | new.py:43-44 | with inflation_rate >= 0 and monthly_salary >= 0, the adjusted salary never decreases from month to month |
| Salary.MonthlyRate | new.py:31 | the monthly rate times 1200 is the annual percentage; it is non-negative for a non-negative annual rate |
| Simulation.Range | new.py:37 | range(lo, hi) has max(0, hi - lo) elements and its k-th element is lo + k |
| Simulation.Months | new.py:22 | the loop's month count is the length of range(1, tenure_years*12 + 1): 12 * tenure_years, or none when tenure_years <= 0 |
| Simulation.Run | new.py:18-44 | months 1..tenure_years*12 are visited once each, in increasing order, exactly as range(1, months + 1) lists them. The disbursement step of month i raises principal and disbursed_amount by the same amount, that month's scheduled amount or nothing, so after that step both equal the scheduled amounts over months 1..i. The year and adjusted salary are those of YearOf and AdjustedSalary. The monthly rate is MonthlyRate(interest_rate) |
| Simulation.SumDisbursedMonotone | new.py:37-41 | with non-negative slab amounts the disbursed total is non-negative and never decreases from month to month |
| Simulation.SumDisbursedDependsOnlyOnRange | new.py:37-41 | the total over months 1..m depends only on the schedule entries for months 1..m |
| Simulation.SumIgnoresKeyOutsideRange | new.py:37-41 | a scheduled month outside 1..m, such as 0, a negative month or one past the tenure, never contributes to the total over months 1..m |
| Simulation.SumAfterUpdate | new.py:39-41 | changing the amount of one month within 1..m changes the total by exactly the difference between the new and old amounts |
| Simulation.SumOfEmptySchedule | new.py:32-41 | with no scheduled slab, nothing is ever disbursed: the total stays at its initial 0 |
| Simulation.TotalDisbursedIsSlabSum | new.py:18-41 | for distinct slab months within the tenure and equal-length lists, the total disbursed over the tenure is the sum of all slab amounts |
| Simulation.LastMonthIsNew | new.py:18 | with distinct slab months, the last month is not yet a key of the schedule built from the earlier items |
| Simulation.TotalDisbursedIsPairedSlabSum | new.py:18-41 | for ragged lists with distinct months within the tenure, the total disbursed is the sum of the first min(...) slab amounts |

## Left out

- The Streamlit user interface (new.py:1-14, 21, 23-28): page set-up, title and sidebar widgets. The values read at lines 13-14, 21 and 23-25 are parameters of `Run`. `expenses`, `sip_percent` and `emi_limit_percent` (new.py:26-28) are read only after line 44 and are left out with that code.
- The text-to-number conversion `float(x.strip())` and `int(x.strip())` of the two comma-separated inputs (new.py:16-17). It depends on Python's number parsing, so `BuildSchedule` and `Run` take already-parsed lists. A parse error, which raises in Python, is therefore not modelled.
- The `numpy_financial`, `numpy`, `pandas` and `io` imports (new.py:2-5). Nothing in lines 1-44 uses them.
- Everything after new.py:44. The file ends mid-expression at line 45, so the SIP amount, the EMI and its cap at `emi_limit_percent`, surplus, prepayment and the ledger rows are not part of this model.
- `prepayment_total` and `data` (new.py:33, 35) are initialised but never updated in the visible lines, so `Run` does not return them. The trace returned by `Run` records the loop variables and is not the script's `data` list.
- Simulation.Run: the loop body continues after new.py:44 in code that is not part of this model; `prepayment_total` (new.py:33) and `emi_limit_percent` (new.py:28) suggest that it repays principal there. So the principal that `Run` returns and records in its trace is the principal after each month's disbursement step within lines 37-44 only, and `principal == disbursed_amount` is not claimed for the whole program.
- Floating-point rounding and overflow: amounts and rates are exact reals.
- Salary.AdjustedSalary: defined only for months `i >= 1`, the only months the loop reaches. Python would raise the base to a negative power for `i <= 0`.
