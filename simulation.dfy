/** The month-by-month loop of the loan planner, up to the salary adjustment:
    for each month `i` from 1 to `tenure_years * 12`, the slab scheduled for
    `i` (if any) is added to both the outstanding `principal` and the running
    `disbursed_amount`, then the year index and the inflation-adjusted salary
    for that month are computed. */
module Simulation {
  import opened Schedule
  import opened Salary

  /** The loop variables after the visible steps of month `month`. */
  datatype MonthState = MonthState(
    month: int,
    year: int,
    adjustedSalary: real,
    principal: real,
    disbursedAmount: real)

  /** The amount disbursed in month `i`: the scheduled amount, or nothing. */
  function Disbursement(schedule: map<int, real>, i: int): real {
    if i in schedule then schedule[i] else 0.0
  }

  /** The total disbursed over months 1..m: the sum of the scheduled amounts
      whose month lies in 1..m. */
  function SumDisbursedUpTo(schedule: map<int, real>, m: int): real
    decreases m
  {
    if m <= 0 then 0.0 else SumDisbursedUpTo(schedule, m - 1) + Disbursement(schedule, m)
  }

  /** Python's `range(lo, hi)`: the integers from `lo` up to but excluding `hi`. */
  function Range(lo: int, hi: int): (r: seq<int>)
    ensures |r| == if hi <= lo then 0 else hi - lo
    ensures forall k :: 0 <= k < |r| ==> r[k] == lo + k
    decreases hi - lo
  {
    if hi <= lo then [] else [lo] + Range(lo + 1, hi)
  }

  /** The number of months the loop runs: the length of
      `range(1, months + 1)` with `months = tenure_years * 12`, which is
      empty when `months` is not positive. */
  function Months(tenureYears: int): (n: nat)
    ensures n == |Range(1, 12 * tenureYears + 1)|
  {
    if tenureYears <= 0 then 0 else 12 * tenureYears
  }

  /** What the loop variables hold after month `i`, stated by the
      specification functions. */
  function ExpectedMonth(schedule: map<int, real>, monthlySalary: real, inflationRate: real, i: int): MonthState
    requires 1 <= i
  {
    var total := SumDisbursedUpTo(schedule, i);
    MonthState(i, YearOf(i), AdjustedSalary(monthlySalary, inflationRate, i), total, total)
  }

  /** The script from the schedule construction to the end of the visible
      loop body. `trace[k]` records the loop variables after month `k + 1`.
      The loop body continues past the salary adjustment with steps that are
      not part of this model, so `principal` here is the principal after
      each month's disbursement step only. */
  method Run(loanSlabs: seq<real>, slabMonths: seq<int>, tenureYears: int,
             interestRate: real, monthlySalary: real, inflationRate: real)
    returns (monthlyInterest: real, principal: real, disbursedAmount: real, trace: seq<MonthState>)
    ensures monthlyInterest == MonthlyRate(interestRate)
    // months 1..tenure_years*12 are visited once each, in increasing order
    ensures |trace| == Months(tenureYears)
    ensures forall k :: 0 <= k < |trace| ==> trace[k].month == k + 1
    ensures forall k :: 0 <= k < |trace| ==> trace[k].month == Range(1, 12 * tenureYears + 1)[k]
    ensures forall k :: 0 <= k < |trace| ==>
              trace[k] == ExpectedMonth(BuildSchedule(slabMonths, loanSlabs), monthlySalary, inflationRate, k + 1)
    // each month raises the principal by exactly that month's scheduled amount
    ensures forall k :: 0 <= k < |trace| ==>
              trace[k].principal
              == (if k == 0 then 0.0 else trace[k - 1].principal)
                 + Disbursement(BuildSchedule(slabMonths, loanSlabs), k + 1)
    ensures principal == disbursedAmount
    ensures disbursedAmount == SumDisbursedUpTo(BuildSchedule(slabMonths, loanSlabs), Months(tenureYears))
  {
    var disbursementDict := BuildSchedule(slabMonths, loanSlabs);
    var months := tenureYears * 12;
    monthlyInterest := MonthlyRate(interestRate);
    principal := 0.0;
    disbursedAmount := 0.0;
    trace := [];

    var i := 1;
    while i <= months
      invariant 1 <= i <= Months(tenureYears) + 1
      invariant |trace| == i - 1
      invariant principal == disbursedAmount == SumDisbursedUpTo(disbursementDict, i - 1)
      invariant forall k :: 0 <= k < |trace| ==>
                  trace[k] == ExpectedMonth(disbursementDict, monthlySalary, inflationRate, k + 1)
    {
      if i in disbursementDict {
        principal := principal + disbursementDict[i];
        disbursedAmount := disbursedAmount + disbursementDict[i];
      }
      var year := (i - 1) / 12;
      var adjustedSalary := monthlySalary * Pow(1.0 + inflationRate / 100.0, year);
      trace := trace + [MonthState(i, year, adjustedSalary, principal, disbursedAmount)];
      i := i + 1;
    }
  }

  /** With non-negative slab amounts the running total never decreases and
      never goes below zero. */
  lemma {:induction false} SumDisbursedMonotone(schedule: map<int, real>, m1: int, m2: int)
    requires forall i :: i in schedule ==> 0.0 <= schedule[i]
    requires m1 <= m2
    ensures 0.0 <= SumDisbursedUpTo(schedule, m1) <= SumDisbursedUpTo(schedule, m2)
    decreases m2 - m1, m2
  {
    if m1 < m2 {
      SumDisbursedMonotone(schedule, m1, m2 - 1);
    } else if m1 > 0 {
      SumDisbursedMonotone(schedule, m1 - 1, m1 - 1);
    }
  }

  /** Only months 1..m matter: two schedules that agree there disburse the
      same total over months 1..m. */
  lemma {:induction false} SumDisbursedDependsOnlyOnRange(s: map<int, real>, t: map<int, real>, m: int)
    requires forall i :: 1 <= i <= m ==> Disbursement(s, i) == Disbursement(t, i)
    ensures SumDisbursedUpTo(s, m) == SumDisbursedUpTo(t, m)
    decreases m
  {
    if m > 0 {
      SumDisbursedDependsOnlyOnRange(s, t, m - 1);
    }
  }

  /** A scheduled month outside 1..m (0, negative, or past the tenure) is
      never disbursed within months 1..m. */
  lemma SumIgnoresKeyOutsideRange(schedule: map<int, real>, key: int, amount: real, m: int)
    requires key < 1 || m < key
    ensures SumDisbursedUpTo(schedule[key := amount], m) == SumDisbursedUpTo(schedule, m)
  {
    SumDisbursedDependsOnlyOnRange(schedule[key := amount], schedule, m);
  }

  /** Setting month `key` in 1..m to `amount` changes the total over 1..m by
      the difference between the new and the old amount of that month. */
  lemma {:induction false} SumAfterUpdate(schedule: map<int, real>, key: int, amount: real, m: int)
    requires 1 <= key <= m
    ensures SumDisbursedUpTo(schedule[key := amount], m)
            == SumDisbursedUpTo(schedule, m) - Disbursement(schedule, key) + amount
    decreases m
  {
    var s' := schedule[key := amount];
    if key < m {
      SumAfterUpdate(schedule, key, amount, m - 1);
    } else {
      SumDisbursedDependsOnlyOnRange(s', schedule, m - 1);
    }
  }

  /** The sum of a list of amounts. */
  function SeqSum(s: seq<real>): real {
    if s == [] then 0.0 else SeqSum(s[..|s| - 1]) + s[|s| - 1]
  }

  /** When the slab months are distinct and all within 1..T, the amount
      disbursed over months 1..T is the sum of all the slab amounts. */
  lemma {:induction false} TotalDisbursedIsSlabSum(months: seq<int>, amounts: seq<real>, T: int)
    requires |months| == |amounts|
    requires forall j, k :: 0 <= j < k < |months| ==> months[j] != months[k]
    requires forall k :: 0 <= k < |months| ==> 1 <= months[k] <= T
    ensures SumDisbursedUpTo(BuildSchedule(months, amounts), T) == SeqSum(amounts)
  {
    var n := |months|;
    if n == 0 {
      SumDisbursedDependsOnlyOnRange(BuildSchedule(months, amounts), map[], T);
      SumOfEmptySchedule(T);
    } else {
      var ms, am := months[..n - 1], amounts[..n - 1];
      var prev := BuildSchedule(ms, am);
      var key, v := months[n - 1], amounts[n - 1];
      TotalDisbursedIsSlabSum(ms, am, T);
      ScheduleSnoc(months, amounts);
      LastMonthIsNew(months, amounts);
      SumAfterUpdate(prev, key, v, T);
      calc {
        SumDisbursedUpTo(BuildSchedule(months, amounts), T);
        SumDisbursedUpTo(prev[key := v], T);
        SumDisbursedUpTo(prev, T) - Disbursement(prev, key) + v;
        SeqSum(am) + v;
        SeqSum(amounts);
      }
    }
  }

  /** With distinct slab months, the last month is not yet in the schedule
      built from the items before it. */
  lemma LastMonthIsNew(months: seq<int>, amounts: seq<real>)
    requires 0 < |months| == |amounts|
    requires forall j, k :: 0 <= j < k < |months| ==> months[j] != months[k]
    ensures var n := |months|;
            months[n - 1] !in BuildSchedule(months[..n - 1], amounts[..n - 1])
  {
    var n := |months|;
    var ms := months[..n - 1];
    assert forall j :: 0 <= j < n - 1 ==> ms[j] != months[n - 1] by {
      forall j | 0 <= j < n - 1 ensures ms[j] != months[n - 1] {
        assert ms[j] == months[j];
      }
    }
  }

  /** Nothing is disbursed under an empty schedule. */
  lemma {:induction false} SumOfEmptySchedule(m: int)
    ensures SumDisbursedUpTo(map[], m) == 0.0
    decreases m
  {
    if m > 0 {
      SumOfEmptySchedule(m - 1);
    }
  }

  /** The same for ragged lists: only the first `min(...)` pairs are
      disbursed, so the total is the sum of the first `min(...)` amounts. */
  lemma TotalDisbursedIsPairedSlabSum(months: seq<int>, amounts: seq<real>, T: int)
    requires forall j, k :: 0 <= j < k < Min(|months|, |amounts|) ==> months[j] != months[k]
    requires forall k :: 0 <= k < Min(|months|, |amounts|) ==> 1 <= months[k] <= T
    ensures var n := Min(|months|, |amounts|);
            SumDisbursedUpTo(BuildSchedule(months, amounts), T) == SeqSum(amounts[..n])
  {
    var n := Min(|months|, |amounts|);
    ScheduleTruncates(months, amounts);
    TotalDisbursedIsSlabSum(months[..n], amounts[..n], T);
  }
}
