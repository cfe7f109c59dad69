/** The slab disbursement schedule of the loan planner: two parsed lists,
    slab months and slab amounts, paired by position into a month -> amount
    map, exactly as Python's `dict(zip(slab_months, loan_slabs))` does.

    - `zip` stops at the end of the shorter list, so surplus items of the
      longer list are dropped.
    - `dict` of a sequence of pairs inserts them left to right, so a month
      that occurs more than once keeps the amount of its LAST occurrence. */
module Schedule {

  function Min(a: nat, b: nat): nat {
    if a <= b then a else b
  }

  /** Python's `zip` of two lists: positional pairs, as many as the shorter list. */
  function Zip(months: seq<int>, amounts: seq<real>): (r: seq<(int, real)>)
    ensures |r| == Min(|months|, |amounts|)
    ensures forall k :: 0 <= k < |r| ==> r[k] == (months[k], amounts[k])
  {
    if months == [] || amounts == [] then []
    else [(months[0], amounts[0])] + Zip(months[1..], amounts[1..])
  }

  /** Python's `dict(pairs)`: pairs are inserted in order, a later pair with
      the same key overwrites the earlier one. */
  function DictOf(pairs: seq<(int, real)>): (d: map<int, real>)
    ensures d.Keys == set k | 0 <= k < |pairs| :: pairs[k].0
  {
    if pairs == [] then map[]
    else
      var last := pairs[|pairs| - 1];
      DictOf(pairs[..|pairs| - 1])[last.0 := last.1]
  }

  /** `disbursement_dict = dict(zip(slab_months, loan_slabs))`. Its months are
      exactly the slab months that have a partner amount: the first
      `min(len(slab_months), len(loan_slabs))` ones. */
  function BuildSchedule(months: seq<int>, amounts: seq<real>): (d: map<int, real>)
    ensures d.Keys == set k | 0 <= k < Min(|months|, |amounts|) :: months[k]
  {
    var z := Zip(months, amounts);
    assert forall k :: 0 <= k < |z| ==> z[k].0 == months[k];
    DictOf(z)
  }

  /** Index `k` is the last position among the first `n` at which `x` occurs. */
  predicate IsLastOccurrence(months: seq<int>, n: nat, k: nat, x: int)
    requires n <= |months|
  {
    k < n && months[k] == x && forall j :: k < j < n ==> months[j] != x
  }

  /** A pair whose key does not occur later in the sequence decides that key's value. */
  lemma {:induction false} DictOfLastWins(pairs: seq<(int, real)>, k: nat)
    requires k < |pairs|
    requires forall j :: k < j < |pairs| ==> pairs[j].0 != pairs[k].0
    ensures pairs[k].0 in DictOf(pairs) && DictOf(pairs)[pairs[k].0] == pairs[k].1
  {
    var init := pairs[..|pairs| - 1];
    if k < |pairs| - 1 {
      assert init[k] == pairs[k];
      DictOfLastWins(init, k);
    }
  }

  /** Every value in the dict comes from the last pair carrying its key. */
  lemma {:induction false} DictOfValueSource(pairs: seq<(int, real)>, x: int)
    requires x in DictOf(pairs)
    ensures exists k :: 0 <= k < |pairs| && pairs[k] == (x, DictOf(pairs)[x])
                        && forall j :: k < j < |pairs| ==> pairs[j].0 != x
  {
    var n := |pairs|;
    var init := pairs[..n - 1];
    if pairs[n - 1].0 == x {
      assert pairs[n - 1] == (x, DictOf(pairs)[x]);
    } else {
      assert x in DictOf(init);
      DictOfValueSource(init, x);
      var k :| 0 <= k < |init| && init[k] == (x, DictOf(init)[x])
               && forall j :: k < j < |init| ==> init[j].0 != x;
      assert pairs[k] == init[k];
      assert forall j :: k < j < n ==> pairs[j].0 != x by {
        forall j | k < j < n ensures pairs[j].0 != x {
          if j < n - 1 { assert pairs[j] == init[j]; }
        }
      }
    }
  }

  /** Only the first `min(...)` items of each list matter: the longer list's
      extra items are dropped. */
  lemma ScheduleTruncates(months: seq<int>, amounts: seq<real>)
    ensures var n := Min(|months|, |amounts|);
            BuildSchedule(months, amounts) == BuildSchedule(months[..n], amounts[..n])
  {
    var n := Min(|months|, |amounts|);
    assert Zip(months, amounts) == Zip(months[..n], amounts[..n]);
  }

  /** A repeated month keeps the amount paired with its last occurrence. */
  lemma ScheduleLastWins(months: seq<int>, amounts: seq<real>, k: nat)
    requires k < Min(|months|, |amounts|)
    requires IsLastOccurrence(months, Min(|months|, |amounts|), k, months[k])
    ensures months[k] in BuildSchedule(months, amounts)
    ensures BuildSchedule(months, amounts)[months[k]] == amounts[k]
  {
    DictOfLastWins(Zip(months, amounts), k);
  }

  /** Conversely, every scheduled amount is the one paired with the last
      occurrence of its month among the paired items. */
  lemma ScheduleValueSource(months: seq<int>, amounts: seq<real>, x: int)
    requires x in BuildSchedule(months, amounts)
    ensures exists k: nat :: IsLastOccurrence(months, Min(|months|, |amounts|), k, x)
                             && BuildSchedule(months, amounts)[x] == amounts[k]
  {
    var z := Zip(months, amounts);
    DictOfValueSource(z, x);
    var k :| 0 <= k < |z| && z[k] == (x, DictOf(z)[x])
             && forall j :: k < j < |z| ==> z[j].0 != x;
    assert forall j :: k < j < |z| ==> months[j] != x by {
      forall j | k < j < |z| ensures months[j] != x {
        assert z[j].0 == months[j];
      }
    }
    assert IsLastOccurrence(months, |z|, k, x);
  }

  /** Appending one more paired item sets that month to that amount. */
  lemma ScheduleSnoc(months: seq<int>, amounts: seq<real>)
    requires 0 < |months| == |amounts|
    ensures var n := |months|;
            BuildSchedule(months, amounts)
            == BuildSchedule(months[..n - 1], amounts[..n - 1])[months[n - 1] := amounts[n - 1]]
  {
    var n := |months|;
    var z := Zip(months, amounts);
    assert z[..n - 1] == Zip(months[..n - 1], amounts[..n - 1]);
  }
}
