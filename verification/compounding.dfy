/**
  The daily compound factor of wirp.py's `get_compound_factor`.

  Dates are day serial numbers, the calendar is its business-day predicate,
  rates and factors are reals. The schedule is the business days from the
  effective date up to the day before maturity, followed by the maturity
  date; each consecutive pair accrues simple interest at Actual/360.
 */
module Compounding {

  import opened Dates

  ghost predicate StrictlyIncreasing(s: seq<Date>)
  {
    forall i, j :: 0 <= i < j < |s| ==> s[i] < s[j]
  }

  /** The business days in [lo, hi], in increasing order (empty when lo > hi). */
  function BusinessDays(isBusinessDay: Date -> bool, lo: Date, hi: Date): (r: seq<Date>)
    ensures StrictlyIncreasing(r)
    ensures forall i :: 0 <= i < |r| ==> lo <= r[i] <= hi && isBusinessDay(r[i])
    ensures forall d :: lo <= d <= hi && isBusinessDay(d) ==> d in r
    decreases hi + 1 - lo
  {
    if lo > hi then []
    else
      var rest := BusinessDays(isBusinessDay, lo + 1, hi);
      if isBusinessDay(lo) then
        var r := [lo] + rest;
        assert forall i :: 1 <= i < |r| ==> r[i] == rest[i - 1];
        r
      else rest
  }

  /** No business day of [lo, hi] lies before the first listed one, and an empty list means none at all. */
  lemma BusinessDaysFirst(isBusinessDay: Date -> bool, lo: Date, hi: Date)
    ensures var r := BusinessDays(isBusinessDay, lo, hi);
      && (r == [] <==> forall d :: lo <= d <= hi ==> !isBusinessDay(d))
      && (r != [] ==> forall d :: lo <= d < r[0] ==> !isBusinessDay(d))
  {
    var r := BusinessDays(isBusinessDay, lo, hi);
    if r != [] {
      assert lo <= r[0] <= hi && isBusinessDay(r[0]);
      forall d | d in r
        ensures r[0] <= d
      {
        var k :| 0 <= k < |r| && r[k] == d;
        if k > 0 {
          assert r[0] < r[k];
        }
      }
    }
  }

  /** The day schedule: business days of [effective, maturity - 1], then maturity. */
  function Schedule(isBusinessDay: Date -> bool, effective: Date, maturity: Date): seq<Date>
  {
    BusinessDays(isBusinessDay, effective, maturity - 1) + [maturity]
  }

  /** The schedule ends on maturity, rises strictly, and holds exactly the window's business days before it. */
  lemma ScheduleShape(isBusinessDay: Date -> bool, effective: Date, maturity: Date)
    ensures var s := Schedule(isBusinessDay, effective, maturity);
      && |s| >= 1
      && s[|s| - 1] == maturity
      && StrictlyIncreasing(s)
      && (forall i :: 0 <= i < |s| - 1 ==> effective <= s[i] <= maturity - 1 && isBusinessDay(s[i]))
      && (forall d :: effective <= d <= maturity - 1 && isBusinessDay(d) ==> d in s[..|s| - 1])
  {
  }

  /** One accrual period from d1 to d2: 1 + rate * (d2 - d1) / 360. */
  function Accrual(rate: real, d1: Date, d2: Date): real
  {
    1.0 + rate * (d2 - d1) as real / 360.0
  }

  /** Product of the accrual factors of the consecutive pairs of `dates`, taken left to right. */
  function Factor(rate: real, dates: seq<Date>): real
    decreases |dates|
  {
    if |dates| < 2 then 1.0
    else Factor(rate, dates[..|dates| - 1]) * Accrual(rate, dates[|dates| - 2], dates[|dates| - 1])
  }

  /** Sum of the day gaps between consecutive dates. */
  function GapSum(dates: seq<Date>): int
    decreases |dates|
  {
    if |dates| < 2 then 0
    else GapSum(dates[..|dates| - 1]) + (dates[|dates| - 1] - dates[|dates| - 2])
  }

  /** Extending a prefix by one date multiplies in the accrual of its last pair. */
  lemma FactorExtend(rate: real, dates: seq<Date>, i: nat)
    requires 1 <= i < |dates|
    ensures Factor(rate, dates[..i + 1]) == Factor(rate, dates[..i]) * Accrual(rate, dates[i - 1], dates[i])
  {
    assert dates[..i + 1][..i] == dates[..i];
  }

  /** The loop of `get_compound_factor`: multiply in each consecutive pair's accrual. */
  method CompoundOver(rate: real, dates: seq<Date>) returns (result: real)
    ensures result == Factor(rate, dates)
  {
    result := 1.0;
    if |dates| < 2 {
      return;
    }
    var i := 1;
    while i < |dates|
      invariant 1 <= i <= |dates|
      invariant result == Factor(rate, dates[..i])
    {
      FactorExtend(rate, dates, i);
      result := result * Accrual(rate, dates[i - 1], dates[i]);
      i := i + 1;
    }
    assert dates[..i] == dates;
  }

  /** `get_compound_factor`: compound over the schedule of the window. */
  method GetCompoundFactor(rate: real, effective: Date, maturity: Date, isBusinessDay: Date -> bool)
    returns (result: real)
    ensures result == Factor(rate, Schedule(isBusinessDay, effective, maturity))
  {
    result := CompoundOver(rate, Schedule(isBusinessDay, effective, maturity));
  }

  /** A zero rate compounds to exactly 1 over any dates. */
  lemma {:induction false} ZeroRateFactor(dates: seq<Date>)
    ensures Factor(0.0, dates) == 1.0
    decreases |dates|
  {
    if |dates| >= 2 {
      ZeroRateFactor(dates[..|dates| - 1]);
    }
  }

  /** With no business day in [effective, maturity - 1] the schedule is [maturity] and every rate gives 1. */
  lemma EmptyWindowFactor(isBusinessDay: Date -> bool, effective: Date, maturity: Date, rate: real)
    requires forall d :: effective <= d <= maturity - 1 ==> !isBusinessDay(d)
    ensures Schedule(isBusinessDay, effective, maturity) == [maturity]
    ensures Factor(rate, Schedule(isBusinessDay, effective, maturity)) == 1.0
  {
  }

  /** The gaps of a sequence telescope to last minus first. */
  lemma {:induction false} GapSumTelescopes(dates: seq<Date>)
    requires |dates| >= 1
    ensures GapSum(dates) == dates[|dates| - 1] - dates[0]
    decreases |dates|
  {
    if |dates| >= 2 {
      GapSumTelescopes(dates[..|dates| - 1]);
    }
  }

  /**
    The schedule accrues maturity minus its first business day: the days of
    the window before that first business day accrue nothing, and a window
    without business days accrues nothing at all.
   */
  lemma ScheduleGapSum(isBusinessDay: Date -> bool, effective: Date, maturity: Date)
    ensures var b := BusinessDays(isBusinessDay, effective, maturity - 1);
      && (b != [] ==>
            && GapSum(Schedule(isBusinessDay, effective, maturity)) == maturity - b[0]
            && effective <= b[0] < maturity && isBusinessDay(b[0])
            && forall d :: effective <= d < b[0] ==> !isBusinessDay(d))
      && (b == [] ==> GapSum(Schedule(isBusinessDay, effective, maturity)) == 0)
  {
    BusinessDaysFirst(isBusinessDay, effective, maturity - 1);
    GapSumTelescopes(Schedule(isBusinessDay, effective, maturity));
  }

  /** A schedule with a single pair d0, maturity reduces to one accrual term. */
  lemma OneGapFactor(isBusinessDay: Date -> bool, effective: Date, maturity: Date, rate: real)
    requires |Schedule(isBusinessDay, effective, maturity)| == 2
    ensures var d0 := Schedule(isBusinessDay, effective, maturity)[0];
      Factor(rate, Schedule(isBusinessDay, effective, maturity))
        == 1.0 + rate * (maturity - d0) as real / 360.0
  {
  }

  /** Compounding beats simple interest: for a non-negative rate over rising dates, factor >= 1 + rate * gaps / 360. */
  lemma {:induction false} CompoundAtLeastSimple(rate: real, dates: seq<Date>)
    requires rate >= 0.0
    requires StrictlyIncreasing(dates)
    ensures Factor(rate, dates) >= 1.0 + rate * GapSum(dates) as real / 360.0
    ensures GapSum(dates) >= 0
    decreases |dates|
  {
    if |dates| >= 2 {
      var n := |dates|;
      var prev := dates[..n - 1];
      assert StrictlyIncreasing(prev) by {
        assert forall i :: 0 <= i < n - 1 ==> prev[i] == dates[i];
      }
      CompoundAtLeastSimple(rate, prev);
      var g := dates[n - 1] - dates[n - 2];
      assert g > 0;
      assert GapSum(dates) == GapSum(prev) + g;
      assert Factor(rate, dates) == Factor(rate, prev) * Accrual(rate, dates[n - 2], dates[n - 1]);
      SimpleSplit(rate, GapSum(prev) as real, g as real);
      ProductBound(Factor(rate, prev), rate * GapSum(prev) as real / 360.0, rate * g as real / 360.0);
    }
  }

  /** Simple interest is additive over a split of the accrual days. */
  lemma SimpleSplit(rate: real, x: real, y: real)
    requires rate >= 0.0 && x >= 0.0 && y >= 0.0
    ensures rate * (x + y) / 360.0 == rate * x / 360.0 + rate * y / 360.0
    ensures rate * x / 360.0 >= 0.0 && rate * y / 360.0 >= 0.0
  {
  }

  /** p >= 1 + s with s, a >= 0 gives p * (1 + a) >= 1 + s + a. */
  lemma ProductBound(p: real, s: real, a: real)
    requires s >= 0.0 && a >= 0.0 && p >= 1.0 + s
    ensures p * (1.0 + a) >= 1.0 + s + a
  {
    assert p * (1.0 + a) == p + p * a;
    assert p * a >= (1.0 + s) * a;
    assert (1.0 + s) * a == a + s * a;
    assert s * a >= 0.0;
  }

}
