/**
  The Newton loop of wirp.py's `get_implied_rate`, with the target compound
  factor supplied by the caller.

  Starting from the prior rate, the loop replaces the guess by
  guess - (cf(guess) - target) / cf'(guess), where cf' is the centred finite
  difference with step h, until |cf(guess) - target| <= precision. The
  source loop has no iteration cap; here `fuel` bounds the number of Newton
  steps, and running out of it is its own outcome. A zero denominator, which
  Python reports as ZeroDivisionError, is the DivisionByZero outcome.
 */
module ImpliedRate {

  import opened Options
  import opened Dates
  import Compounding

  /** The fixed inputs of one implied-rate query. */
  datatype Query = Query(
    effective: Date,
    maturity: Date,
    isBusinessDay: Date -> bool,
    target: real,
    precision: real,
    h: real)

  datatype Outcome =
    | Converged(rate: real, steps: nat)
      /** The derivative estimate's denominator, or the derivative itself, was zero after `steps` steps. */
    | DivisionByZero(steps: nat)
    | IterationLimit

  function Abs(x: real): real
  {
    if x < 0.0 then -x else x
  }

  /** The compound factor of `rate` over the query's window. */
  function Cf(q: Query, rate: real): real
  {
    Compounding.Factor(rate, Compounding.Schedule(q.isBusinessDay, q.effective, q.maturity))
  }

  predicate WithinPrecision(q: Query, rate: real)
  {
    Abs(Cf(q, rate) - q.target) <= q.precision
  }

  /** One Newton step from `guess`; None where Python would divide by zero. */
  function Step(q: Query, guess: real): Option<real>
  {
    if 2.0 * q.h == 0.0 then None
    else
      var slope := (Cf(q, guess + q.h) - Cf(q, guess - q.h)) / (2.0 * q.h);
      if slope == 0.0 then None
      else Some(guess - (Cf(q, guess) - q.target) / slope)
  }

  /** The guess after n Newton steps from `prior`, with no stopping test. */
  function Iterate(q: Query, prior: real, n: nat): Option<real>
  {
    if n == 0 then Some(prior)
    else
      match Iterate(q, prior, n - 1)
      case None => None
      case Some(g) => Step(q, g)
  }

  /** No guess among the first n + 1 iterates (steps 0..n) meets the precision. */
  ghost predicate MissedThrough(q: Query, prior: real, n: nat)
  {
    forall j: nat :: j <= n ==> Iterate(q, prior, j).Some? && !WithinPrecision(q, Iterate(q, prior, j).value)
  }

  /** Iterate takes one more Newton step from the n-th guess. */
  lemma IterateNext(q: Query, prior: real, n: nat, guess: real)
    requires Iterate(q, prior, n) == Some(guess)
    ensures Iterate(q, prior, n + 1) == Step(q, guess)
  {
  }

  /** A missed n-th guess extends the run of missed guesses by one. */
  lemma MissedExtend(q: Query, prior: real, n: nat, guess: real)
    requires n > 0 ==> MissedThrough(q, prior, n - 1)
    requires Iterate(q, prior, n) == Some(guess)
    requires !WithinPrecision(q, guess)
    ensures MissedThrough(q, prior, n)
  {
  }

  /** The loop body of `get_implied_rate`: the centred-difference slope and the Newton update. */
  method NewtonStep(q: Query, guess: real, guessFactor: real) returns (next: Option<real>)
    requires guessFactor == Cf(q, guess)
    ensures next.None? <==> q.h == 0.0 || Cf(q, guess + q.h) == Cf(q, guess - q.h)
    ensures next.Some? ==>
              var slope := (Cf(q, guess + q.h) - Cf(q, guess - q.h)) / (2.0 * q.h);
              Cf(q, guess) - q.target + slope * (next.value - guess) == 0.0
    ensures next == Step(q, guess)
  {
    var fx := guessFactor - q.target;
    if 2.0 * q.h == 0.0 {
      return None;
    }
    var up := Compounding.GetCompoundFactor(guess + q.h, q.effective, q.maturity, q.isBusinessDay);
    var down := Compounding.GetCompoundFactor(guess - q.h, q.effective, q.maturity, q.isBusinessDay);
    var slope := (up - down) / (2.0 * q.h);
    SecantRoot(up, down, guessFactor, q.target, q.h, guess);
    if slope == 0.0 {
      return None;
    }
    return Some(guess - fx / slope);
  }

  /** `get_implied_rate` with an explicit target. */
  method GetImpliedRate(q: Query, prior: real, fuel: nat) returns (r: Outcome)
    ensures r.Converged? ==> WithinPrecision(q, r.rate)
    ensures WithinPrecision(q, prior) ==> r == Converged(prior, 0)
    ensures r.Converged? ==>
              && r.steps <= fuel
              && Iterate(q, prior, r.steps) == Some(r.rate)
              && (r.steps > 0 ==> MissedThrough(q, prior, r.steps - 1))
    ensures r.DivisionByZero? ==>
              && r.steps < fuel
              && MissedThrough(q, prior, r.steps)
              && Iterate(q, prior, r.steps + 1) == None
    ensures r.IterationLimit? ==> MissedThrough(q, prior, fuel)
  {
    var guess := prior;
    var guessFactor := Compounding.GetCompoundFactor(guess, q.effective, q.maturity, q.isBusinessDay);
    var n: nat := 0;
    while Abs(guessFactor - q.target) > q.precision
      invariant n <= fuel
      invariant guessFactor == Cf(q, guess)
      invariant Iterate(q, prior, n) == Some(guess)
      invariant n > 0 ==> MissedThrough(q, prior, n - 1)
      decreases fuel - n
    {
      MissedExtend(q, prior, n, guess);
      if n == fuel {
        return IterationLimit;
      }
      var next := NewtonStep(q, guess, guessFactor);
      IterateNext(q, prior, n, guess);
      if next.None? {
        return DivisionByZero(n);
      }
      guess := next.value;
      guessFactor := Compounding.GetCompoundFactor(guess, q.effective, q.maturity, q.isBusinessDay);
      n := n + 1;
    }
    return Converged(guess, n);
  }

  /** The Newton update is the root of the secant line through the centred-difference points. */
  lemma SecantRoot(up: real, down: real, cf: real, target: real, h: real, guess: real)
    requires h != 0.0
    ensures ((up - down) / (2.0 * h) == 0.0) <==> up == down
    ensures var slope := (up - down) / (2.0 * h);
      slope != 0.0 ==> cf - target + slope * ((guess - (cf - target) / slope) - guess) == 0.0
  {
  }

  /**
    Over a window with one accrual period the factor is affine in the rate,
    so the centred difference is its exact slope and a single Newton step
    lands on the target from any guess.
   */
  lemma OnePeriodOneStep(q: Query, guess: real)
    requires |Compounding.Schedule(q.isBusinessDay, q.effective, q.maturity)| == 2
    requires q.h != 0.0
    ensures Step(q, guess).Some?
    ensures Cf(q, Step(q, guess).value) == q.target
  {
    var s := Compounding.Schedule(q.isBusinessDay, q.effective, q.maturity);
    Compounding.ScheduleShape(q.isBusinessDay, q.effective, q.maturity);
    var c := (q.maturity - s[0]) as real;
    Compounding.OneGapFactor(q.isBusinessDay, q.effective, q.maturity, guess);
    Compounding.OneGapFactor(q.isBusinessDay, q.effective, q.maturity, guess + q.h);
    Compounding.OneGapFactor(q.isBusinessDay, q.effective, q.maturity, guess - q.h);
    var next := AffineNewton(c, guess, q.h, q.target, Cf(q, guess + q.h), Cf(q, guess - q.h), Cf(q, guess));
    assert Step(q, guess) == Some(next);
    Compounding.OneGapFactor(q.isBusinessDay, q.effective, q.maturity, next);
  }

  /**
    For f(x) = 1 + x * c / 360 with c > 0, the centred difference of f is its
    slope c / 360, non-zero, and the Newton update `next` solves f(next) = target.
   */
  lemma AffineNewton(c: real, x: real, h: real, target: real, up: real, down: real, cf: real)
    returns (next: real)
    requires c > 0.0 && h != 0.0
    requires up == 1.0 + (x + h) * c / 360.0
    requires down == 1.0 + (x - h) * c / 360.0
    requires cf == 1.0 + x * c / 360.0
    ensures (up - down) / (2.0 * h) == c / 360.0
    ensures next == x - (cf - target) / ((up - down) / (2.0 * h))
    ensures 1.0 + next * c / 360.0 == target
  {
    assert up - down == 2.0 * h * (c / 360.0);
    next := x - (cf - target) / (c / 360.0);
    assert next * (c / 360.0) == x * (c / 360.0) - (cf - target);
  }

  /** Over a window with no business day the factor is flat, so every Newton step divides by zero. */
  lemma EmptyWindowNoStep(q: Query, guess: real)
    requires forall d :: q.effective <= d <= q.maturity - 1 ==> !q.isBusinessDay(d)
    ensures Step(q, guess) == None
    ensures WithinPrecision(q, guess) <==> Abs(1.0 - q.target) <= q.precision
  {
  }

}
