# Fed Funds implied-rate rules, modelled in Dafny

This project models the parts of the `quantlib-examples` scripts that the
repository itself decides, rather than delegates to QuantLib or to the
Bloomberg client:

- the **quote registry** (`Quotes` in `wirp.py` and in `curve_s45.py`): a
  dictionary from ticker to a mutable quote, created at 0.0 on first `get`
  and refreshed by `update` from the rows of a batched market-data fetch;
  `wirp.py`'s registry also has `set`, which overwrites one quote;
- the **calendar registry** (`Calendars` in `wirp.py`): a get-or-create cache
  of bespoke calendars whose week-end is Sunday and Saturday and whose
  holidays come from a holiday-data fetch;
- the **daily compound factor** (`get_compound_factor`): the business days of
  `[effective, maturity - 1]` followed by `maturity`, compounded pair by pair
  at `1 + r * gap / 360`;
- the **implied-rate Newton loop** (`get_implied_rate`) with the target
  compound factor supplied by the caller;
- the **tenor-bucket selection** (`get_cur_implied_on_ticker`).

Dates are integer day serials, rates and factors are `real`, a calendar is
used through its business-day predicate, and the registries are immutable
maps threaded through pure functions. A quote handle is identified with its
ticker: every holder reads the current registry at that key, which is how an
update becomes visible to all of them. The registries treat tickers as opaque
keys (strings in the source), so the quote modules are generic in the ticker
type.

Modules: `Options` (the optional value), `Dates` (day serials), `Quotes`,
`QuotesS45`, `Calendars`, `Compounding`, `ImpliedRate`, `TenorBuckets`, one
file each.

Behaviour of the code worth stating up front:

- The bucket selection takes the first policy date strictly after spot
  (`date > spot_date`, wirp.py:265).
- The calendar registry has no check of its own for an empty holiday list
  (wirp.py:50-51): it adds whatever dates the holiday column holds.
- The preferred buckets are tried in the order of the list at
  wirp.py:267-278, and the first whose end, advanced from spot, is on or
  before the first policy date wins (wirp.py:281-283).

## Model

| member | source | states |
|---|---|---|
| Quotes.Get | wirp.py:12-16 | the ticker is registered afterwards and nothing else is added; an existing ticker leaves the registry unchanged and returns its stored level; a new ticker is added with level 0.0, growing the registry by exactly one key; no existing level changes |
| Quotes.Set | wirp.py:18-19 | registers the ticker if absent, gives it the new level, and leaves every other ticker's level as it was |
| Quotes.SetIsGetThenWrite | wirp.py:18-19 | writing a level is the same as a `get` (which registers a missing ticker at 0.0) followed by overwriting that quote's level |
| Quotes.Update | wirp.py:21-26 | after applying the fetched rows the registered tickers are the old ones plus every ticker some row names |
| Quotes.LastRowWins | wirp.py:25-26 | a row's level is the ticker's final level when no later row names that ticker, so the last row for a ticker wins |
| Quotes.UntouchedKeepsLevel | wirp.py:25-26 | a ticker that no row names stays registered or unregistered as before and keeps its previous level (a missing row is a soft failure) |
| QuotesS45.Update | curve_s45.py:18-25 | the update succeeds iff every row names a registered ticker, and then the ticker set is unchanged; otherwise it fails with a KeyError at the first row naming an unregistered ticker, leaving the registry with the same tickers |
| QuotesS45.AgreesWithWirp | curve_s45.py:22-25 | a successful update equals wirp.py's update of the same rows; after a KeyError the registry left behind is wirp.py's update of exactly the rows before the offending one |
| Calendars.Weekday | wirp.py:47-48 | day numbers run 1 (Sunday) to 7 (Saturday) and follow the serial date modulo 7 |
| Calendars.Build | wirp.py:38-51 | a day of the built calendar is a business day iff it is neither weekday 1 nor weekday 7 nor one of the fetched holiday dates |
| Calendars.Get | wirp.py:36-55 | a cached code returns its cached calendar and leaves the registry (and the fetch log) unchanged; a new code is fetched exactly once, logged, and cached with the calendar built from its holidays; other entries are untouched; the registry invariant (cache = fetch log, no code fetched twice, every entry built from the provider's answer) is preserved |
| Calendars.GetAllFetchesOnce | wirp.py:36-55 | after any sequence of `get` calls the invariant still holds, so each code has been fetched at most once, and the fetched codes are exactly the earlier ones plus those requested |
| Compounding.BusinessDays | wirp.py:216 | the business-day list of `[lo, hi]` is strictly increasing, holds only business days inside the range, and holds every one of them |
| Compounding.BusinessDaysFirst | wirp.py:216 | the list is empty iff the range has no business day, and no business day of the range precedes its first element |
| Compounding.ScheduleShape | wirp.py:216-218 | the schedule is non-empty, strictly increasing, ends on maturity, and its elements before the last are exactly the business days of `[effective, maturity - 1]` |
| Compounding.CompoundOver | wirp.py:219-224 | the loop over consecutive pairs computes the left-to-right product of the accrual factors `1 + r * (d2 - d1) / 360` |
| Compounding.GetCompoundFactor | wirp.py:213-224 | the result is the product of the accrual factors over the schedule of the window |
| Compounding.ZeroRateFactor | wirp.py:219-224 | a zero rate gives factor 1 over any dates |
| Compounding.EmptyWindowFactor | wirp.py:216-224 | a window with no business day in `[effective, maturity - 1]` (for example `effective == maturity`) has schedule `[maturity]` and factor 1 at every rate |
| Compounding.GapSumTelescopes | wirp.py:221-222 | the accrual gaps of a date sequence sum to its last date minus its first |
| Compounding.ScheduleGapSum | wirp.py:216-222 | the schedule accrues `maturity - d0` days, where `d0` is the first business day on or after the effective date (the days before `d0` accrue nothing), and accrues nothing when the window has no business day |
| Compounding.OneGapFactor | wirp.py:216-222 | a two-date schedule `[d0, maturity]` gives factor `1 + r * (maturity - d0) / 360` |
| Compounding.CompoundAtLeastSimple | wirp.py:221-222 | for a non-negative rate over increasing dates the compound factor is at least the simple-interest factor `1 + r * gaps / 360` |
| ImpliedRate.NewtonStep | wirp.py:250-255 | the step fails (Python's ZeroDivisionError) exactly when `h` is zero or the factors at `guess + h` and `guess - h` are equal; otherwise the new guess is the root of the line through the current factor with the centred-difference slope `(cf(g + h) - cf(g - h)) / (2h)` |
| ImpliedRate.OnePeriodOneStep | wirp.py:249-258 | over a window whose schedule is a single accrual period, with `h` non-zero, one Newton step from any guess succeeds and lands exactly on the target factor |
| ImpliedRate.GetImpliedRate | wirp.py:244-260 | a prior already within precision is returned unchanged after no steps; any converged result is within precision of the target, is the n-th Newton iterate of the prior, and every earlier iterate missed; a division by zero or running out of steps is reported with every iterate so far having missed |
| ImpliedRate.EmptyWindowNoStep | wirp.py:249-255 | over a window with no business day every Newton step divides by zero, and a guess is within precision iff the target is within precision of 1 |
| TenorBuckets.FirstAfter | wirp.py:265 | finds the first policy date, in list order, strictly after spot; none exists iff every date is on or before spot |
| TenorBuckets.FirstFitting | wirp.py:281-285 | finds the first bucket, in list order, whose tenor advanced from spot ends on or before the limit; none iff no bucket fits |
| TenorBuckets.SelectBucket | wirp.py:262-285 | the selection is the IndexError outcome iff no policy date is after spot; otherwise it returns the first bucket that fits before the first policy date after spot, and None iff no bucket fits |
| TenorBuckets.CurImpliedOnTicker | wirp.py:266-283 | a chosen bucket is one of the twelve preferred Fed Funds tenor/ticker pairs |

## Left out

- Bloomberg calls (`bq.bdp` and `bq.bds` in wirp.py and curve_s45.py) are network I/O: their results are inputs, the fetched rows as a sequence and the holiday provider as a function from calendar code to holiday dates.
- Calendars.Get: the provider is taken to give the same holidays for the same code each time; the fetch log is part of the model, not of the source, and exists to state "fetched at most once".
- QuantLib constructions (`build_sofr`, `build_fed_funds`, `make_fed_funds_swap`, `build_curve`, the `Curve` record, the rate helpers, the `x / 100` derived quotes, `PiecewiseLogCubicDiscount`, `fairRate`) are foreign library calls; the bootstrap and interpolation are not in this source. The default-target branch of `get_implied_rate` (swap fair rate turned into a target factor) is out with them.
- ImpliedRate.GetImpliedRate: the source loop has no iteration cap; the model bounds it by a `fuel` argument and reports IterationLimit when it runs out. Convergence, termination and finite-difference accuracy of Newton's method are not proved, only what holds whenever the loop exits.
- ImpliedRate.GetImpliedRate: the exit contract holds of exact reals only. In floating point a diverging guess can make the factor overflow; the centred difference then becomes `inf - inf`, the guess NaN, and the test `abs(nan - target) > precision` at wirp.py:249 is false, so the source returns a NaN guess without raising. That exit is not modelled.
- ImpliedRate.GetImpliedRate: Python's ZeroDivisionError (zero step `h` or zero slope, for example over a window with no business day) is the DivisionByZero outcome.
- Compounding.BusinessDays: QuantLib's `businessDayList` is modelled as the business days of the closed range, and an inverted range (`effective >= maturity`) as the empty list; the library code is not part of this model, so whether it rejects an inverted range is not modelled.
- Calendars.Weekday: the weekday of a serial follows QuantLib's numbering (serial modulo 7, 0 read as 7); the library's date type is not part of this model.
- TenorBuckets.CurImpliedOnTicker: the `calendars.get("FD")` call at wirp.py:263 fills the calendar cache as a side effect; the selection takes the spot date and `advance` as inputs and does not thread the calendar registry, so that effect is not modelled.
- `calendar.advance` with periods and `ql.Date.todaysDate()` are library date arithmetic and the wall clock: the spot date and the `advance(date, tenor)` function are inputs.
- The module-level script of wirp.py and `main` of curve_s45.py (printing and orchestration) are left out.
- IEEE floating-point rounding is not modelled: rates and factors are exact reals.
