/**
  Tenor-bucket selection of wirp.py's `get_cur_implied_on_ticker`: find the
  first policy date strictly after spot, then the first preferred Fed Funds
  OIS tenor whose end, advanced from spot, falls on or before that date.

  The spot date (today advanced two business days) and the calendar's
  tenor arithmetic are inputs: `advance(spot, tenor)` is the date reached.
 */
module TenorBuckets {

  import opened Options
  import opened Dates

  datatype Bucket = Bucket(tenor: string, ticker: string)

  /** The preferred Fed Funds OIS buckets, shortest tenor first. */
  const FedFundsBuckets: seq<Bucket> := [
    Bucket("1W", "USSO1Z Curncy"),
    Bucket("2W", "USSO2Z Curncy"),
    Bucket("3W", "USSO3Z Curncy"),
    Bucket("1M", "USSOA Curncy"),
    Bucket("2M", "USSOB Curncy"),
    Bucket("3M", "USSOC Curncy"),
    Bucket("4M", "USSOD Curncy"),
    Bucket("5M", "USSOE Curncy"),
    Bucket("6M", "USSOF Curncy"),
    Bucket("9M", "USSOI Curncy"),
    Bucket("12M", "USSO1 Curncy"),
    Bucket("18M", "USSO1F Curncy")
  ]

  datatype Selection =
      /** No policy date lies after spot: the source's IndexError on `[...][0]`. */
    | NoPolicyDateAfterSpot
      /** The chosen bucket, or None when no bucket fits before the first policy date. */
    | Selected(choice: Option<Bucket>)

  /** Index of the first date, in list order, strictly after `spot`. */
  function FirstAfter(dates: seq<Date>, spot: Date): (r: Option<nat>)
    ensures r.None? <==> forall j :: 0 <= j < |dates| ==> dates[j] <= spot
    ensures r.Some? ==>
              && r.value < |dates|
              && dates[r.value] > spot
              && forall j :: 0 <= j < r.value ==> dates[j] <= spot
    decreases |dates|
  {
    if dates == [] then None
    else if dates[0] > spot then Some(0)
    else
      match FirstAfter(dates[1..], spot)
      case None => None
      case Some(k) => Some(k + 1)
  }

  /** A bucket fits when its tenor, advanced from spot, ends on or before `limit`. */
  predicate Fits(b: Bucket, spot: Date, limit: Date, advance: (Date, string) -> Date)
  {
    advance(spot, b.tenor) <= limit
  }

  /** Index of the first bucket, in list order, that fits. */
  function FirstFitting(buckets: seq<Bucket>, spot: Date, limit: Date, advance: (Date, string) -> Date)
    : (r: Option<nat>)
    ensures r.None? <==> forall j :: 0 <= j < |buckets| ==> !Fits(buckets[j], spot, limit, advance)
    ensures r.Some? ==>
              && r.value < |buckets|
              && Fits(buckets[r.value], spot, limit, advance)
              && forall j :: 0 <= j < r.value ==> !Fits(buckets[j], spot, limit, advance)
    decreases |buckets|
  {
    if buckets == [] then None
    else if Fits(buckets[0], spot, limit, advance) then Some(0)
    else
      match FirstFitting(buckets[1..], spot, limit, advance)
      case None => None
      case Some(k) => Some(k + 1)
  }

  /** `get_cur_implied_on_ticker` over a given list of preferred buckets. */
  function SelectBucket(policyDates: seq<Date>, spot: Date, advance: (Date, string) -> Date,
                        buckets: seq<Bucket>): (r: Selection)
    ensures r == NoPolicyDateAfterSpot <==> forall j :: 0 <= j < |policyDates| ==> policyDates[j] <= spot
    ensures r.Selected? ==>
              var first := policyDates[FirstAfter(policyDates, spot).value];
              && first > spot
              && (r.choice.None? <==> forall j :: 0 <= j < |buckets| ==> !Fits(buckets[j], spot, first, advance))
              && (r.choice.Some? ==>
                    exists i :: 0 <= i < |buckets| && buckets[i] == r.choice.value
                                && Fits(buckets[i], spot, first, advance)
                                && forall j :: 0 <= j < i ==> !Fits(buckets[j], spot, first, advance))
  {
    match FirstAfter(policyDates, spot)
    case None => NoPolicyDateAfterSpot
    case Some(k) =>
      match FirstFitting(buckets, spot, policyDates[k], advance)
      case None => Selected(None)
      case Some(i) => Selected(Some(buckets[i]))
  }

  /** The source's selection, over its fixed Fed Funds bucket list. */
  function CurImpliedOnTicker(policyDates: seq<Date>, spot: Date, advance: (Date, string) -> Date)
    : (r: Selection)
    ensures r.Selected? && r.choice.Some? ==> r.choice.value in FedFundsBuckets
  {
    SelectBucket(policyDates, spot, advance, FedFundsBuckets)
  }

}
