/**
  The calendar registry of wirp.py: a cache from settlement-calendar code to a
  bespoke business-day calendar, filled on first request from a holiday-data
  provider.

  Dates are day serial numbers. The provider is a function from calendar code
  to the holiday dates it reports; the registry also keeps the log of codes it
  has asked the provider for, so that "fetched at most once" can be stated.
 */
module Calendars {

  import opened Dates

  /** Day-of-week numbers of the week-end days, Sunday = 1 ... Saturday = 7. */
  const Sunday: int := 1
  const Saturday: int := 7

  /** Weekday of a serial date: serial modulo 7, with 0 read as Saturday. */
  function Weekday(d: Date): (w: int)
    ensures 1 <= w <= 7
    ensures w % 7 == d % 7
  {
    var m := d % 7;
    if m == 0 then Saturday else m
  }

  datatype Calendar = Calendar(id: string, weekend: set<int>, holidays: set<Date>)

  predicate IsBusinessDay(c: Calendar, d: Date)
  {
    Weekday(d) !in c.weekend && d !in c.holidays
  }

  /** Build the calendar for `id` from the fetched holiday dates. */
  function Build(id: string, fetched: seq<Date>): (c: Calendar)
    ensures c.id == id
    ensures forall d :: IsBusinessDay(c, d) <==>
                          Weekday(d) != Sunday && Weekday(d) != Saturday && d !in fetched
  {
    Calendar(id, {Sunday, Saturday}, set d | d in fetched)
  }

  datatype Registry = Registry(cache: map<string, Calendar>, fetchLog: seq<string>)

  const Empty: Registry := Registry(map[], [])

  /** Every cached calendar was built from the provider's answer, and each code was fetched once. */
  ghost predicate Valid(r: Registry, provider: string -> seq<Date>)
  {
    && (forall id :: id in r.cache <==> id in r.fetchLog)
    && (forall i, j :: 0 <= i < j < |r.fetchLog| ==> r.fetchLog[i] != r.fetchLog[j])
    && (forall id :: id in r.cache ==> r.cache[id] == Build(id, provider(id)))
  }

  /** `get`: return the cached calendar, or fetch the holidays once and cache the new calendar. */
  function Get(r: Registry, id: string, provider: string -> seq<Date>): (res: (Registry, Calendar))
    ensures res.0.cache.Keys == r.cache.Keys + {id}
    ensures res.1 == res.0.cache[id]
    ensures id in r.cache ==> res.0 == r && res.1 == r.cache[id]
    ensures id !in r.cache ==> res.0.fetchLog == r.fetchLog + [id] && res.1 == Build(id, provider(id))
    ensures forall k :: k in r.cache ==> res.0.cache[k] == r.cache[k]
    ensures Valid(r, provider) ==> Valid(res.0, provider) && res.1 == Build(id, provider(id))
  {
    if id in r.cache then (r, r.cache[id])
    else
      var c := Build(id, provider(id));
      (Registry(r.cache[id := c], r.fetchLog + [id]), c)
  }

  /** A run of `get` calls, in order, returning the final registry. */
  function GetAll(r: Registry, ids: seq<string>, provider: string -> seq<Date>): Registry
    decreases |ids|
  {
    if ids == [] then r else GetAll(Get(r, ids[0], provider).0, ids[1..], provider)
  }

  /** However many `get` calls are made, the provider is asked once per distinct code, exactly the codes requested. */
  lemma {:induction false} GetAllFetchesOnce(r: Registry, ids: seq<string>, provider: string -> seq<Date>)
    requires Valid(r, provider)
    ensures Valid(GetAll(r, ids, provider), provider)
    ensures forall id :: id in GetAll(r, ids, provider).fetchLog <==> id in r.fetchLog || id in ids
    ensures |GetAll(r, ids, provider).fetchLog| <= |r.fetchLog| + |ids|
    decreases |ids|
  {
    if ids != [] {
      var r1 := Get(r, ids[0], provider).0;
      GetAllFetchesOnce(r1, ids[1..], provider);
      assert forall id :: id in ids <==> id == ids[0] || id in ids[1..];
    }
  }

}
