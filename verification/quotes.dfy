/**
  The quote registry of wirp.py: a dictionary from ticker to a mutable quote.

  Every curve helper holds a handle on the quote of its ticker, so a handle is
  modelled by its ticker: reading a handle is looking the ticker up in the
  current registry, and an update of the registry is seen by every holder.
 */
module Quotes {

  /*
    Tickers are opaque keys (strings in the source): the registry never looks
    inside them, so every definition here is generic in the ticker type T.
   */

  /** Ticker -> current level of its quote. */
  type Registry<T> = map<T, real>

  /** One row of a batched market-data fetch: the security and its last price. */
  datatype Row<T> = Row(security: T, pxLast: real)

  /** The set of securities named by some row. */
  function Securities<T>(rows: seq<Row<T>>): set<T>
  {
    set i | 0 <= i < |rows| :: rows[i].security
  }

  /** `get`: register a missing ticker at 0.0, or return the existing quote. */
  function Get<T>(q: Registry<T>, t: T): (r: (Registry<T>, real))
    ensures r.0.Keys == q.Keys + {t}
    ensures r.1 == r.0[t]
    ensures t in q ==> r.0 == q && r.1 == q[t]
    ensures t !in q ==> r.1 == 0.0 && |r.0| == |q| + 1
    ensures forall k :: k in q ==> r.0[k] == q[k]
  {
    if t !in q then (q[t := 0.0], 0.0) else (q, q[t])
  }

  /** `set`: fetch (creating if needed) the quote of `t` and overwrite its level. */
  function Set<T>(q: Registry<T>, t: T, v: real): (r: Registry<T>)
    ensures r.Keys == q.Keys + {t}
    ensures r[t] == v
    ensures forall k :: k in q && k != t ==> r[k] == q[k]
  {
    q[t := v]
  }

  /** `set` is `get` (registering the ticker at 0.0 if absent) followed by writing the level. */
  lemma SetIsGetThenWrite<T>(q: Registry<T>, t: T, v: real)
    ensures Set(q, t, v) == Get(q, t).0[t := v]
  {
  }

  /** `update`: apply the fetched rows in order, each one through `set`. */
  function Update<T>(q: Registry<T>, rows: seq<Row<T>>): (r: Registry<T>)
    ensures r.Keys == q.Keys + Securities(rows)
    decreases |rows|
  {
    if rows == [] then q
    else
      var prev := rows[..|rows| - 1];
      assert Securities(rows) == Securities(prev) + {rows[|rows| - 1].security} by {
        assert forall i :: 0 <= i < |prev| ==> prev[i] == rows[i];
      }
      Set(Update(q, prev), rows[|rows| - 1].security, rows[|rows| - 1].pxLast)
  }

  /** A row's level lands on its ticker when no later row names the same ticker. */
  lemma {:induction false} LastRowWins<T>(q: Registry<T>, rows: seq<Row<T>>, i: nat)
    requires i < |rows|
    requires forall j :: i < j < |rows| ==> rows[j].security != rows[i].security
    ensures rows[i].security in Update(q, rows)
    ensures Update(q, rows)[rows[i].security] == rows[i].pxLast
    decreases |rows|
  {
    var prev := rows[..|rows| - 1];
    if i < |rows| - 1 {
      LastRowWins(q, prev, i);
    }
  }

  /** A ticker no row names keeps its registration status and its previous level. */
  lemma {:induction false} UntouchedKeepsLevel<T>(q: Registry<T>, rows: seq<Row<T>>, t: T)
    requires forall j :: 0 <= j < |rows| ==> rows[j].security != t
    ensures t in Update(q, rows) <==> t in q
    ensures t in q ==> Update(q, rows)[t] == q[t]
    decreases |rows|
  {
    if rows != [] {
      UntouchedKeepsLevel(q, rows[..|rows| - 1], t);
    }
  }

}
