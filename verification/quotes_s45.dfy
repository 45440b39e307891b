/**
  The quote registry of curve_s45.py. Its `get` follows the same rule as
  wirp.py's (`Quotes.Get`); its `update` differs: it indexes the dictionary
  directly, so a row naming an unregistered ticker raises a KeyError. The
  dictionary is mutated in place, so the rows before the offending one stay
  applied when the error escapes.
 */
module QuotesS45 {

  import opened Quotes

  datatype UpdateResult<T> =
    | Updated(quotes: Registry<T>)
      /** Row `row` named unregistered `ticker`; `partial` is the registry left behind. */
    | KeyError(row: nat, ticker: T, partial: Registry<T>)

  /** `update`: write each row's level, in order, into the already-registered quote of its ticker. */
  function Update<T>(q: Registry<T>, rows: seq<Row<T>>): (r: UpdateResult<T>)
    ensures r.Updated? <==> forall j :: 0 <= j < |rows| ==> rows[j].security in q
    ensures r.Updated? ==> r.quotes.Keys == q.Keys
    ensures r.KeyError? ==>
              && r.row < |rows|
              && r.ticker == rows[r.row].security
              && r.ticker !in q
              && (forall j :: 0 <= j < r.row ==> rows[j].security in q)
              && r.partial.Keys == q.Keys
    decreases |rows|
  {
    if rows == [] then Updated(q)
    else
      var n := |rows| - 1;
      match Update(q, rows[..n])
      case KeyError(row, ticker, partial) => KeyError(row, ticker, partial)
      case Updated(current) =>
        if rows[n].security !in current then KeyError(n, rows[n].security, current)
        else Updated(current[rows[n].security := rows[n].pxLast])
  }

  /**
    When every row names a registered ticker this update and wirp.py's agree;
    otherwise the registry left behind is wirp.py's update of the rows before
    the offending one.
   */
  lemma {:induction false} AgreesWithWirp<T>(q: Registry<T>, rows: seq<Row<T>>)
    ensures Update(q, rows).Updated? ==> Update(q, rows).quotes == Quotes.Update(q, rows)
    ensures Update(q, rows).KeyError? ==>
              Update(q, rows).partial == Quotes.Update(q, rows[..Update(q, rows).row])
    decreases |rows|
  {
    if rows != [] {
      var n := |rows| - 1;
      AgreesWithWirp(q, rows[..n]);
      match Update(q, rows[..n])
      case KeyError(row, ticker, partial) =>
        assert Update(q, rows) == KeyError(row, ticker, partial);
        assert rows[..n][..row] == rows[..row];
      case Updated(current) =>
        var t := rows[n].security;
        if t in current {
          assert Update(q, rows) == Updated(current[t := rows[n].pxLast]);
          assert Quotes.Update(q, rows) == Set(Quotes.Update(q, rows[..n]), t, rows[n].pxLast);
          assert Set(current, t, rows[n].pxLast) == current[t := rows[n].pxLast];
        } else {
          assert Update(q, rows) == KeyError(n, t, current);
        }
    }
  }

}
