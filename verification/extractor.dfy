/** The extraction stage (`acessar_extrair_dados`): turns the rows of the
    scraped table of Brazilian states into validated
    (state, capital, region) records.  The browser session is not modelled:
    its outcome is the `Scrape` value handed in. */
module Extractor {
  import opened Results
  import opened Text

  /** Number of federated states the table must list. */
  const ExpectedStates: nat := 26

  /** One state as read from the page. */
  datatype StateRecord = StateRecord(state: string, capital: string, region: string)

  /** What the browser session produced: the cells of every `tr` of the
      table (header row first), or nothing because the table could not be
      located or did not become visible within the wait. */
  datatype Scrape = TableShown(rows: seq<seq<string>>) | TableMissing

  /** The record read from one data row: cells 1, 2 and 3, stripped. */
  function RecordOf(cells: seq<string>, ws: char -> bool): StateRecord
    requires |cells| >= 4
  {
    StateRecord(Trim(cells[1], ws), Trim(cells[2], ws), Trim(cells[3], ws))
  }

  /** Reads every data row in order.  A row with fewer than four cells makes
      the index access fail, which the stage reports as its one failure. */
  function ParseRows(rows: seq<seq<string>>, ws: char -> bool): (r: Result<seq<StateRecord>>)
    ensures r.Success? <==> forall i :: 0 <= i < |rows| ==> |rows[i]| >= 4
    ensures r.Success? ==> |r.value| == |rows|
    ensures r.Success? ==> forall i :: 0 <= i < |rows| ==> r.value[i] == RecordOf(rows[i], ws)
  {
    if |rows| == 0 then Success([])
    else if |rows[0]| < 4 then Failure(ValueError)
    else
      var rest :- ParseRows(rows[1..], ws);
      Success([RecordOf(rows[0], ws)] + rest)
  }

  /** The whole stage.  It succeeds exactly when the table was shown, has a
      header plus 26 data rows, and every data row has at least four cells;
      then the i-th record is cells 1..3 of data row i, stripped.  Every
      other outcome is the single `ValueError`. */
  function Extract(page: Scrape, ws: char -> bool): (r: Result<seq<StateRecord>>)
    ensures r.Success? <==>
      && page.TableShown?
      && |page.rows| == ExpectedStates + 1
      && forall i :: 1 <= i < |page.rows| ==> |page.rows[i]| >= 4
    ensures r.Success? ==> |r.value| == ExpectedStates == |page.rows| - 1
    ensures r.Success? ==> forall i :: 0 <= i < |r.value| ==>
      var cells := page.rows[i + 1];
      r.value[i] == StateRecord(Trim(cells[1], ws), Trim(cells[2], ws), Trim(cells[3], ws))
    ensures r.Success? ==> forall i :: 0 <= i < |r.value| ==>
      Trimmed(r.value[i].state, ws) && Trimmed(r.value[i].capital, ws) && Trimmed(r.value[i].region, ws)
  {
    match page
    case TableMissing => Failure(ValueError)
    case TableShown(rows) =>
      var data := if |rows| == 0 then [] else rows[1..];
      var parsed := ParseRows(data, ws);
      assert parsed.Success? <==> forall i :: 1 <= i < |rows| ==> |rows[i]| >= 4 by {
        if |rows| > 0 {
          assert forall i :: 1 <= i < |rows| ==> rows[i] == data[i - 1];
        }
      }
      if parsed.Failure? then Failure(ValueError)
      else if |parsed.value| != ExpectedStates then Failure(ValueError)
      else parsed
  }

  /** The header row never contributes: two tables that differ only in
      their first row extract to the same result. */
  lemma HeaderIgnored(h1: seq<string>, h2: seq<string>, data: seq<seq<string>>, ws: char -> bool)
    ensures Extract(TableShown([h1] + data), ws) == Extract(TableShown([h2] + data), ws)
  {
    assert ([h1] + data)[1..] == data == ([h2] + data)[1..];
  }
}
