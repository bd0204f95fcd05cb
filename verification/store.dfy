/** The store stage (`criar_inserir_banco_dados`): the table `estados`
    keyed by `estado TEXT PRIMARY KEY`, loaded with `INSERT OR REPLACE`, one
    record after the other.  The table is a map from state to the rest of
    its row; the SQLite file, connection and commit are not modelled. */
module Store {
  import opened Results

  /** One unified record as handed to the store, its population taken to be
      an integer (only the case where the split text is an integer literal
      is modelled). */
  datatype Record = Record(state: string, capital: string, region: string, population: int)

  /** The non-key columns of a stored row. */
  datatype Row = Row(capital: string, region: string, population: int)

  /** The table `estados`: at most one row per state, by construction. */
  type Table = map<string, Row>

  /** The row a record is stored as. */
  function RowOf(r: Record): Row {
    Row(r.capital, r.region, r.population)
  }

  /** The states the records mention. */
  function States(recs: seq<Record>): set<string> {
    set i | 0 <= i < |recs| :: recs[i].state
  }

  /** Appending a record adds its state. */
  lemma StatesSnoc(recs: seq<Record>, r: Record)
    ensures States(recs + [r]) == States(recs) + {r.state}
  {
    var t := recs + [r];
    assert t[|recs|] == r;
    assert forall i :: 0 <= i < |recs| ==> t[i] == recs[i];
  }

  /** The position of the last record with state `s`. */
  function LastIndex(recs: seq<Record>, s: string): (i: nat)
    requires s in States(recs)
    ensures i < |recs| && recs[i].state == s
    ensures forall j :: i < j < |recs| ==> recs[j].state != s
  {
    var n := |recs| - 1;
    if recs[n].state == s then n
    else
      assert s in States(recs[..n]) by {
        var k :| 0 <= k < |recs| && recs[k].state == s;
        assert recs[..n][k] == recs[k];
      }
      LastIndex(recs[..n], s)
  }

  /** `INSERT OR REPLACE` of every record, in order. */
  function Load(t: Table, recs: seq<Record>): Table {
    if |recs| == 0 then t
    else Load(t, recs[..|recs| - 1])[recs[|recs| - 1].state := RowOf(recs[|recs| - 1])]
  }

  /** After loading, the keys are the old keys plus the records' states:
      one row per state, whatever the number of records for it. */
  lemma {:induction false} LoadKeys(t: Table, recs: seq<Record>)
    ensures Load(t, recs).Keys == t.Keys + States(recs)
  {
    if |recs| > 0 {
      var n := |recs| - 1;
      LoadKeys(t, recs[..n]);
      StatesSnoc(recs[..n], recs[n]);
      assert recs[..n] + [recs[n]] == recs;
    }
  }

  /** The last write wins: a state the records mention holds the row of its
      last record. */
  lemma {:induction false} LoadLastWins(t: Table, recs: seq<Record>)
    ensures forall s :: s in States(recs) ==> s in Load(t, recs) && Load(t, recs)[s] == RowOf(recs[LastIndex(recs, s)])
  {
    LoadKeys(t, recs);
    if |recs| > 0 {
      var n := |recs| - 1;
      var prefix := recs[..n];
      LoadLastWins(t, prefix);
      StatesSnoc(prefix, recs[n]);
      assert prefix + [recs[n]] == recs;
      forall s | s in States(recs) ensures s in Load(t, recs) && Load(t, recs)[s] == RowOf(recs[LastIndex(recs, s)]) {
        if s != recs[n].state {
          var i := LastIndex(prefix, s);
          assert recs[i] == prefix[i];
        }
      }
    }
  }

  /** Nothing else changes: a state the records do not mention keeps its
      row. */
  lemma {:induction false} LoadKeepsOthers(t: Table, recs: seq<Record>)
    ensures forall s :: s in t && s !in States(recs) ==> s in Load(t, recs) && Load(t, recs)[s] == t[s]
  {
    LoadKeys(t, recs);
    if |recs| > 0 {
      var n := |recs| - 1;
      var prefix := recs[..n];
      LoadKeepsOthers(t, prefix);
      StatesSnoc(prefix, recs[n]);
      assert prefix + [recs[n]] == recs;
    }
  }

  /** Loading `a` then `b` is loading `a + b`: the loop is a left fold. */
  lemma {:induction false} LoadAppend(t: Table, a: seq<Record>, b: seq<Record>)
    ensures Load(t, a + b) == Load(Load(t, a), b)
  {
    if |b| == 0 {
      assert a + b == a;
    } else {
      var n := |b| - 1;
      var ab := a + b;
      var m := |ab| - 1;
      assert ab[..m] == a + b[..n];
      assert ab[m] == b[n];
      LoadAppend(t, a, b[..n]);
    }
  }

  /** Loading the same records again changes nothing: re-running the
      pipeline converges instead of duplicating rows. */
  lemma LoadIdempotent(t: Table, recs: seq<Record>)
    ensures Load(Load(t, recs), recs) == Load(t, recs)
  {
    var once := Load(t, recs);
    var twice := Load(once, recs);
    LoadLastWins(t, recs);
    LoadLastWins(once, recs);
    LoadKeepsOthers(t, recs);
    LoadKeepsOthers(once, recs);
    LoadKeys(t, recs);
    LoadKeys(once, recs);
    assert twice.Keys == once.Keys;
    forall s | s in twice ensures twice[s] == once[s] {
      if s in States(recs) {
        assert twice[s] == RowOf(recs[LastIndex(recs, s)]);
      }
    }
  }

  /** Records loaded later overwrite rows loaded earlier: after loading `a`
      and then `b`, a state of `b` holds the row of its last record in
      `b`, whatever `a` said about it. */
  lemma SecondLoadWins(t: Table, a: seq<Record>, b: seq<Record>, s: string)
    requires s in States(b)
    ensures s in Load(t, a + b) && Load(t, a + b)[s] == RowOf(b[LastIndex(b, s)])
  {
    LoadAppend(t, a, b);
    LoadLastWins(Load(t, a), b);
  }

  /** Opening the store: `CREATE TABLE IF NOT EXISTS` leaves an existing
      table as it is and creates an empty one otherwise; then the records
      are loaded.  Starting without a table, the keys are exactly the
      records' states. */
  function CreateAndLoad(existing: Option<Table>, recs: seq<Record>): (r: Table)
    ensures existing.None? ==> r.Keys == States(recs)
    ensures existing.Some? ==> r.Keys == existing.value.Keys + States(recs)
    ensures forall s :: s in States(recs) ==> r[s] == RowOf(recs[LastIndex(recs, s)])
    ensures existing.Some? ==> forall s :: s in existing.value && s !in States(recs) ==>
      r[s] == existing.value[s]
  {
    var t := if existing.Some? then existing.value else map[];
    LoadKeys(t, recs);
    LoadLastWins(t, recs);
    LoadKeepsOthers(t, recs);
    Load(t, recs)
  }
}
