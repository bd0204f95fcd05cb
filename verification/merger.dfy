/** The merge stage (`ler_estruturar_arquivo_entrada`): reads the column of
    `"Capital:Population"` cells of the population spreadsheet, splits it,
    upper-cases the capitals, keeps the first row of every capital, and
    inner-joins the result with the extracted states on the capital.
    Loading the spreadsheet is not modelled: its column arrives as `cells`. */
module Merger {
  import opened Results
  import opened Text
  import opened Seqs
  import opened Extractor

  /** One row of the population table.  The population stays text, as the
      split leaves it; it is `None` for a cell without a colon. */
  datatype PopulationRow = PopulationRow(capital: string, population: Option<string>)

  /** One row of the unified table, in its column order
      (Estado, Capital, Região, População). */
  datatype UnifiedRecord = UnifiedRecord(state: string, capital: string, region: string, population: Option<string>)

  // ---------------------------------------------------------------------
  // Splitting the combined column

  /** Number of colons in a cell. */
  function Colons(cell: string): nat {
    multiset(cell)[':']
  }

  /** The column can be split into exactly two columns: it is not empty, no
      cell has two colons, and some cell has one. */
  predicate WellFormedColumn(cells: seq<string>) {
    && |cells| > 0
    && (forall i :: 0 <= i < |cells| ==> Colons(cells[i]) <= 1)
    && (exists i :: 0 <= i < |cells| && Colons(cells[i]) == 1)
  }

  /** The number of columns `str.split(':', expand=True)` produces: the
      largest number of pieces of any cell, one more than its colons. */
  function Width(cells: seq<string>): (w: nat)
    ensures forall i :: 0 <= i < |cells| ==> Colons(cells[i]) + 1 <= w
    ensures |cells| > 0 ==> exists i :: 0 <= i < |cells| && Colons(cells[i]) + 1 == w
    ensures |cells| == 0 ==> w == 0
  {
    if |cells| == 0 then 0
    else
      var n := Colons(cells[0]) + 1;
      var rest := Width(cells[1..]);
      assert forall i :: 1 <= i < |cells| ==> cells[i] == cells[1..][i - 1];
      if n >= rest then n else rest
  }

  /** The row one cell splits into: the text before the colon and, when
      there is a colon, the text after it. */
  function SplitRow(cell: string): PopulationRow {
    var pieces := SplitAll(cell, ':');
    PopulationRow(pieces[0], if |pieces| >= 2 then Some(pieces[1]) else None)
  }

  /** What splitting a cell with at most one colon gives. */
  lemma SplitRowFacts(cell: string)
    requires Colons(cell) <= 1
    ensures ':' !in SplitRow(cell).capital
    ensures Colons(cell) == 1 ==>
      SplitRow(cell).population.Some?
      && SplitRow(cell).capital + ":" + SplitRow(cell).population.value == cell
    ensures Colons(cell) == 0 ==> SplitRow(cell) == PopulationRow(cell, None)
  {
    var pieces := SplitAll(cell, ':');
    if |pieces| == 2 {
      assert JoinWith(pieces[1..], ':') == pieces[1];
    }
  }

  /** Splits the combined column into Capital and População.  Assigning the
      split to exactly two columns fails unless the widest split has two
      pieces; otherwise every cell is split on its own. */
  function SplitColumn(cells: seq<string>): (r: Result<seq<PopulationRow>>)
    ensures r.Success? <==> WellFormedColumn(cells)
    ensures r.Success? ==> |r.value| == |cells|
    ensures r.Success? ==> forall i :: 0 <= i < |cells| ==> r.value[i] == SplitRow(cells[i])
  {
    if Width(cells) != 2 then Failure(ValueError)
    else
      assert WellFormedColumn(cells);
      Success(seq(|cells|, i requires 0 <= i < |cells| => SplitRow(cells[i])))
  }

  /** The split loses nothing: in a well-formed column no capital holds a
      colon, a cell with one colon is its capital, a colon and its
      population, and a cell without a colon is all capital with no
      population. */
  lemma SplitColumnRoundTrip(cells: seq<string>)
    requires WellFormedColumn(cells)
    ensures var rows := SplitColumn(cells).value;
      forall i :: 0 <= i < |cells| ==>
        && ':' !in rows[i].capital
        && (Colons(cells[i]) == 1 ==> rows[i].population.Some? && rows[i].capital + ":" + rows[i].population.value == cells[i])
        && (Colons(cells[i]) == 0 ==> rows[i] == PopulationRow(cells[i], None))
  {
    var rows := SplitColumn(cells).value;
    forall i | 0 <= i < |cells|
      ensures ':' !in rows[i].capital
      ensures Colons(cells[i]) == 1 ==> rows[i].population.Some? && rows[i].capital + ":" + rows[i].population.value == cells[i]
      ensures Colons(cells[i]) == 0 ==> rows[i] == PopulationRow(cells[i], None)
    {
      SplitRowFacts(cells[i]);
    }
  }

  // ---------------------------------------------------------------------
  // Upper-casing and keep-first de-duplication

  /** Upper-cases the capital of every row. */
  function UpperCapitals(rows: seq<PopulationRow>, up: char -> char): (r: seq<PopulationRow>)
    ensures |r| == |rows|
    ensures forall i :: 0 <= i < |rows| ==>
      r[i].capital == Upper(rows[i].capital, up) && r[i].population == rows[i].population
  {
    seq(|rows|, i requires 0 <= i < |rows| => PopulationRow(Upper(rows[i].capital, up), rows[i].population))
  }

  /** The capitals occurring in a population table. */
  function Capitals(rows: seq<PopulationRow>): set<string> {
    set i | 0 <= i < |rows| :: rows[i].capital
  }

  /** No two rows share a capital. */
  predicate DistinctCapitals(rows: seq<PopulationRow>) {
    forall i, j :: 0 <= i < j < |rows| ==> rows[i].capital != rows[j].capital
  }

  /** The position of the earliest row with capital `c`. */
  function FirstIndex(rows: seq<PopulationRow>, c: string): (i: nat)
    requires c in Capitals(rows)
    ensures i < |rows| && rows[i].capital == c
  {
    FirstFrom(rows, c, 0)
  }

  /** The position of the earliest row with capital `c` from position `i`
      on. */
  function FirstFrom(rows: seq<PopulationRow>, c: string, i: nat): (p: nat)
    requires i <= |rows| && exists k :: i <= k < |rows| && rows[k].capital == c
    ensures i <= p < |rows| && rows[p].capital == c
    decreases |rows| - i
  {
    if rows[i].capital == c then i else FirstFrom(rows, c, i + 1)
  }

  /** No row from position `i` up to `FirstFrom(rows, c, i)` has capital
      `c`. */
  lemma {:induction false} FirstFromEarliest(rows: seq<PopulationRow>, c: string, i: nat)
    requires i <= |rows| && exists k :: i <= k < |rows| && rows[k].capital == c
    ensures forall j :: i <= j < FirstFrom(rows, c, i) ==> rows[j].capital != c
    decreases |rows| - i
  {
    if rows[i].capital != c {
      FirstFromEarliest(rows, c, i + 1);
    }
  }

  /** No row before `FirstIndex(rows, c)` has capital `c`. */
  lemma FirstIndexEarliest(rows: seq<PopulationRow>, c: string)
    requires c in Capitals(rows)
    ensures forall j :: 0 <= j < FirstIndex(rows, c) ==> rows[j].capital != c
  {
    FirstFromEarliest(rows, c, 0);
  }

  /** The capitals of `rows` are those of all but its last row, plus the
      last row's. */
  lemma CapitalsSnoc(rows: seq<PopulationRow>, last: PopulationRow)
    ensures Capitals(rows + [last]) == Capitals(rows) + {last.capital}
  {
    var t := rows + [last];
    assert t[|rows|] == last;
    forall c | c in Capitals(rows) ensures c in Capitals(t) {
      var i :| 0 <= i < |rows| && rows[i].capital == c;
      assert t[i] == rows[i];
    }
  }

  /** Extending a table at the end does not move the earliest row of a
      capital it already had. */
  lemma FirstIndexPrefix(rows: seq<PopulationRow>, n: nat, c: string)
    requires n <= |rows| && c in Capitals(rows[..n])
    ensures c in Capitals(rows)
    ensures FirstIndex(rows, c) == FirstIndex(rows[..n], c)
  {
    var i := FirstIndex(rows[..n], c);
    assert rows[i] == rows[..n][i];
    FirstIndexEarliest(rows[..n], c);
    FirstIndexEarliest(rows, c);
    assert forall j :: 0 <= j < i ==> rows[j] == rows[..n][j];
  }

  /** `drop_duplicates(subset='Capital', keep='first')`: walks the rows in
      order and keeps a row when no earlier row has its capital.  Every
      capital of the input is kept. */
  function KeepFirst(rows: seq<PopulationRow>): (r: seq<PopulationRow>)
    ensures Capitals(r) == Capitals(rows)
  {
    if |rows| == 0 then []
    else
      var n := |rows| - 1;
      var d := KeepFirst(rows[..n]);
      assert rows[..n] + [rows[n]] == rows;
      CapitalsSnoc(rows[..n], rows[n]);
      if rows[n].capital in Capitals(d) then d
      else
        CapitalsSnoc(d, rows[n]);
        d + [rows[n]]
  }

  /** One step of the de-duplication, on the last row. */
  lemma KeepFirstStep(rows: seq<PopulationRow>)
    requires |rows| > 0
    ensures var d := KeepFirst(rows[..|rows| - 1]);
      KeepFirst(rows) == if rows[|rows| - 1].capital in Capitals(d) then d else d + [rows[|rows| - 1]]
  {
  }

  /** No two rows kept by the de-duplication share a capital. */
  lemma {:induction false} KeepFirstDistinctCapitals(rows: seq<PopulationRow>)
    ensures DistinctCapitals(KeepFirst(rows))
  {
    if |rows| > 0 {
      var n := |rows| - 1;
      var d := KeepFirst(rows[..n]);
      KeepFirstDistinctCapitals(rows[..n]);
      KeepFirstStep(rows);
      if rows[n].capital !in Capitals(d) {
        var r := d + [rows[n]];
        forall i, j | 0 <= i < j < |r| ensures r[i].capital != r[j].capital {
          assert r[i] == d[i];
          if j == |d| {
            assert d[i].capital in Capitals(d);
          } else {
            assert r[j] == d[j];
          }
        }
      }
    }
  }

  /** Rows that are the earliest of their capital in `prefix` stay the
      earliest when rows are added after it. */
  lemma KeptBeforeLast(rows: seq<PopulationRow>, n: nat, d: seq<PopulationRow>)
    requires n <= |rows|
    requires forall k :: 0 <= k < |d| ==> d[k].capital in Capitals(rows[..n]) && d[k] == rows[..n][FirstIndex(rows[..n], d[k].capital)]
    ensures forall k :: 0 <= k < |d| ==>
      && d[k].capital in Capitals(rows)
      && FirstIndex(rows, d[k].capital) == FirstIndex(rows[..n], d[k].capital)
      && d[k] == rows[FirstIndex(rows, d[k].capital)]
  {
    forall k | 0 <= k < |d|
      ensures d[k].capital in Capitals(rows)
      ensures FirstIndex(rows, d[k].capital) == FirstIndex(rows[..n], d[k].capital)
      ensures d[k] == rows[FirstIndex(rows, d[k].capital)]
    {
      var c := d[k].capital;
      FirstIndexPrefix(rows, n, c);
      assert rows[FirstIndex(rows[..n], c)] == rows[..n][FirstIndex(rows[..n], c)];
    }
  }

  /** The last row's capital is new exactly when no earlier row has it,
      and then the last row is the earliest of its capital. */
  lemma LastIsEarliest(rows: seq<PopulationRow>)
    requires |rows| > 0 && rows[|rows| - 1].capital !in Capitals(rows[..|rows| - 1])
    ensures rows[|rows| - 1].capital in Capitals(rows)
    ensures FirstIndex(rows, rows[|rows| - 1].capital) == |rows| - 1
  {
    var n := |rows| - 1;
    var c := rows[n].capital;
    assert c in Capitals(rows) by {
      assert rows[n].capital == c;
    }
    forall j | 0 <= j < n ensures rows[j].capital != c {
      assert rows[..n][j] == rows[j];
      assert rows[..n][j].capital in Capitals(rows[..n]);
    }
  }

  /** Appending a row with a new capital to rows that are each the earliest
      of their capital keeps them so. */
  lemma EarliestSnoc(rows: seq<PopulationRow>, d: seq<PopulationRow>)
    requires |rows| > 0 && rows[|rows| - 1].capital in Capitals(rows)
    requires FirstIndex(rows, rows[|rows| - 1].capital) == |rows| - 1
    requires forall k :: 0 <= k < |d| ==> d[k].capital in Capitals(rows) && d[k] == rows[FirstIndex(rows, d[k].capital)]
    ensures var r := d + [rows[|rows| - 1]];
      forall k :: 0 <= k < |r| ==> r[k].capital in Capitals(rows) && r[k] == rows[FirstIndex(rows, r[k].capital)]
  {
    var r := d + [rows[|rows| - 1]];
    forall k | 0 <= k < |r|
      ensures r[k].capital in Capitals(rows) && r[k] == rows[FirstIndex(rows, r[k].capital)]
    {
      if k < |d| {
        assert r[k] == d[k];
      }
    }
  }

  /** The de-duplication keeps, for each capital, its earliest row. */
  lemma {:induction false} KeepFirstEarliest(rows: seq<PopulationRow>)
    ensures var r := KeepFirst(rows);
      forall k :: 0 <= k < |r| ==> r[k].capital in Capitals(rows) && r[k] == rows[FirstIndex(rows, r[k].capital)]
  {
    if |rows| > 0 {
      var n := |rows| - 1;
      var d := KeepFirst(rows[..n]);
      KeepFirstEarliest(rows[..n]);
      KeepFirstStep(rows);
      KeptBeforeLast(rows, n, d);
      if rows[n].capital !in Capitals(d) {
        LastIsEarliest(rows);
        EarliestSnoc(rows, d);
      }
    }
  }

  /** Appending a row with a new capital, the latest of all, keeps the
      rows in order of their earliest positions. */
  lemma OrderedSnoc(rows: seq<PopulationRow>, d: seq<PopulationRow>)
    requires |rows| > 0 && rows[|rows| - 1].capital in Capitals(rows)
    requires FirstIndex(rows, rows[|rows| - 1].capital) == |rows| - 1
    requires forall k :: 0 <= k < |d| ==> d[k].capital in Capitals(rows) && FirstIndex(rows, d[k].capital) < |rows| - 1
    requires forall k1, k2 :: 0 <= k1 < k2 < |d| ==> FirstIndex(rows, d[k1].capital) < FirstIndex(rows, d[k2].capital)
    ensures var r := d + [rows[|rows| - 1]];
      forall k1, k2 :: 0 <= k1 < k2 < |r| ==>
        && r[k1].capital in Capitals(rows) && r[k2].capital in Capitals(rows)
        && FirstIndex(rows, r[k1].capital) < FirstIndex(rows, r[k2].capital)
  {
    var r := d + [rows[|rows| - 1]];
    forall k1, k2 | 0 <= k1 < k2 < |r|
      ensures r[k1].capital in Capitals(rows) && r[k2].capital in Capitals(rows)
      ensures FirstIndex(rows, r[k1].capital) < FirstIndex(rows, r[k2].capital)
    {
      assert r[k1] == d[k1];
      if k2 < |d| {
        assert r[k2] == d[k2];
      }
    }
  }

  /** Rows in order of their earliest positions in `rows[..n]` are in the
      same order in `rows`, all before position `n`. */
  lemma OrderedBeforeLast(rows: seq<PopulationRow>, n: nat, d: seq<PopulationRow>)
    requires n <= |rows|
    requires forall k :: 0 <= k < |d| ==> d[k].capital in Capitals(rows[..n])
    requires forall k1, k2 :: 0 <= k1 < k2 < |d| ==>
      FirstIndex(rows[..n], d[k1].capital) < FirstIndex(rows[..n], d[k2].capital)
    ensures forall k :: 0 <= k < |d| ==> d[k].capital in Capitals(rows) && FirstIndex(rows, d[k].capital) < n
    ensures forall k1, k2 :: 0 <= k1 < k2 < |d| ==> FirstIndex(rows, d[k1].capital) < FirstIndex(rows, d[k2].capital)
  {
    forall k | 0 <= k < |d|
      ensures d[k].capital in Capitals(rows)
      ensures FirstIndex(rows, d[k].capital) == FirstIndex(rows[..n], d[k].capital) < n
    {
      FirstIndexPrefix(rows, n, d[k].capital);
    }
  }

  /** One step of the order proof: `d`, the de-duplicated prefix, holds
      capitals of the prefix in the order of their earliest positions, and
      `r` is `d` after the step on the last row. */
  lemma OrderedStep(rows: seq<PopulationRow>, d: seq<PopulationRow>, r: seq<PopulationRow>)
    requires |rows| > 0
    requires forall k :: 0 <= k < |d| ==> d[k].capital in Capitals(rows[..|rows| - 1])
    requires forall k1, k2 :: 0 <= k1 < k2 < |d| ==>
      FirstIndex(rows[..|rows| - 1], d[k1].capital) < FirstIndex(rows[..|rows| - 1], d[k2].capital)
    requires r == if rows[|rows| - 1].capital in Capitals(rows[..|rows| - 1]) then d else d + [rows[|rows| - 1]]
    ensures forall k1, k2 :: 0 <= k1 < k2 < |r| ==>
      && r[k1].capital in Capitals(rows) && r[k2].capital in Capitals(rows)
      && FirstIndex(rows, r[k1].capital) < FirstIndex(rows, r[k2].capital)
  {
    var n := |rows| - 1;
    OrderedBeforeLast(rows, n, d);
    if rows[n].capital in Capitals(rows[..n]) {
      assert r == d;
    } else {
      assert r == d + [rows[n]];
      LastIsEarliest(rows);
      OrderedSnoc(rows, d);
    }
  }

  /** The de-duplication keeps rows in the order of their positions in the
      input, so its result is a subsequence of the input. */
  lemma {:induction false} KeepFirstOrdered(rows: seq<PopulationRow>)
    ensures var r := KeepFirst(rows);
      forall k1, k2 :: 0 <= k1 < k2 < |r| ==>
        && r[k1].capital in Capitals(rows) && r[k2].capital in Capitals(rows)
        && FirstIndex(rows, r[k1].capital) < FirstIndex(rows, r[k2].capital)
  {
    if |rows| > 0 {
      var n := |rows| - 1;
      var d := KeepFirst(rows[..n]);
      KeepFirstOrdered(rows[..n]);
      KeepFirstStep(rows);
      OrderedStep(rows, d, KeepFirst(rows));
    }
  }

  /** A table whose capitals are already distinct is left as it is, so the
      de-duplication is idempotent. */
  lemma {:induction false} KeepFirstDistinct(rows: seq<PopulationRow>)
    requires DistinctCapitals(rows)
    ensures KeepFirst(rows) == rows
  {
    if |rows| > 0 {
      var n := |rows| - 1;
      var prefix := rows[..n];
      KeepFirstDistinct(prefix);
      assert rows[n].capital !in Capitals(prefix);
      assert prefix + [rows[n]] == rows;
    }
  }

  lemma KeepFirstIdempotent(rows: seq<PopulationRow>)
    ensures KeepFirst(KeepFirst(rows)) == KeepFirst(rows)
  {
    KeepFirstDistinctCapitals(rows);
    KeepFirstDistinct(KeepFirst(rows));
  }

  // ---------------------------------------------------------------------
  // The population table

  /** A cell after splitting and upper-casing. */
  function NormalizedRow(cell: string, up: char -> char): PopulationRow {
    var p := SplitRow(cell);
    PopulationRow(Upper(p.capital, up), p.population)
  }

  /** The whole column after splitting and upper-casing, row by row. */
  function Normalized(cells: seq<string>, up: char -> char): (r: seq<PopulationRow>)
    ensures |r| == |cells|
  {
    if |cells| == 0 then [] else [NormalizedRow(cells[0], up)] + Normalized(cells[1..], up)
  }

  lemma {:induction false} NormalizedAt(cells: seq<string>, up: char -> char, i: nat)
    requires i < |cells|
    ensures Normalized(cells, up)[i] == NormalizedRow(cells[i], up)
  {
    if i > 0 {
      NormalizedAt(cells[1..], up, i - 1);
    }
  }

  /** Splitting the column and then upper-casing its capitals (lines 9-16)
      normalises every cell. */
  lemma SplitThenUpper(cells: seq<string>, up: char -> char)
    requires WellFormedColumn(cells)
    ensures UpperCapitals(SplitColumn(cells).value, up) == Normalized(cells, up)
  {
    var split := SplitColumn(cells).value;
    var upper := UpperCapitals(split, up);
    forall i | 0 <= i < |cells| ensures upper[i] == Normalized(cells, up)[i] {
      NormalizedAt(cells, up, i);
      var p := SplitRow(cells[i]);
      assert split[i] == p;
      assert upper[i].capital == Upper(p.capital, up);
    }
  }

  /** The population table the join reads (`df_arquivo` after line 19): it
      exists exactly when the column splits into two, and it is then the
      de-duplicated column of normalised cells. */
  function PopulationTable(cells: seq<string>, up: char -> char): (r: Result<seq<PopulationRow>>)
    ensures r.Success? <==> WellFormedColumn(cells)
    ensures r.Success? ==> r.value == KeepFirst(Normalized(cells, up))
  {
    var split := SplitColumn(cells);
    if split.Failure? then Failure(ValueError)
    else
      SplitThenUpper(cells, up);
      Success(KeepFirst(UpperCapitals(split.value, up)))
  }

  /** What the population table holds: its capitals are distinct and are
      exactly the normalised capitals of the cells; the row kept for a
      capital is the normalised form of the earliest cell with that
      capital; and kept rows are in the order of those cells. */
  lemma PopulationTableCorrect(cells: seq<string>, up: char -> char)
    requires WellFormedColumn(cells)
    ensures var rows := Normalized(cells, up);
      var t := PopulationTable(cells, up).value;
      && DistinctCapitals(t)
      && Capitals(t) == Capitals(rows)
      && (forall k :: 0 <= k < |t| ==> t[k] == rows[FirstIndex(rows, t[k].capital)])
      && (forall k1, k2 :: 0 <= k1 < k2 < |t| ==> FirstIndex(rows, t[k1].capital) < FirstIndex(rows, t[k2].capital))
  {
    var rows := Normalized(cells, up);
    assert PopulationTable(cells, up).value == KeepFirst(rows);
    KeepFirstDistinctCapitals(rows);
    KeepFirstEarliest(rows);
    KeepFirstOrdered(rows);
  }

  // ---------------------------------------------------------------------
  // The inner join

  /** The unified row for a population row and a state with its capital. */
  function Combine(p: PopulationRow, s: StateRecord): UnifiedRecord {
    UnifiedRecord(s.state, p.capital, s.region, p.population)
  }

  /** The capitals of the extracted states. */
  function StateCapitals(states: seq<StateRecord>): set<string> {
    set j | 0 <= j < |states| :: states[j].capital
  }

  /** No two extracted states share a capital. */
  predicate DistinctStateCapitals(states: seq<StateRecord>) {
    forall i, j :: 0 <= i < j < |states| ==> states[i].capital != states[j].capital
  }

  /** `x` pairs a population row with a state of the same capital. */
  ghost predicate JoinedFrom(x: UnifiedRecord, pop: seq<PopulationRow>, states: seq<StateRecord>) {
    exists p, s :: p in pop && s in states && p.capital == s.capital && x == Combine(p, s)
  }

  /** The states matching one population row, in state order. */
  function Matches(p: PopulationRow, states: seq<StateRecord>): (r: seq<UnifiedRecord>)
    ensures forall x :: x in r <==> exists s :: s in states && s.capital == p.capital && x == Combine(p, s)
    ensures forall k :: 0 <= k < |r| ==> r[k].capital == p.capital
  {
    if |states| == 0 then []
    else
      var rest := Matches(p, states[1..]);
      assert forall s :: s in states <==> s == states[0] || s in states[1..];
      if states[0].capital == p.capital then [Combine(p, states[0])] + rest else rest
  }

  /** `pd.merge(df_arquivo, df_estados, on='Capital', how='inner')` followed
      by the reordering of the columns: a record is in the result exactly
      when it pairs a population row and a state with the same capital,
      carrying the state's name and region and the row's population.  Rows
      follow the population table's order. */
  function Join(pop: seq<PopulationRow>, states: seq<StateRecord>): (r: seq<UnifiedRecord>)
    ensures forall x :: x in r <==> JoinedFrom(x, pop, states)
  {
    if |pop| == 0 then []
    else
      var head := Matches(pop[0], states);
      var rest := Join(pop[1..], states);
      assert forall p :: p in pop <==> p == pop[0] || p in pop[1..];
      forall x | JoinedFrom(x, pop, states) ensures x in head + rest {
        var p, s :| p in pop && s in states && p.capital == s.capital && x == Combine(p, s);
        if p == pop[0] {
          assert x in head;
        } else {
          assert JoinedFrom(x, pop[1..], states);
        }
      }
      head + rest
  }

  /** Every record of the join has a capital present on both sides. */
  lemma JoinMembership(pop: seq<PopulationRow>, states: seq<StateRecord>, x: UnifiedRecord)
    requires x in Join(pop, states)
    ensures x.capital in Capitals(pop) && x.capital in StateCapitals(states)
  {
    var p, s :| p in pop && s in states && p.capital == s.capital && x == Combine(p, s);
    var i :| 0 <= i < |pop| && pop[i] == p;
    var j :| 0 <= j < |states| && states[j] == s;
  }

  /** Every state whose capital has a population row yields a record, with
      the population of that (unique) row. */
  lemma JoinComplete(pop: seq<PopulationRow>, states: seq<StateRecord>, s: StateRecord)
    requires s in states && s.capital in Capitals(pop)
    ensures Combine(pop[FirstIndex(pop, s.capital)], s) in Join(pop, states)
  {
    var p := pop[FirstIndex(pop, s.capital)];
    assert JoinedFrom(Combine(p, s), pop, states);
  }

  /** With distinct capitals on the state side, one population row matches
      at most one state. */
  lemma {:induction false} MatchesAtMostOne(p: PopulationRow, states: seq<StateRecord>)
    requires DistinctStateCapitals(states)
    ensures |Matches(p, states)| <= 1
    ensures |Matches(p, states)| == 1 ==> p.capital in StateCapitals(states)
  {
    if |states| > 0 {
      MatchesAtMostOne(p, states[1..]);
      if states[0].capital == p.capital {
        assert forall j :: 0 <= j < |states[1..]| ==> states[1..][j].capital != p.capital by {
          forall j | 0 <= j < |states[1..]| ensures states[1..][j].capital != p.capital {
            assert states[1..][j] == states[j + 1];
          }
        }
        assert p.capital !in StateCapitals(states[1..]);
      } else if |Matches(p, states[1..])| == 1 {
        var j :| 0 <= j < |states[1..]| && states[1..][j].capital == p.capital;
        assert states[j + 1].capital == p.capital;
      }
    }
  }

  /** The capitals of the joined records. */
  function JoinedCapitals(r: seq<UnifiedRecord>): seq<string> {
    seq(|r|, k requires 0 <= k < |r| => r[k].capital)
  }

  /** Putting at most one record of capital `c` before records of other
      capitals keeps the capitals distinct. */
  lemma PrependDistinct(head: seq<UnifiedRecord>, rest: seq<UnifiedRecord>, c: string)
    requires |head| <= 1 && forall k :: 0 <= k < |head| ==> head[k].capital == c
    requires NoDup(JoinedCapitals(rest))
    requires forall k :: 0 <= k < |rest| ==> rest[k].capital != c
    ensures NoDup(JoinedCapitals(head + rest))
  {
    var r := head + rest;
    var cs := JoinedCapitals(r);
    forall i, j | 0 <= i < j < |cs| ensures cs[i] != cs[j] {
      if i < |head| {
        assert cs[i] == c && cs[j] == rest[j - |head|].capital;
      } else {
        assert cs[i] == JoinedCapitals(rest)[i - |head|];
        assert cs[j] == JoinedCapitals(rest)[j - |head|];
      }
    }
  }

  /** The rows after the first of a table with distinct capitals do not
      share its capital, and neither do the records they join to. */
  lemma JoinTailOtherCapital(pop: seq<PopulationRow>, states: seq<StateRecord>)
    requires |pop| > 0 && DistinctCapitals(pop)
    ensures forall k :: 0 <= k < |Join(pop[1..], states)| ==> Join(pop[1..], states)[k].capital != pop[0].capital
  {
    var rest := Join(pop[1..], states);
    forall k | 0 <= k < |rest| ensures rest[k].capital != pop[0].capital {
      JoinMembership(pop[1..], states, rest[k]);
      var i :| 0 <= i < |pop[1..]| && pop[1..][i].capital == rest[k].capital;
      assert pop[i + 1].capital == rest[k].capital;
    }
  }

  /** With distinct capitals on both sides the join has distinct capitals
      and no more records than the population table. */
  lemma {:induction false} JoinDistinctByPop(pop: seq<PopulationRow>, states: seq<StateRecord>)
    requires DistinctCapitals(pop) && DistinctStateCapitals(states)
    ensures NoDup(JoinedCapitals(Join(pop, states)))
    ensures |Join(pop, states)| <= |pop|
  {
    if |pop| > 0 {
      var head := Matches(pop[0], states);
      var rest := Join(pop[1..], states);
      assert DistinctCapitals(pop[1..]);
      JoinDistinctByPop(pop[1..], states);
      MatchesAtMostOne(pop[0], states);
      JoinTailOtherCapital(pop, states);
      PrependDistinct(head, rest, pop[0].capital);
      assert Join(pop, states) == head + rest;
    }
  }

  /** With distinct capitals on both sides the joined records have
      pairwise distinct capitals and number at most
      `min(|states|, |pop|)`. */
  lemma JoinBoundsDistinct(pop: seq<PopulationRow>, states: seq<StateRecord>)
    requires DistinctCapitals(pop) && DistinctStateCapitals(states)
    ensures NoDup(JoinedCapitals(Join(pop, states)))
    ensures |Join(pop, states)| <= |pop| && |Join(pop, states)| <= |states|
  {
    var r := Join(pop, states);
    JoinDistinctByPop(pop, states);
    var caps := JoinedCapitals(r);
    var stateCaps := seq(|states|, j requires 0 <= j < |states| => states[j].capital);
    assert Elems(caps) <= Elems(stateCaps) by {
      forall c | c in Elems(caps) ensures c in Elems(stateCaps) {
        var k :| 0 <= k < |caps| && caps[k] == c;
        JoinMembership(pop, states, r[k]);
        var j :| 0 <= j < |states| && states[j].capital == c;
        assert stateCaps[j] == c;
      }
    }
    NoDupCard(caps);
    ElemsCard(stateCaps);
    SubsetCard(Elems(caps), Elems(stateCaps));
  }

  // ---------------------------------------------------------------------
  // The whole stage

  /** The value the stage computes (`df_unificado` at line 26): it exists
      exactly when the column splits into two; a record is in it exactly
      when it pairs a row of the population table with a state of the same
      capital; every capital in it is both a normalised spreadsheet capital
      and an extracted one; and when the states have distinct capitals, so
      have the records, which number at most `min(|states|, |table|)`. */
  function Merge(cells: seq<string>, states: seq<StateRecord>, up: char -> char): (r: Result<seq<UnifiedRecord>>)
    ensures r.Success? <==> WellFormedColumn(cells)
    ensures r.Success? ==> forall x :: x in r.value <==> JoinedFrom(x, PopulationTable(cells, up).value, states)
    ensures r.Success? ==> forall x :: x in r.value ==>
      x.capital in Capitals(Normalized(cells, up)) && x.capital in StateCapitals(states)
    ensures r.Success? && DistinctStateCapitals(states) ==>
      && NoDup(JoinedCapitals(r.value))
      && |r.value| <= |states|
      && |r.value| <= |PopulationTable(cells, up).value|
  {
    var table :- PopulationTable(cells, up);
    PopulationTableCorrect(cells, up);
    var joined := Join(table, states);
    forall x | x in joined
      ensures x.capital in Capitals(Normalized(cells, up)) && x.capital in StateCapitals(states)
    {
      JoinMembership(table, states, x);
    }
    if DistinctStateCapitals(states) then
      JoinBoundsDistinct(table, states);
      Success(joined)
    else
      Success(joined)
  }

  /** `x` carries the name, capital and region of state `s`. */
  predicate Describes(x: UnifiedRecord, s: StateRecord) {
    x.state == s.state && x.capital == s.capital && x.region == s.region
  }

  /** Case normalisation makes the join meet: a state whose capital is the
      upper-cased capital of some cell gets a record carrying its name,
      capital and region. */
  lemma MergeFindsState(cells: seq<string>, states: seq<StateRecord>, up: char -> char, s: StateRecord, i: nat)
    requires WellFormedColumn(cells)
    requires s in states && i < |cells| && s.capital == NormalizedRow(cells[i], up).capital
    ensures exists x :: x in Merge(cells, states, up).value && Describes(x, s)
  {
    var table := PopulationTable(cells, up).value;
    PopulationTableCorrect(cells, up);
    NormalizedAt(cells, up, i);
    assert Normalized(cells, up)[i].capital == s.capital;
    assert s.capital in Capitals(table);
    JoinComplete(table, states, s);
    var x := Combine(table[FirstIndex(table, s.capital)], s);
    assert x in Merge(cells, states, up).value;
  }

  /** `ler_estruturar_arquivo_entrada` as written: it performs every step,
      so the same inputs fail, but it has no `return` statement, so on
      success its caller receives `None` instead of the unified table. */
  function MergeAsWritten(cells: seq<string>, states: seq<StateRecord>, up: char -> char): (r: Result<Option<seq<UnifiedRecord>>>)
    ensures r.Success? <==> WellFormedColumn(cells)
    ensures r.Success? ==> r.value == None
  {
    var _ :- Merge(cells, states, up);
    Success(None)
  }

  /** The missing `return` loses the table: whenever some state's capital
      is the upper-cased capital of some cell (a column holding `"A:1"`, a
      state with capital `"A"`, and an upper-casing that keeps `A`, say),
      the computed table has a record, yet the caller gets `None`. */
  lemma MissingReturnLosesTable(cells: seq<string>, states: seq<StateRecord>, up: char -> char, s: StateRecord, i: nat)
    requires WellFormedColumn(cells)
    requires s in states && i < |cells| && s.capital == NormalizedRow(cells[i], up).capital
    ensures Merge(cells, states, up).Success? && |Merge(cells, states, up).value| > 0
    ensures MergeAsWritten(cells, states, up) == Success(None)
  {
    MergeFindsState(cells, states, up, s, i);
  }
}
