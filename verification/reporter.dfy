/** The report stage (`consultar_salvar_dados`): three read-only
    aggregate queries over the table `estados`.  Each query reads the rows
    in whatever order the store scans them, so every result is specified
    by what it contains, never by a tie-break.  Writing the CSV and
    spreadsheet files is not modelled. */
module Reporter {
  import opened Seqs
  import opened Ranking
  import opened Store

  /** A row of `top3_regioes_populosas`: (regiao, populacao_total). */
  datatype RegionTotal = RegionTotal(region: string, total: int)

  /** A row of `regioes_n_capitais`: (regiao, quantidade_capitais). */
  datatype RegionCount = RegionCount(region: string, capitals: nat)

  /** A row of `estados_mais_populosos`: (estado, capital, populacao), where
      populacao is the capital's population. */
  datatype StatePopulation = StatePopulation(state: string, capital: string, population: int)

  /** The sort key of query 1. */
  function TotalOf(x: RegionTotal): int {
    x.total
  }

  /** The sort key of query 3. */
  function PopulationOf(x: StatePopulation): int {
    x.population
  }

  /** The three query results. */
  datatype Reports = Reports(topRegions: seq<RegionTotal>, capitalsPerRegion: seq<RegionCount>, topStates: seq<StatePopulation>)

  // ---------------------------------------------------------------------
  // Scanning the table

  /** `rows` lists table `t`: one row per state, each as stored. */
  predicate Lists(rows: seq<Record>, t: Table) {
    && (forall i, j :: 0 <= i < j < |rows| ==> rows[i].state != rows[j].state)
    && (forall i :: 0 <= i < |rows| ==> rows[i].state in t && t[rows[i].state] == RowOf(rows[i]))
    && States(rows) == t.Keys
  }

  /** Listing one more state, not yet in the table, lists the extended
      table. */
  lemma ListsSnoc(rows: seq<Record>, m: Table, k: string, row: Row)
    requires Lists(rows, m) && k !in m
    ensures Lists(rows + [Record(k, row.capital, row.region, row.population)], m[k := row])
  {
    var next := Record(k, row.capital, row.region, row.population);
    var s := rows + [next];
    StatesSnoc(rows, next);
    assert forall i :: 0 <= i < |rows| ==> rows[i].state in m;
    forall i, j | 0 <= i < j < |s| ensures s[i].state != s[j].state {
      if j < |rows| {
        assert s[i] == rows[i] && s[j] == rows[j];
      } else {
        assert s[i] == rows[i] && s[j] == next;
      }
    }
    forall i | 0 <= i < |s| ensures s[i].state in m[k := row] && m[k := row][s[i].state] == RowOf(s[i]) {
      if i < |rows| {
        assert s[i] == rows[i];
      }
    }
  }

  /** `FROM estados`: reads every row of the table once, in an order the
      store chooses. */
  method Scan(t: Table) returns (rows: seq<Record>)
    ensures Lists(rows, t)
    ensures |rows| == |t|
  {
    rows := [];
    var rest := t.Keys;
    assert t - rest == map[];
    while rest != {}
      invariant rest <= t.Keys
      invariant Lists(rows, t - rest)
      decreases |rest|
    {
      var k :| k in rest;
      var seen := t - rest;
      ListsSnoc(rows, seen, k, t[k]);
      assert t - (rest - {k}) == seen[k := t[k]];
      rows := rows + [Record(k, t[k].capital, t[k].region, t[k].population)];
      rest := rest - {k};
    }
    assert t - rest == t;
    ListedSize(rows, t);
  }

  /** One listing of the table, fixed once and for all, so that
      properties of the table that do not depend on the scan order can be
      stated as functions of the table. */
  ghost function Listing(t: Table): (rows: seq<Record>)
    ensures Lists(rows, t)
    decreases |t.Keys|
  {
    if t.Keys == {} then
      assert States([]) == {};
      []
    else
      var k :| k in t.Keys;
      var u := t - {k};
      assert u.Keys == t.Keys - {k};
      assert t == u[k := t[k]];
      ListsSnoc(Listing(u), u, k, t[k]);
      Listing(u) + [Record(k, t[k].capital, t[k].region, t[k].population)]
  }

  // ---------------------------------------------------------------------
  // Grouping by region

  /** The region column, in scan order. */
  function RegionColumn(rows: seq<Record>): seq<string> {
    seq(|rows|, i requires 0 <= i < |rows| => rows[i].region)
  }

  /** The regions the rows mention. */
  function RegionSet(rows: seq<Record>): set<string> {
    set i | 0 <= i < |rows| :: rows[i].region
  }

  /** `GROUP BY regiao`: the distinct regions, one group each. */
  function Groups(rows: seq<Record>): (r: seq<string>)
    ensures NoDup(r)
    ensures Elems(r) == RegionSet(rows)
    ensures |r| == |RegionSet(rows)|
  {
    var col := RegionColumn(rows);
    assert Elems(col) == RegionSet(rows) by {
      forall g | g in RegionSet(rows) ensures g in Elems(col) {
        var i :| 0 <= i < |rows| && rows[i].region == g;
        assert col[i] == g;
      }
    }
    var r := Distinct(col);
    NoDupCard(r);
    r
  }

  /** `SUM(populacao)` over the rows of region `g`. */
  function Total(rows: seq<Record>, g: string): int {
    if |rows| == 0 then 0
    else (if rows[0].region == g then rows[0].population else 0) + Total(rows[1..], g)
  }

  lemma {:induction false} TotalAppend(a: seq<Record>, b: seq<Record>, g: string)
    ensures Total(a + b, g) == Total(a, g) + Total(b, g)
  {
    if |a| > 0 {
      TotalAppend(a[1..], b, g);
      assert (a + b)[0] == a[0];
      assert (a + b)[1..] == a[1..] + b;
    } else {
      assert a + b == b;
    }
  }

  /** Taking row `i` out of a listing takes its share out of the total and
      one copy of it out of the multiset. */
  lemma TotalRemove(b: seq<Record>, i: nat, g: string)
    requires i < |b|
    ensures Total(b, g) == Total(b[..i] + b[i + 1..], g) + (if b[i].region == g then b[i].population else 0)
  {
    assert b == b[..i] + [b[i]] + b[i + 1..];
    TotalAppend(b[..i] + [b[i]], b[i + 1..], g);
    TotalAppend(b[..i], [b[i]], g);
    TotalAppend(b[..i], b[i + 1..], g);
    assert Total([b[i]], g) == (if b[i].region == g then b[i].population else 0) by {
      assert [b[i]][1..] == [];
    }
  }

  /** A region's total does not depend on the order the rows are scanned
      in: any two listings of the same rows give the same sum. */
  lemma {:induction false} TotalPermutation(a: seq<Record>, b: seq<Record>, g: string)
    requires multiset(a) == multiset(b)
    ensures Total(a, g) == Total(b, g)
  {
    if |a| > 0 {
      var i := MatchFirst(a, b);
      var rest := b[..i] + b[i + 1..];
      TotalRemove(b, i, g);
      TotalPermutation(a[1..], rest, g);
    }
  }

  // ---------------------------------------------------------------------
  // Query 1: the three regions whose capitals sum to the largest population

  /** The regions of a list of totals. */
  function TotalRegions(r: seq<RegionTotal>): set<string> {
    set i | 0 <= i < |r| :: r[i].region
  }

  /** Every region with its total, one row per group. */
  function RegionTotals(rows: seq<Record>): (r: seq<RegionTotal>)
    ensures |r| == |RegionSet(rows)|
    ensures NoDup(r)
    ensures forall i :: 0 <= i < |r| ==> r[i].region in RegionSet(rows) && r[i].total == Total(rows, r[i].region)
    ensures forall g :: g in RegionSet(rows) ==> RegionTotal(g, Total(rows, g)) in r
  {
    var groups := Groups(rows);
    var r := seq(|groups|, i requires 0 <= i < |groups| => RegionTotal(groups[i], Total(rows, groups[i])));
    forall g | g in RegionSet(rows) ensures RegionTotal(g, Total(rows, g)) in r {
      var k :| 0 <= k < |groups| && groups[k] == g;
      assert r[k] == RegionTotal(g, Total(rows, g));
    }
    r
  }

  /** Query 1 (`GROUP BY regiao ORDER BY populacao_total DESC LIMIT 3`):
      the region totals, ranked by total, at most three of them. */
  function TopRegions(rows: seq<Record>): seq<RegionTotal> {
    TopK(RegionTotals(rows), TotalOf, 3)
  }

  /** Runs query 1 over scanned rows.  It returns as many rows as regions, up to three; distinct
      regions of the table, each with the sum of its rows' populations;
      totals non-increasing; and no region left out has a larger total
      than any region kept. */
  method TopRegionsQuery(rows: seq<Record>) returns (r: seq<RegionTotal>)
    ensures |r| == (if 3 < |RegionSet(rows)| then 3 else |RegionSet(rows)|)
    ensures forall i :: 0 <= i < |r| ==> r[i].region in RegionSet(rows) && r[i].total == Total(rows, r[i].region)
    ensures forall i, j :: 0 <= i < j < |r| ==> r[i].region != r[j].region
    ensures forall i, j :: 0 <= i < j < |r| ==> r[i].total >= r[j].total
    ensures forall g, i :: g in RegionSet(rows) && g !in TotalRegions(r) && 0 <= i < |r| ==> Total(rows, g) <= r[i].total
  {
    var totals := RegionTotals(rows);
    r := TopRegions(rows);
    assert r == TopK(totals, TotalOf, 3);
    forall i, j | 0 <= i < j < |r| ensures r[i].total >= r[j].total {
      assert TotalOf(r[i]) >= TotalOf(r[j]);
    }
    TopRegionsKept(rows, totals, r);
    TopRegionsExcluded(rows, totals, r);
  }

  /** Rows drawn from the region totals are region totals with distinct
      regions. */
  lemma TopRegionsKept(rows: seq<Record>, totals: seq<RegionTotal>, r: seq<RegionTotal>)
    requires totals == RegionTotals(rows)
    requires multiset(r) <= multiset(totals)
    ensures forall i :: 0 <= i < |r| ==> r[i].region in RegionSet(rows) && r[i].total == Total(rows, r[i].region)
    ensures forall i, j :: 0 <= i < j < |r| ==> r[i].region != r[j].region
  {
    SubMultisetIn(r, totals);
    SubMultisetNoDup(r, totals);
  }

  /** When no region total left out is larger than one kept, no region of
      the rows left out has a larger sum than a region kept. */
  lemma TopRegionsExcluded(rows: seq<Record>, totals: seq<RegionTotal>, r: seq<RegionTotal>)
    requires totals == RegionTotals(rows)
    requires forall x, y :: x in multiset(totals) - multiset(r) && y in r ==> TotalOf(x) <= TotalOf(y)
    ensures forall g, i :: g in RegionSet(rows) && g !in TotalRegions(r) && 0 <= i < |r| ==> Total(rows, g) <= r[i].total
  {
    forall g, i | g in RegionSet(rows) && g !in TotalRegions(r) && 0 <= i < |r|
      ensures Total(rows, g) <= r[i].total
    {
      var x := RegionTotal(g, Total(rows, g));
      assert x in multiset(totals);
      assert x !in multiset(r);
      assert r[i] in r;
      assert TotalOf(x) <= TotalOf(r[i]);
    }
  }

  // ---------------------------------------------------------------------
  // Query 2: capitals per region

  /** The distinct capitals among the rows of region `g`. */
  function CapitalsIn(rows: seq<Record>, g: string): set<string> {
    set i | 0 <= i < |rows| && rows[i].region == g :: rows[i].capital
  }

  /** The capital column of the rows of region `g`, in scan order. */
  function CapitalsOfRegion(rows: seq<Record>, g: string): (r: seq<string>)
    ensures Elems(r) == CapitalsIn(rows, g)
  {
    if |rows| == 0 then []
    else
      var rest := CapitalsOfRegion(rows[1..], g);
      assert CapitalsIn(rows, g) == (if rows[0].region == g then {rows[0].capital} else {}) + CapitalsIn(rows[1..], g) by {
        assert forall i :: 1 <= i < |rows| ==> rows[i] == rows[1..][i - 1];
      }
      if rows[0].region == g then
        ElemsCons(rows[0].capital, rest);
        [rows[0].capital] + rest
      else rest
  }

  /** `COUNT(DISTINCT capital)` for region `g`. */
  function CountCapitals(rows: seq<Record>, g: string): (n: nat)
    ensures n == |CapitalsIn(rows, g)|
  {
    var d := Distinct(CapitalsOfRegion(rows, g));
    NoDupCard(d);
    |d|
  }

  /** The regions of a list of counts. */
  function CountRegions(r: seq<RegionCount>): set<string> {
    set i | 0 <= i < |r| :: r[i].region
  }

  /** Query 2 (`COUNT(DISTINCT capital) … GROUP BY regiao`): exactly one
      row per region of the table, each counting the distinct capitals
      stored for that region. */
  function CapitalsPerRegion(rows: seq<Record>): (r: seq<RegionCount>)
    ensures |r| == |RegionSet(rows)|
    ensures CountRegions(r) == RegionSet(rows)
    ensures forall i, j :: 0 <= i < j < |r| ==> r[i].region != r[j].region
    ensures forall i :: 0 <= i < |r| ==> r[i].capitals == |CapitalsIn(rows, r[i].region)|
  {
    var groups := Groups(rows);
    var r := seq(|groups|, i requires 0 <= i < |groups| => RegionCount(groups[i], CountCapitals(rows, groups[i])));
    assert CountRegions(r) == Elems(groups) by {
      forall g | g in Elems(groups) ensures g in CountRegions(r) {
        var i :| 0 <= i < |groups| && groups[i] == g;
        assert r[i].region == g;
      }
    }
    r
  }

  // ---------------------------------------------------------------------
  // Query 3: the two states with the most populous capitals

  /** The (estado, capital, populacao) columns of a row. */
  function Project(r: Record): StatePopulation {
    StatePopulation(r.state, r.capital, r.population)
  }

  /** The projected rows, in scan order. */
  function Projections(rows: seq<Record>): seq<StatePopulation> {
    seq(|rows|, i requires 0 <= i < |rows| => Project(rows[i]))
  }

  /** Query 3 (`ORDER BY populacao DESC LIMIT 2`): the projected rows,
      ranked by population, at most two of them. */
  function TopStates(rows: seq<Record>): seq<StatePopulation> {
    TopK(Projections(rows), PopulationOf, 2)
  }

  /** Runs query 3 over scanned rows.  It returns two rows, or all rows when there are fewer;
      populations non-increasing; every row comes from the table; and no
      row left out has a larger population than any row kept. */
  method TopStatesQuery(rows: seq<Record>) returns (r: seq<StatePopulation>)
    ensures |r| == (if 2 < |rows| then 2 else |rows|)
    ensures forall i, j :: 0 <= i < j < |r| ==> r[i].population >= r[j].population
    ensures multiset(r) <= multiset(Projections(rows))
    ensures forall x, y :: x in multiset(Projections(rows)) - multiset(r) && y in r ==> x.population <= y.population
  {
    r := TopStates(rows);
    var p := Projections(rows);
    assert r == TopK(p, PopulationOf, 2);
    forall i, j | 0 <= i < j < |r| ensures r[i].population >= r[j].population {
      assert PopulationOf(r[i]) >= PopulationOf(r[j]);
    }
    forall x, y | x in multiset(p) - multiset(r) && y in r ensures x.population <= y.population {
      assert PopulationOf(x) <= PopulationOf(y);
    }
  }

  // ---------------------------------------------------------------------
  // The report over the stored table

  /** The regions stored in table `t`. */
  function TableRegions(t: Table): set<string> {
    set s | s in t :: t[s].region
  }

  /** The distinct capitals stored for region `g`. */
  function TableCapitals(t: Table, g: string): set<string> {
    set s | s in t && t[s].region == g :: t[s].capital
  }

  /** The states of a list of query-3 rows. */
  function StatesOf(r: seq<StatePopulation>): set<string> {
    set i | 0 <= i < |r| :: r[i].state
  }

  /** A listing of the table mentions exactly the table's regions. */
  lemma ListedRegions(rows: seq<Record>, t: Table)
    requires Lists(rows, t)
    ensures RegionSet(rows) == TableRegions(t)
  {
    forall g | g in TableRegions(t) ensures g in RegionSet(rows) {
      var s :| s in t && t[s].region == g;
      var i := ListedAt(rows, t, s);
    }
  }

  /** A listing of the table mentions, per region, exactly its capitals. */
  lemma ListedCapitals(rows: seq<Record>, t: Table)
    requires Lists(rows, t)
    ensures forall g :: CapitalsIn(rows, g) == TableCapitals(t, g)
  {
    forall g, c | c in TableCapitals(t, g) ensures c in CapitalsIn(rows, g) {
      var s :| s in t && t[s].region == g && t[s].capital == c;
      var i := ListedAt(rows, t, s);
    }
  }

  /** Where state `s` sits in a listing of the table. */
  lemma ListedAt(rows: seq<Record>, t: Table, s: string) returns (i: nat)
    requires Lists(rows, t) && s in t
    ensures i < |rows| && rows[i].state == s
    ensures rows[i] == Record(s, t[s].capital, t[s].region, t[s].population)
  {
    assert s in States(rows);
    i :| 0 <= i < |rows| && rows[i].state == s;
  }

  /** Any two listings of the same table hold the same rows. */
  lemma ListingsPermutation(a: seq<Record>, b: seq<Record>, t: Table)
    requires Lists(a, t) && Lists(b, t)
    ensures multiset(a) == multiset(b)
  {
    forall x | x in Elems(a) ensures x in Elems(b) {
      var i :| 0 <= i < |a| && a[i] == x;
      var j := ListedAt(b, t, x.state);
    }
    forall x | x in Elems(b) ensures x in Elems(a) {
      var j :| 0 <= j < |b| && b[j] == x;
      var i := ListedAt(a, t, x.state);
    }
    SameElemsPermutation(a, b);
  }

  /** A region's total is a property of the table, whatever order the
      scan returns its rows in. */
  lemma TotalOfTable(a: seq<Record>, b: seq<Record>, t: Table, g: string)
    requires Lists(a, t) && Lists(b, t)
    ensures Total(a, g) == Total(b, g)
  {
    ListingsPermutation(a, b, t);
    TotalPermutation(a, b, g);
  }

  /** `SUM(populacao)` over the stored rows of region `g`. */
  ghost function TableTotal(t: Table, g: string): int {
    Total(Listing(t), g)
  }

  /** Query 1 over a listing of table `t`, stated against the table. */
  method RegionsReport(t: Table, rows: seq<Record>) returns (r: seq<RegionTotal>)
    requires Lists(rows, t)
    ensures |r| == if 3 < |TableRegions(t)| then 3 else |TableRegions(t)|
    ensures forall i :: 0 <= i < |r| ==> r[i].region in TableRegions(t)
    ensures forall i :: 0 <= i < |r| ==> r[i].total == TableTotal(t, r[i].region)
    ensures forall i, j :: 0 <= i < j < |r| ==> r[i].region != r[j].region
    ensures forall i, j :: 0 <= i < j < |r| ==> r[i].total >= r[j].total
    ensures forall g, i :: g in TableRegions(t) && g !in TotalRegions(r) && 0 <= i < |r| ==> TableTotal(t, g) <= r[i].total
  {
    r := TopRegionsQuery(rows);
    ListedRegions(rows, t);
    KeptTotals(rows, t, r);
    ExcludedTotals(rows, t, r);
  }

  /** Totals computed over a listing are the table's totals. */
  lemma KeptTotals(rows: seq<Record>, t: Table, r: seq<RegionTotal>)
    requires Lists(rows, t)
    requires forall i :: 0 <= i < |r| ==> r[i].total == Total(rows, r[i].region)
    ensures forall i :: 0 <= i < |r| ==> r[i].total == TableTotal(t, r[i].region)
  {
    ListedTotals(rows, t);
  }

  /** A region left out over a listing is one left out over the table. */
  lemma ExcludedTotals(rows: seq<Record>, t: Table, r: seq<RegionTotal>)
    requires Lists(rows, t)
    requires forall g, i :: g in RegionSet(rows) && g !in TotalRegions(r) && 0 <= i < |r| ==> Total(rows, g) <= r[i].total
    ensures forall g, i :: g in TableRegions(t) && g !in TotalRegions(r) && 0 <= i < |r| ==> TableTotal(t, g) <= r[i].total
  {
    ListedRegions(rows, t);
    ListedTotals(rows, t);
  }

  /** Any listing of the table gives each region its stored total. */
  lemma ListedTotals(rows: seq<Record>, t: Table)
    requires Lists(rows, t)
    ensures forall g :: Total(rows, g) == TableTotal(t, g)
  {
    forall g ensures Total(rows, g) == TableTotal(t, g) {
      TotalOfTable(rows, Listing(t), t, g);
    }
  }

  /** Query 2 over a listing of table `t`, stated against the table. */
  method CountsReport(t: Table, rows: seq<Record>) returns (r: seq<RegionCount>)
    requires Lists(rows, t)
    ensures CountRegions(r) == TableRegions(t)
    ensures |r| == |TableRegions(t)|
    ensures forall i :: 0 <= i < |r| ==> r[i].capitals == |TableCapitals(t, r[i].region)|
  {
    r := CapitalsPerRegion(rows);
    ListedRegions(rows, t);
    ReportCounts(rows, t, r);
  }

  /** Query 3 over a listing of table `t`, stated against the table. */
  method StatesReport(t: Table, rows: seq<Record>) returns (r: seq<StatePopulation>)
    requires Lists(rows, t)
    ensures |r| == if 2 < |t| then 2 else |t|
    ensures forall i :: 0 <= i < |r| ==> r[i].state in t && StoredAs(r[i], t[r[i].state])
    ensures forall i, j :: 0 <= i < j < |r| ==> r[i].state != r[j].state
    ensures forall i, j :: 0 <= i < j < |r| ==> r[i].population >= r[j].population
    ensures forall s, i :: s in t && s !in StatesOf(r) && 0 <= i < |r| ==> t[s].population <= r[i].population
  {
    r := TopStatesQuery(rows);
    assert |r| == if 2 < |t| then 2 else |t| by {
      ListedSize(rows, t);
    }
    assert forall i :: 0 <= i < |r| ==> r[i].state in t && StoredAs(r[i], t[r[i].state]) by {
      TopStatesStored(rows, t, r);
    }
    assert forall i, j :: 0 <= i < j < |r| ==> r[i].state != r[j].state by {
      TopStatesFromListing(rows, t, r);
      DistinctStates(rows, t, r);
    }
    TopStatesExcluded(rows, t, r);
  }

  /** The whole report stage: scan the table once and run the three
      queries over that scan; nothing is written back to the table. */
  method Report(t: Table) returns (out: Reports)
    ensures |out.topRegions| == if 3 < |TableRegions(t)| then 3 else |TableRegions(t)|
    ensures forall i :: 0 <= i < |out.topRegions| ==> out.topRegions[i].region in TableRegions(t) && out.topRegions[i].total == TableTotal(t, out.topRegions[i].region)
    ensures forall i, j :: 0 <= i < j < |out.topRegions| ==> out.topRegions[i].total >= out.topRegions[j].total
    ensures forall i, j :: 0 <= i < j < |out.topRegions| ==> out.topRegions[i].region != out.topRegions[j].region
    ensures forall g, i :: g in TableRegions(t) && g !in TotalRegions(out.topRegions) && 0 <= i < |out.topRegions| ==> TableTotal(t, g) <= out.topRegions[i].total
    ensures CountRegions(out.capitalsPerRegion) == TableRegions(t)
    ensures |out.capitalsPerRegion| == |TableRegions(t)|
    ensures forall i :: 0 <= i < |out.capitalsPerRegion| ==> out.capitalsPerRegion[i].capitals == |TableCapitals(t, out.capitalsPerRegion[i].region)|
    ensures |out.topStates| == if 2 < |t| then 2 else |t|
    ensures forall i :: 0 <= i < |out.topStates| ==> out.topStates[i].state in t && StoredAs(out.topStates[i], t[out.topStates[i].state])
    ensures forall i, j :: 0 <= i < j < |out.topStates| ==> out.topStates[i].state != out.topStates[j].state
    ensures forall i, j :: 0 <= i < j < |out.topStates| ==> out.topStates[i].population >= out.topStates[j].population
    ensures forall s, i :: s in t && s !in StatesOf(out.topStates) && 0 <= i < |out.topStates| ==> t[s].population <= out.topStates[i].population
  {
    var rows := Scan(t);
    var regions := RegionsReport(t, rows);
    var counts := CountsReport(t, rows);
    var states := StatesReport(t, rows);
    out := Reports(regions, counts, states);
  }

  /** Row `x` of query 3 shows the capital and population stored in `row`. */
  predicate StoredAs(x: StatePopulation, row: Row) {
    x.capital == row.capital && x.population == row.population
  }

  /** Query 2's counts, restated against the table. */
  lemma ReportCounts(rows: seq<Record>, t: Table, r: seq<RegionCount>)
    requires Lists(rows, t) && r == CapitalsPerRegion(rows)
    ensures forall i :: 0 <= i < |r| ==> r[i].capitals == |TableCapitals(t, r[i].region)|
  {
    ListedCapitals(rows, t);
  }

  /** The rows of a listing are pairwise distinct, and so are their
      projections. */
  lemma ProjectionsNoDup(rows: seq<Record>, t: Table)
    requires Lists(rows, t)
    ensures NoDup(Projections(rows))
  {
    var p := Projections(rows);
    forall a, b | 0 <= a < b < |p| ensures p[a] != p[b] {
      assert p[a].state == rows[a].state;
    }
  }

  /** Rows drawn from a listing's projections show rows as stored. */
  lemma TopStatesStored(rows: seq<Record>, t: Table, r: seq<StatePopulation>)
    requires Lists(rows, t) && multiset(r) <= multiset(Projections(rows))
    ensures forall i :: 0 <= i < |r| ==> r[i].state in t && StoredAs(r[i], t[r[i].state])
  {
    var p := Projections(rows);
    SubMultisetIn(r, p);
    forall i | 0 <= i < |r| ensures r[i].state in t && StoredAs(r[i], t[r[i].state]) {
      var a :| 0 <= a < |p| && p[a] == r[i];
    }
  }

  /** Rows drawn from a listing's projections are distinct, each a row of
      the listing. */
  lemma TopStatesFromListing(rows: seq<Record>, t: Table, r: seq<StatePopulation>)
    requires Lists(rows, t) && multiset(r) <= multiset(Projections(rows))
    ensures NoDup(r)
    ensures forall i :: 0 <= i < |r| ==> r[i] in Projections(rows)
  {
    ProjectionsNoDup(rows, t);
    SubMultisetIn(r, Projections(rows));
    SubMultisetNoDup(r, Projections(rows));
  }

  /** Distinct projected rows of a listing belong to distinct states. */
  lemma DistinctStates(rows: seq<Record>, t: Table, r: seq<StatePopulation>)
    requires Lists(rows, t)
    requires NoDup(r)
    requires forall i :: 0 <= i < |r| ==> r[i] in Projections(rows)
    ensures forall i, j :: 0 <= i < j < |r| ==> r[i].state != r[j].state
  {
    var p := Projections(rows);
    forall i, j | 0 <= i < j < |r| ensures r[i].state != r[j].state {
      var a :| 0 <= a < |p| && p[a] == r[i];
      var b :| 0 <= b < |p| && p[b] == r[j];
      assert p[a] != p[b];
      assert rows[a].state != rows[b].state;
      assert r[i].state == rows[a].state && r[j].state == rows[b].state;
    }
  }

  /** A listing has one row per stored state. */
  lemma ListedSize(rows: seq<Record>, t: Table)
    requires Lists(rows, t)
    ensures |rows| == |t|
  {
    var col := seq(|rows|, i requires 0 <= i < |rows| => rows[i].state);
    assert Elems(col) == t.Keys by {
      forall s | s in t ensures s in Elems(col) {
        var i := ListedAt(rows, t, s);
        assert col[i] == s;
      }
    }
    NoDupCard(col);
  }

  /** When no projection left out has a larger population than one kept, no
      stored state left out has a more populous capital than a state shown. */
  lemma TopStatesExcluded(rows: seq<Record>, t: Table, r: seq<StatePopulation>)
    requires Lists(rows, t)
    requires forall x, y :: x in multiset(Projections(rows)) - multiset(r) && y in r ==> x.population <= y.population
    ensures forall s, i :: s in t && s !in StatesOf(r) && 0 <= i < |r| ==> t[s].population <= r[i].population
  {
    var p := Projections(rows);
    forall s, i | s in t && s !in StatesOf(r) && 0 <= i < |r| ensures t[s].population <= r[i].population {
      var a := ListedAt(rows, t, s);
      assert p[a] in multiset(p);
      assert p[a] !in multiset(r) by {
        forall k | 0 <= k < |r| ensures r[k] != p[a] {
          assert r[k].state in StatesOf(r);
        }
      }
      assert r[i] in r;
    }
  }
}
