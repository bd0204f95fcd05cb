# Brazilian states pipeline — a Dafny model

The program scrapes the table of the 26 Brazilian federated states (state,
capital, region) from a web page. It reads a spreadsheet column of
`"Capital:Population"` cells and joins the two on the capital. It upserts
the unified rows into the SQLite table `estados`, keyed by state. Then it runs
three aggregate queries over that table:

- the three regions whose capitals add up to the largest population;
- the number of distinct capitals per region;
- the two states with the most populous capitals.

This project models those data steps as pure functions over sequences and
maps and proves what each step guarantees.

| file | module | models |
|---|---|---|
| `results.dfy` | `Results` | the single failure kind (`ValueError`), `Option`, `Result` |
| `seqs.dfy` | `Seqs` | generic sequence facts: distinctness, sub-multisets, permutations |
| `text.dfy` | `Text` | `str.strip` over an abstract whitespace predicate, one-character split/join, upper-casing over an abstract character map |
| `extractor.dfy` | `Extractor` | `acessar_extrair_dados`: data rows to trimmed (state, capital, region) records, 26 or fail |
| `merger.dfy` | `Merger` | `ler_estruturar_arquivo_entrada`: split at the colon, upper-case, keep the first row per capital, inner join on the capital |
| `ranking.dfy` | `Ranking` | `ORDER BY … DESC LIMIT k`, specified relationally |
| `store.dfy` | `Store` | `criar_inserir_banco_dados`: `CREATE TABLE IF NOT EXISTS` and an `INSERT OR REPLACE` fold (`Load`) into a map keyed by state |
| `reporter.dfy` | `Reporter` | the three queries of `consultar_salvar_dados`, over a scan of the table: `TopRegions` (query 1, summing with `Total`), `CapitalsPerRegion` (query 2) and `TopStates` (query 3) |

Whitespace (`ws: char -> bool`) and upper-casing (`up: char -> char`) are
parameters. They stand for Python's Unicode-aware `str.strip` and `str.upper`.

SQL fixes no order among equal keys, and the table is scanned in no fixed
order. So the query results are stated relationally: sorted, drawn from the
table, and no excluded item beats a kept one. No tie-break is fixed. Sums per
region are proved independent of the scan order (`TotalPermutation`). The
table-level statements use one canonical ghost listing (`Listing`,
`TableTotal`).

## Model

| member | source | states |
|---|---|---|
| Extractor.ParseRows | codigos/extrair_informacoes_estados.py:47-54 | succeeds exactly when every data row has at least four cells (a shorter row raises the index error the stage turns into its failure); then one record per row, in row order, record i being cells 1..3 of row i stripped |
| Extractor.Extract | codigos/extrair_informacoes_estados.py:36-70 | succeeds exactly when the table was shown, holds a header plus 26 data rows, and every data row has at least four cells; then exactly 26 = rows-1 records, the i-th being the stripped cells 1..3 of data row i, every field without leading or trailing whitespace; every other outcome is the one `ValueError` |
| Extractor.HeaderIgnored | codigos/extrair_informacoes_estados.py:47 | two tables differing only in their header row extract to the same result |
| Text.Trim | codigos/extrair_informacoes_estados.py:50-52 | the result is the input with its leading and trailing whitespace removed, and has none left at either end |
| Text.TrimUnique | codigos/extrair_informacoes_estados.py:50-52 | the stripped form of a string is unique: any two strings obtained by removing only edge whitespace and having none left at either end are equal |
| Text.TrimIdempotent | codigos/extrair_informacoes_estados.py:50-52 | stripping twice is stripping once |
| Text.SplitAll | codigos/ler_estruturar_arquivo.py:9 | splitting at a separator gives one more piece than separators, no piece holds the separator, and joining the pieces back gives the string |
| Text.SplitJoin | codigos/ler_estruturar_arquivo.py:9 | splitting the join of separator-free pieces gives the pieces back |
| Merger.Width | codigos/ler_estruturar_arquivo.py:9 | the column count `str.split(expand=True)` produces is the largest piece count over the cells, 0 for no cells |
| Merger.SplitRowFacts | codigos/ler_estruturar_arquivo.py:9 | a cell with one colon splits into capital and population whose colon-join is the cell; a cell with none has no population; the capital never holds a colon |
| Merger.SplitColumn | codigos/ler_estruturar_arquivo.py:9-12 | assigning the split to two columns succeeds exactly when the split is two wide; then one row per cell, in cell order |
| Merger.SplitColumnRoundTrip | codigos/ler_estruturar_arquivo.py:9-12 | in a split column every capital is colon-free and, for a cell with a colon, capital + ":" + population is the cell |
| Merger.UpperCapitals | codigos/ler_estruturar_arquivo.py:16 | every capital becomes the upper-case of the split capital; populations and row count unchanged |
| Merger.SplitThenUpper | codigos/ler_estruturar_arquivo.py:9-16 | split-then-upper of a well-formed column is the cell-by-cell normalisation |
| Merger.KeepFirst | codigos/ler_estruturar_arquivo.py:19 | de-duplication keeps exactly the set of capitals of its input |
| Merger.KeepFirstDistinctCapitals | codigos/ler_estruturar_arquivo.py:19 | no two kept rows share a capital |
| Merger.KeepFirstEarliest | codigos/ler_estruturar_arquivo.py:19 | every kept row is the earliest input row of its capital (`keep='first'`) |
| Merger.KeepFirstOrdered | codigos/ler_estruturar_arquivo.py:19 | kept rows appear in the order of their input positions, so the output is an order-preserving subsequence |
| Merger.KeepFirstDistinct | codigos/ler_estruturar_arquivo.py:19 | a table whose capitals are already distinct is left unchanged |
| Merger.KeepFirstIdempotent | codigos/ler_estruturar_arquivo.py:19 | de-duplicating twice is de-duplicating once |
| Merger.PopulationTable | codigos/ler_estruturar_arquivo.py:9-19 | the table before the join exists exactly when the column splits two wide |
| Merger.PopulationTableCorrect | codigos/ler_estruturar_arquivo.py:9-19 | that table has distinct capitals, exactly the normalised capitals, each row the earliest normalised row of its capital, in input order |
| Merger.Matches | codigos/ler_estruturar_arquivo.py:25 | the records one population row yields are exactly its pairings with states of the same capital |
| Merger.Join | codigos/ler_estruturar_arquivo.py:25-26 | a record is in the inner join exactly when it pairs a population row with a state of the same capital, carrying that state's name and region and that row's population, in column order (state, capital, region, population) |
| Merger.JoinMembership | codigos/ler_estruturar_arquivo.py:25 | every joined capital occurs on both sides |
| Merger.JoinComplete | codigos/ler_estruturar_arquivo.py:25 | every state whose capital has a population row yields a record, with the population of that capital's row |
| Merger.MatchesAtMostOne | codigos/ler_estruturar_arquivo.py:25 | with distinct state capitals one population row matches at most one state |
| Merger.JoinBoundsDistinct | codigos/ler_estruturar_arquivo.py:19-25 | with distinct capitals on both sides the joined capitals are distinct and the join has at most min(states, population rows) records |
| Merger.Merge | codigos/ler_estruturar_arquivo.py:6-26 | the unified table exists exactly when the column splits two wide; membership is the inner join with the de-duplicated table; every capital is both a normalised spreadsheet capital and a scraped one; with distinct state capitals the records have distinct capitals and number at most min(states, table rows) |
| Merger.MergeFindsState | codigos/ler_estruturar_arquivo.py:16-25 | a state whose capital is the upper-cased capital of some cell gets a record with its name, capital and region |
| Merger.MergeAsWritten | codigos/ler_estruturar_arquivo.py:3-26 | the function as written fails on the same inputs but, having no `return`, hands back `None` on success |
| Merger.MissingReturnLosesTable | codigos/ler_estruturar_arquivo.py:25-26 | whenever the computed table has a record, the function as written still returns `None` |
| Ranking.Insert | codigos/manipular_banco_dados.py:71 | inserting into a non-increasing sequence keeps it non-increasing and adds exactly the element |
| Ranking.SortDesc | codigos/manipular_banco_dados.py:71 | `ORDER BY … DESC` gives a non-increasing permutation of the input |
| Ranking.TopK | codigos/manipular_banco_dados.py:71-72 | `ORDER BY … DESC LIMIT k` gives min(k, n) elements, non-increasing, a sub-multiset of the input, and no element left out has a larger key than any element kept |
| Store.LoadKeys | codigos/manipular_banco_dados.py:37-41 | after loading (`Load`, the upsert loop), the table's states are the previous states plus the loaded ones |
| Store.LoadLastWins | codigos/manipular_banco_dados.py:38-41 | the row stored for each loaded state is the last loaded record of that state (`INSERT OR REPLACE`) |
| Store.LoadKeepsOthers | codigos/manipular_banco_dados.py:38-41 | rows of states not loaded are unchanged |
| Store.LoadAppend | codigos/manipular_banco_dados.py:37-41 | loading a + b is loading a then b |
| Store.LoadIdempotent | codigos/manipular_banco_dados.py:29-41 | loading the same records twice gives the table loading them once gives |
| Store.SecondLoadWins | codigos/manipular_banco_dados.py:38-41 | a state in a later batch keeps the later batch's last row |
| Store.CreateAndLoad | codigos/manipular_banco_dados.py:27-41 | creating the table if absent and loading: states are the old ones (none if newly created) plus the loaded ones; loaded states hold their last record; other rows are unchanged |
| Reporter.Scan | codigos/manipular_banco_dados.py:69 | a scan of `estados` lists every stored row exactly once, as stored |
| Reporter.Groups | codigos/manipular_banco_dados.py:70 | `GROUP BY regiao` yields each region of the rows exactly once |
| Reporter.TotalPermutation | codigos/manipular_banco_dados.py:68-70 | a region's `SUM(populacao)` (`Total`) is the same for any order the rows are scanned in |
| Reporter.RegionTotals | codigos/manipular_banco_dados.py:68-70 | one distinct row per region, carrying that region's sum, and every region has its row |
| Reporter.TopRegionsQuery | codigos/manipular_banco_dados.py:67-73 | query 1 (`TopRegions`) returns min(3, regions) rows of distinct regions of the rows, each with its region's sum, sums non-increasing, and no region left out has a larger sum than a region kept |
| Reporter.CountCapitals | codigos/manipular_banco_dados.py:84 | `COUNT(DISTINCT capital)` is the number of distinct capitals of the region |
| Reporter.CapitalsPerRegion | codigos/manipular_banco_dados.py:83-87 | query 2 returns exactly one row per region of the rows, each counting that region's distinct capitals |
| Reporter.TopStatesQuery | codigos/manipular_banco_dados.py:111-116 | query 3 (`TopStates`) returns min(2, rows) rows drawn from the rows, populations non-increasing, and no row left out has a larger population than a row kept |
| Reporter.ListingsPermutation | codigos/manipular_banco_dados.py:69 | any two scans of the same table hold the same rows |
| Reporter.RegionsReport | codigos/manipular_banco_dados.py:67-80 | query 1 over the table: min(3, stored regions) distinct stored regions, each with its stored total, non-increasing, no region left out beats a region kept |
| Reporter.CountsReport | codigos/manipular_banco_dados.py:83-93 | query 2 over the table: one row per stored region with the number of distinct capitals stored for it |
| Reporter.StatesReport | codigos/manipular_banco_dados.py:111-122 | query 3 over the table: min(2, stored rows) rows of distinct stored states showing their stored capital and that capital's population, populations non-increasing, and no stored state left out has a more populous capital than a state shown |
| Reporter.Report | codigos/manipular_banco_dados.py:49-139 | the three reports over one scan of the table, each stated against the table itself: query 1 gives min(3, stored regions) rows of distinct stored regions with their stored totals, non-increasing, none left out larger; query 2 gives one row per stored region with its count of distinct capitals; query 3 gives min(2, stored rows) rows of distinct stored states with their stored capital and population, non-increasing, none left out larger |

## Left out

- The browser session: opening the page, the visibility wait, and the XPath and `tr`/`td` lookups. The wait is called with the URL string instead of the driver. The session's outcome is an input: either the rows of cells or a missing table. A failed wait is the `TableMissing` case.
- The orchestration in `codigos/main.py`: folders, the log file, the driver's start and quit, and the try/except chain. It holds no data logic.
- File and database I/O: `pd.read_excel`, `sqlite3.connect`, `commit`, `close`, `pd.read_sql_query`, the CSV export and the `xlwings` Excel exports. The spreadsheet column arrives as a sequence of strings. The table is a map value. The reports are returned values.
- Logging: it is informational only.
- Store.Record: the population is an unbounded integer, so the model covers only split text that is an integer literal within the signed 64-bit range. It does not cover a cell without a colon, whose population is `None`, stored as NULL, skipped by `SUM` and sorted last by `ORDER BY … DESC`. It does not cover the other conversions of INTEGER affinity, which behaves like NUMERIC: a real literal is stored as REAL, or as INTEGER when it is integral (`3.0e+5` becomes 300000); an integer literal beyond 64 bits is stored as REAL, so `SUM` and `ORDER BY` then work on a float; only text that is neither an integer nor a real literal stays TEXT. It does not cover SQLite's integer overflow error in `SUM`. The conversion happens inside SQLite, which is not modelled. The merger keeps the population as text, as pandas does.
- Unicode specifics of `str.strip` and `str.upper`. Both are abstract. Upper-casing is a character map, so it cannot change a string's length, although Python's `upper` can (for example `ß` becomes `SS`).
- Text.Upper: states only that the length is kept. Its content is the abstract character map applied position by position, which `Merger.UpperCapitals` states row by row.
- The `KeyError` raised when the spreadsheet has no `Capital/populacao` column: the column is given directly.
- pandas row order inside an inner join is modelled as the left side's order, then state order within one capital. Only membership, distinctness and the bounds are proved.
- Read-only queries: the queries leave the table unchanged. This holds by construction here, because `Report` takes the table as an immutable value and returns only its reports.
- At most one row per state holds by construction, because the table is a map keyed by state.
- The merger has no 26-row check and no branch on whether duplicates existed. The extractor does not reject empty fields.
- Tie order in `ORDER BY … DESC LIMIT k`: no tie-break is fixed, because SQL fixes none. Results are specified up to ties.

## Findings

| source | as written | input that shows it | evidently intended | confidence | as-written member | corrected member |
|---|---|---|---|---|---|---|
| codigos/ler_estruturar_arquivo.py:3-26 | the function computes `df_unificado` but has no `return`, so its caller (which expects the unified table) receives `None` | a column holding `"A:1"`, a state whose capital is `"A"`, and an upper-casing that leaves `A` as it is: the joined table has one record, yet the function returns `None` | `return df_unificado` after line 26 | not executed | Merger.MergeAsWritten, Merger.MissingReturnLosesTable | Merger.Merge |
