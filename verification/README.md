# Price ledger of the supermarket price comparator

The comparator keeps a price ledger. The ledger is a table of products, one row per SKU (the product's EAN). Each of four supermarket sites has its own group of result columns:

- NINI: "Precio NINI", "Oferta NINI";
- CARREFOUR: "Precio CARREFOUR", "Oferta CARREFOUR";
- VEA: "Precio VEA", "Oferta VEA", "Dinamica VEA";
- DISCO: "Precio DISCO", "Oferta DISCO", "Dinamica DISCO".

A run (`run_scraper`) does the following:

1. Reads the product list.
2. Seeds the ledger, either fresh or by left-merging the previous output file on SKU.
3. Writes the seeded ledger.
4. Starts one worker per selected site, in the fixed order NINI, CARREFOUR, VEA, DISCO.
5. Each worker (`worker_site`) walks the rows in order. It looks up every row whose price for its site is still open ("Pendiente", "No encontrado" or "Error", or no column at all). It turns each lookup result into a record `{idx, SKU, Precio, Oferta[, Dinamica]}`. DISCO additionally survives browser crashes.
6. Once every worker has joined, the run writes each site's records into that site's columns only, and counts them.

The web front end (`app.py`) has two parts that are modelled:

- **The start request** refuses a second run while one is going. It turns the form into the site selection and the rescan flag. It validates an uploaded product list:
  - the file kind is taken from the suffix;
  - the CSV readers are tried in a fallback order;
  - the required columns are checked after name normalisation.

  It then hands the list to the scraper with a `SKU` column copied from the EAN column.
- **The log stream** turns queue items into server-sent events.

Modules, one per file:

- `wrappers.dfy` (Wrappers): `Option`.
- `text.dfy` (Text): Python's substring test, `endswith`, `lower`, `strip` and `join`.
- `ledger.dfy` (Ledger): cells, rows and tables; the sites and their columns; the `df.at` and `df[col] = ...` updates.
- `seeding.dfy` (Seeding): fresh seeding.
- `merge.dfy` (Merge): seeding from the previous output. It holds both the merge as written and the corrected merge (see Findings).
- `worker.dfy` (Worker): eligibility, the row loop, result normalisation and DISCO's crash recovery.
- `consolidation.dfy` (Consolidation): writing the records back, and the update counter.
- `run.dfy` (Run): the site list, seeding, the workers and consolidation, composed into one run.
- `driver.dfy` (Driver): the retry policy and port range of `configurar_driver`.
- `scrape_rules.dfy` (ScrapeRules): NINI's price/offer assignment and CARREFOUR's price-text test.
- `webapp.dfy` (WebApp): `start_scraper`.
- `stream.dfy` (Stream): `stream_logs.generate`.

## Modelling choices

**Cells.** A cell is `Str(text)` or `Missing`, a pandas null, which `str` renders as "nan". This matters because the merge has no `fillna`.

**Tables.** A table is a column sequence plus rows, and a row is a map from column name to cell. Row numbers are positions: the program's tables always carry the default index.

**Lookups are an oracle.** A site search gives a plain string, a tuple of strings, or an exception with its message. The same oracle stands for:
- the browser;
- NINI's login and order set-up;
- the site searches.

**Drivers are numbered.** `configure(n)` tells whether the worker's n-th call of `configurar_driver` yields a driver. The driver is then known by that number n, and the lookup oracle is indexed by driver.

**Results arrive in any order.** Consolidation walks `results_dict` in the order in which the workers stored their results. That order is a parameter constrained only to list each selected site once.

**Files and other inputs are parameters.** Files are the tables read and written. The form, the upload's reader outcomes and the Unicode functions (`unicodedata.normalize('NFKD', ·)`, `unicodedata.combining`) are parameters of the start request.

## Model

| member | source | states |
|---|---|---|
| Ledger.SiteColumns | comparador_completo.py:1117-1136 | A site writes its price and offer columns, plus its dynamic column for VEA and DISCO. That is two or three columns. |
| Ledger.SiteColumnsDisjoint | comparador_completo.py:1117-1136 | No column is written by two sites. |
| Ledger.ResultColumnsHaveSite | comparador_completo.py:1018 | Each of the ten result columns belongs to some site. |
| Ledger.FilledColumnsExact | comparador_completo.py:1030-1036 | The columns whose nulls fresh seeding fills are exactly the result columns other than "Oferta NINI". |
| Ledger.AddColumn | comparador_completo.py:1031-1032 | A new column is appended last and holds the fill value in every row; the other cells are unchanged. |
| Ledger.SetCell | comparador_completo.py:1118 | `df.at[k, col] = v` changes row k's cell only. A column the table lacks is appended and is null in every other row. |
| Ledger.AssignColumn | comparador_completo.py:1020 | `df[col] = df[src]` gives every row's `col` cell its `src` value. A missing `col` is appended; the other cells are unchanged. |
| Seeding.Absent | comparador_completo.py:1030-1031 | The result names the table lacks, each once and in order. |
| Seeding.AddMissingColumns | comparador_completo.py:1030-1032 | Existing columns keep their place and cells. Each missing result column is appended and holds "Pendiente". |
| Seeding.FillMissing | comparador_completo.py:1035-1036 | In the listed columns, nulls become "Pendiente"; every other cell is unchanged. |
| Seeding.FreshSeed | comparador_completo.py:1029-1036 | The rows are the same, the input's columns come first and in order, and every result column exists afterwards. |
| Seeding.FreshSeedCell | comparador_completo.py:1029-1036 | A non-null cell is never overwritten, and a missing result column is "Pendiente". A null in any of the nine filled result columns becomes "Pendiente"; a null in "Oferta NINI" or any other column is kept. |
| Seeding.FreshPricesNeverNull | comparador_completo.py:1029-1036 | After fresh seeding, a site's price cell is the input's non-null value, or else "Pendiente". |
| Merge.Matches | comparador_completo.py:1016 | The prior rows with a given SKU: all of them and only them. |
| Merge.FirstMatch | comparador_completo.py:1016 | The first prior row with the SKU, or none exactly when no prior row has it. |
| Merge.NonKey | comparador_completo.py:1016 | The prior file's columns other than the merge key. |
| Merge.RightColumns | comparador_completo.py:1016 | Each prior column gets the suffix "_old" exactly when the new list also has it. |
| Merge.NoOldMergedDistinct | comparador_completo.py:1016 | When no column name contains "_old", the merged column names are distinct. |
| Merge.DistinctMergedColumns | comparador_completo.py:1016 | With distinct merged names, no two prior columns get the same merged name, and none gets a new-list column's name. |
| Merge.JoinRowKeys | comparador_completo.py:1016 | A merged row has exactly the merged columns, whether or not the SKU had a prior match. |
| Merge.JoinWith | comparador_completo.py:1016 | A new row yields at least one merged row, and every merged row has exactly the merged columns. |
| Merge.LeftJoin | comparador_completo.py:1016 | The left merge keeps at least one row per new row, and every row has exactly the merged columns. |
| Merge.CopyBack | comparador_completo.py:1018-1020 | Copy-back keeps the rows, and keeps the columns when every "_old" twin has its original. |
| Merge.CopyBackCell | comparador_completo.py:1018-1020 | A copied column takes its "_old" twin's value; every other cell is unchanged. |
| Merge.KeepNew | comparador_completo.py:1022 | The kept names are exactly the names that do not contain "_old". |
| Merge.DropOld | comparador_completo.py:1022 | Every column whose name contains "_old" anywhere is dropped; the remaining cells are unchanged. |
| Merge.MergeAsWritten | comparador_completo.py:1013-1022 | The program's merge gives no result exactly when a file lacks SKU or the merged names collide. Otherwise it gives a well-formed table with at least as many rows as the new list. |
| Merge.MergePrior | comparador_completo.py:1013-1022 | The corrected merge gives exactly one row per new-list row. It fails exactly when a file lacks SKU or the merged names collide. |
| Merge.OldTwin | comparador_completo.py:1016-1020 | A merged "_old" column is the twin of a column that both files have. |
| Merge.CopyBackOnJoin | comparador_completo.py:1016-1020 | On the corrected join, a copied column that both files have takes the "_old" value. |
| Merge.SettleColumns | comparador_completo.py:1016-1022 | After the drop, the columns are exactly those of the two files. |
| Merge.MergePriorColumns | comparador_completo.py:1013-1022 | The merged ledger has exactly the columns of both files, and one row per new-list row. |
| Merge.MergePriorKeepsNew | comparador_completo.py:1013-1022 | A new-list column keeps its value, unless it is a result column that the prior file also has. |
| Merge.MergePriorTakesPrior | comparador_completo.py:1013-1022 | A result column the prior file has, or a prior-only column, takes the value from the SKU's prior row. It is null when the SKU is not in the prior file. |
| Merge.ResultColumnsNoOld | comparador_completo.py:1018-1022 | No result column name contains "_old", so the drop never removes a result column. |
| Merge.MergeAgreesOnUniquePrior | comparador_completo.py:1016 | When each SKU appears once in the prior file, the program's merge equals the corrected one. |
| Merge.JoinRow | comparador_completo.py:1016 | Models one merged row of the left merge. Merge.JoinRowKeys states its columns, and Merge.JoinedTakesRight states its prior values. |
| Merge.JoinedFirst | comparador_completo.py:1016 | The corrected join: one row per new-list row, in order, each joined with the first prior row of its SKU. |
| Merge.Settle | comparador_completo.py:1016-1022 | The corrected join after copy-back and the drop. It keeps the table well formed and has one row per new-list row. |
| Merge.LeftJoinUnlisted | comparador_completo.py:1016 | In the left merge as written, whatever the prior file repeats, a merged row whose SKU the prior file does not list holds null in every prior column. |
| Merge.MergeAsWrittenUnlisted | comparador_completo.py:1013-1022 | In the program's merge, a row whose SKU the prior file does not list holds null in every result column the prior file has. |
| Merge.DuplicatePriorRowsMultiply | comparador_completo.py:1016 | A SKU listed twice in both files makes four rows out of two under the merge as written; the corrected merge keeps two. |
| Worker.Eligible | comparador_completo.py:813-814 | Models the `str(row.get(col, "Pendiente")) not in [...]` test. Worker.EligibleCells characterises it cell by cell. |
| Worker.Unpack | comparador_completo.py:816-940 | Models how a lookup result becomes a record, or an error that escapes. Worker.RecordContents states each case. |
| Worker.Walk | comparador_completo.py:810-940 | Models the row loop of every site, with DISCO's crash restart. Worker.WalkIndices, Worker.WalkSteady, Worker.WalkEscapes and Worker.WalkCompletes state what it computes. |
| Worker.WorkerSite | comparador_completo.py:758-947 | Models `worker_site` from driver set-up to `results_dict[site]`. Worker.WorkerSiteIndices, Worker.WorkerGivesUp and Worker.WorkerSteady state what it yields. |
| Worker.OnDriver | comparador_completo.py:804-947 | Models the worker once a driver is up: NINI's order set-up, then the row loop, and nothing if the loop raised. Worker.WorkerSiteIndices states what it yields. |
| Worker.EligibleCells | comparador_completo.py:813-814 | A row is looked up exactly when its price cell is absent or holds "Pendiente", "No encontrado" or "Error". A null cell ("nan") is skipped. |
| Worker.EligibleFrom | comparador_completo.py:810-814 | The eligible rows from a position on: ascending, all eligible, and none missing. |
| Worker.RowStep | comparador_completo.py:816-940 | A row that is not lost keeps a record for that row and SKU. The loop goes on with the same driver, or with the driver of the next `configurar_driver` call. |
| Worker.WalkIndices | comparador_completo.py:810-940 | A completed row loop holds exactly one record per eligible row, in row order. |
| Worker.WorkerSiteIndices | comparador_completo.py:758-947 | Every record names an eligible row. A worker that did not give up has one record per eligible row, in row order. |
| Worker.WorkerGivesUp | comparador_completo.py:763-776 | With no driver after two tries, or with NINI's order set-up failing, `results_dict[site]` is empty. |
| Worker.WorkerSteady | comparador_completo.py:804-942 | With a driver from the first or second try, and every eligible row having a SKU and a price result, the worker yields the record of each eligible row's own lookup, in row order. |
| Worker.WalkSteady | comparador_completo.py:838-860 | When every eligible row settles, the loop completes with the expected records. |
| Worker.WalkEscapes | comparador_completo.py:837-947 | For NINI, CARREFOUR and VEA, one eligible row without SKU or with a failed lookup loses the site's whole loop. |
| Worker.WalkCompletes | comparador_completo.py:837-887 | For NINI, CARREFOUR and VEA the loop completes exactly when every eligible row has a SKU and its lookup gives a price. |
| Worker.DiscoCompletes | comparador_completo.py:889-940 | While browser restarts succeed, DISCO gets a record for every eligible row with a SKU, whatever the lookups do. |
| Worker.DiscoCrash | comparador_completo.py:916-931 | A "tab crashed" or "session deleted" error records 'Error' and continues on the restarted driver. A failed restart loses the site. |
| Worker.DiscoStepGoes | comparador_completo.py:895-940 | DISCO gets past any row while the restart it may need succeeds. |
| Worker.WalkUsesLiveDrivers | comparador_completo.py:920-924 | After a crash the replaced driver is never used again. |
| Worker.RecordContents | comparador_completo.py:816-940 | A plain result is the price with an empty offer. A tuple gives price and offer, and for VEA and DISCO its third part or ''. A caught DISCO error gives 'No encontrado'. |
| Consolidation.LastWrite | comparador_completo.py:1118-1136 | The last value written to a column is present exactly when the column was written, and it is one of the writes. |
| Consolidation.SetCells | comparador_completo.py:1118-1136 | A sequence of `df.at` writes keeps the table well formed and the rows the same. |
| Consolidation.SetCellsColumns | comparador_completo.py:1118-1136 | After the writes a column exists exactly when it existed or was written. |
| Consolidation.SetCellsCell | comparador_completo.py:1118-1136 | The written row holds each column's last written value. Other rows are unchanged, and null in new columns. |
| Consolidation.Writes | comparador_completo.py:1117-1136 | A record writes exactly its site's columns with its Precio, Oferta and Dinamica ('' if absent). |
| Consolidation.ApplyRecord | comparador_completo.py:1114-1137 | One record's `df.at` writes keep the table well formed and its rows. Consolidation.ApplyRecordColumns and Consolidation.ApplyRecordCell state what changes. |
| Consolidation.ApplyRecordColumns | comparador_completo.py:1114-1137 | A record adds at most its site's columns. |
| Consolidation.ApplyRecordCell | comparador_completo.py:1114-1137 | A record changes only its own row's cells in its site's columns. |
| Consolidation.LastFor | comparador_completo.py:1114-1115 | The last record for a row, or none exactly when no record names the row. |
| Consolidation.ApplySite | comparador_completo.py:1114-1137 | A site's records, written in order, keep the table well formed and its rows. Consolidation.ApplySiteColumns and Consolidation.ApplySiteCell state what they write. |
| Consolidation.ApplySiteColumns | comparador_completo.py:1114-1137 | A site's records add its columns exactly when there is at least one record. |
| Consolidation.ApplySiteCell | comparador_completo.py:1114-1137 | After a site's records, its columns at a row hold that row's last record's values; every other cell is unchanged. |
| Consolidation.Owner | comparador_completo.py:1117-1136 | A column belongs to at most one site, and this gives that site. |
| Consolidation.Consolidate | comparador_completo.py:1109-1137 | Writing every site's results in arrival order keeps the table well formed and its rows. Consolidation.ConsolidateWrites and Consolidation.ConsolidateOrderIrrelevant state the result. |
| Consolidation.ConsolidateColumns | comparador_completo.py:1109-1137 | A column exists after consolidation exactly when it existed or its owning site has records. |
| Consolidation.ConsolidateCell | comparador_completo.py:1109-1137 | Every cell after consolidation is decided by its column's owning site alone. |
| Consolidation.ConsolidateOrderIrrelevant | comparador_completo.py:1111-1137 | Any order of the results gives the same rows and the same set of columns. |
| Consolidation.ConsolidateWrites | comparador_completo.py:1109-1137 | A site's columns at a row take its last record's values for that row. Every other cell keeps its value, and a failed site changes nothing. |
| Consolidation.CountIsSiteTotal | comparador_completo.py:1110-1137 | Counting the records in any order of the sites gives the same sum. |
| Consolidation.CountIsTotal | comparador_completo.py:1110-1137 | `total_actualizados` counts every record of `results_dict` once. |
| Consolidation.WriteSite | comparador_completo.py:1114-1137 | The inner loop writes a site's records in order and counts each one. |
| Consolidation.ConsolidateAll | comparador_completo.py:1109-1137 | The consolidation loop yields the consolidated ledger, and the count equals the total number of records. |
| Run.SitesToScrape | comparador_completo.py:1057-1065 | A site is listed exactly when it is selected, in the fixed site order. |
| Run.SitesDistinct | comparador_completo.py:1057-1065 | No site is listed twice. |
| Run.SitesAreSubsequence | comparador_completo.py:1057-1070 | The list is empty exactly when nothing is selected, and is the full list when everything is. |
| Run.Seed | comparador_completo.py:1013-1036 | Seeding with the corrected merge fails exactly when the merge raises: a file lacks SKU, or the merged names collide. Otherwise it keeps one row per product. |
| Run.SeedAsWritten | comparador_completo.py:1013-1036 | The program's seeding fails exactly when the corrected one does: only a merge fails, when a file lacks SKU or the merged names collide. Otherwise it gives a well-formed ledger with at least one row per product. |
| Run.SeedAgrees | comparador_completo.py:1013-1036 | On a forced rescan, without a previous output, or when the previous output lists each SKU once, the program's seeding equals the corrected one. It then fails exactly when the merge raises, and otherwise keeps one row per product. |
| Run.SeedAsWrittenGrows | comparador_completo.py:1013-1016 | A previous output listing a SKU twice makes the program's seeding give four rows for two products, where the corrected seeding gives two. |
| Run.WorkersFit | comparador_completo.py:1114-1115 | Every worker's records name rows of the ledger. |
| Run.Results | comparador_completo.py:1053-1104 | `results_dict` has exactly the selected sites. |
| Run.Scrape | comparador_completo.py:1067-1137 | No worker runs exactly when no site is selected. Otherwise the ledger keeps its rows. |
| Run.ScrapeOrderIrrelevant | comparador_completo.py:1102-1137 | The final ledger and the count do not depend on which worker finished first. |
| Run.ScrapeFinalCell | comparador_completo.py:1109-1137 | A selected site's cell keeps its seeded value when the row was not eligible or the worker failed. Otherwise it takes the site's record for the row. |
| Run.Prepare | comparador_completo.py:995-1016 | A seeded ledger exists exactly when the input exists, has a SKU column, and seeding does not raise. It is then well formed, with one row per product. |
| Run.RunScraper | comparador_completo.py:982-1149 | A final ledger is written only after the seeded one, and is not written exactly when nothing is selected. |
| Run.RunWritesSeed | comparador_completo.py:1009-1039 | The seeded ledger does not depend on the selection, the workers or the arrival order, so it is written even when nothing is selected. It is written exactly when the input has a SKU column and seeding does not raise, and it has one row per product. |
| Run.UnknownSkuNotLookedUp | comparador_completo.py:1013-1022 | With the program's merge, every row whose SKU the previous output does not list gets a null price for each site whose price column the previous output has. Such a row is then never looked up. |
| Driver.Configure | comparador_completo.py:110-159 | A driver comes only from an attempt that succeeds, among the three. |
| Driver.Retryable | comparador_completo.py:147-152 | Models the test for a retryable error. Driver.ConfigureSpec states how it decides the retries. |
| Driver.ConfigureSpec | comparador_completo.py:110-159 | The driver comes from attempt a exactly when a succeeds and all earlier attempts failed with a retryable error ("WinError 32" or "permission"). Otherwise the error of a non-retryable attempt, or of the third attempt, is re-raised. |
| Driver.ConfigureLoop | comparador_completo.py:110-159 | The retry loop makes one to three attempts and ends as the policy says. |
| Driver.Port | comparador_completo.py:118-120 | The port lies in [9500, 9699]. |
| Driver.PortRangeExact | comparador_completo.py:118-120 | Every port in [9500, 9699] is reachable. |
| ScrapeRules.NiniAssign | comparador_completo.py:326-332 | Models NINI's column assignment. ScrapeRules.NiniAssignSpec states it by cases. |
| ScrapeRules.NiniAssignSpec | comparador_completo.py:326-332 | A regular price keeps both texts, and an offer alone becomes the regular price. With neither, the search goes on. An offer is never reported without a regular price. |
| ScrapeRules.NiniEmptyPriceReported | comparador_completo.py:326-332 | An empty regular price with no offer is reported as found. |
| ScrapeRules.SellingPrice | comparador_completo.py:414-441 | The price is the stripped text of an accepted element, or "No encontrado" when none is accepted. |
| ScrapeRules.Accepted | comparador_completo.py:419 | Models the test for a price text: non-empty once stripped, with a '$' or a digit. ScrapeRules.SellingPrice and ScrapeRules.FirstAccepted use it. |
| ScrapeRules.FirstAccepted | comparador_completo.py:417-437 | The first accepted element decides the price. |
| WebApp.SelectionOf | app.py:32-37 | Each site is selected exactly when its form field is exactly "on". |
| WebApp.KindOf | app.py:46-64 | Models the choice of reader by the lowered file name's suffix. WebApp.KindBySuffix states it. |
| WebApp.KindBySuffix | app.py:46-64 | A .xlsx or .xls suffix means Excel and .csv means CSV, in any letter case; any other name is refused. |
| WebApp.ReadUpload | app.py:49-62 | Excel is read directly. A CSV takes the first of separator detection, ';' and ',' that parses, and the ',' reader's error when all fail. |
| WebApp.DropCombining | app.py:73 | No combining mark remains after the drop. |
| WebApp.DropCombiningAppend | app.py:73 | Dropping marks distributes over concatenation. |
| WebApp.DropCombiningKeeps | app.py:73 | A text without marks is kept as it is. |
| WebApp.Normalize | app.py:70-73 | Models `normalize`: NFKD, drop the combining marks, lower, strip. WebApp.DropCombining, WebApp.DropCombiningAppend and WebApp.DropCombiningKeeps state the drop. |
| WebApp.ColumnMap | app.py:76 | The map's keys are exactly the normalised names, and its values are columns of the table. |
| WebApp.ColumnMapLastWins | app.py:76 | Among columns with the same normalised name, the last one is kept. |
| WebApp.Absent | app.py:79 | The missing required names are exactly those not in the map. |
| WebApp.MissingInOrder | app.py:78-79 | The missing names are listed in the order codigo, ean, descripcion. |
| WebApp.ColumnsAcceptedIff | app.py:76-83 | A table passes exactly when codigo, ean and descripcion are all normalised column names. Otherwise the message lists the missing names and the columns as read. |
| WebApp.CheckColumns | app.py:75-92 | An accepted table is well formed and has a SKU column. WebApp.ColumnsAcceptedIff and WebApp.SkuFromLastEan state when it is accepted and what it holds. |
| WebApp.SkuFromLastEan | app.py:89-92 | An accepted table is the table read, with `SKU` copied from the last column that normalises to "ean". |
| WebApp.Load | app.py:44-95 | An accepted upload is well formed and has a SKU column. |
| WebApp.LoadRefusedIff | app.py:44-95 | An upload is refused exactly when its suffix is unsupported, reading raises, or a required column is missing, with the matching message. |
| WebApp.Start | app.py:24-113 | A request while a run is going is refused with 400. The queue is cleared exactly when a run is launched. A launched run carries the uploaded list exactly when one was sent. |
| WebApp.StartLaunches | app.py:27-113 | A run launches exactly when none is going and the upload, if any, is accepted. The flags come from "on" fields, and an upload forces the rescan. |
| Stream.Translate | app.py:127-135 | A log record gives its message and level; anything else gives its text at level INFO. |
| Stream.Generate | app.py:117-143 | Models the generator's events for the polls it makes. Stream.GenerateSpec and Stream.GenerateAppend state them. |
| Stream.FirstEnd | app.py:117-143 | The position of the first poll that ends the stream: a stop signal or a broken queue. |
| Stream.GenerateSpec | app.py:117-143 | Each poll before the end yields its own event (a heartbeat for a timeout). The stop signal yields one stop message, and a broken poll yields nothing. |
| Stream.GenerateAppend | app.py:117-143 | Nothing after the end is read; before it, the stream is the concatenation of its parts. |
| Stream.StopNeedsPlainString | app.py:123-135 | A log record whose text is "STOP_SIGNAL" does not end the stream. |
| Stream.Drain | app.py:117-143 | The generator loop yields exactly the stream's events and polls up to and including the ending poll. |
| Stream.StreamNeverStops | comparador_completo.py:1150-1154 | When every poll finds the queue empty, as in a run started from the web front end, the stream yields only heartbeats and never the stop message. |
| Stream.StreamStopsAfterRun | comparador_completo.py:1150-1156 | If the run's records reach the queue and it ends by putting the plain stop string there, the stream yields a heartbeat per quiet poll, then every record, then the stop message. Nothing put on the queue later is read. |

## Left out

- **Browser and DOM work.** Selenium, `login_nini`, `iniciar_pedido_nini`, `esperar_overlays_nini` and the bodies of the four searches are not modelled. They are the lookup oracle and `orderReady`. Only the two pure rules in ScrapeRules are extracted.
- **File I/O.** pandas reading and writing (`read_excel`, `read_csv`, `to_excel`) is replaced by tables as parameters and results. An input file that does not exist is `None`.
- **Concurrency and pacing.**
  - Threads, `join`, `pause_event` and `check_pause` are not modelled. The workers only write their own `results_dict` entry, and the ledger changes only after every join. So the run is modelled sequentially, with the arrival order of the results as a parameter.
  - `time.sleep`, timeouts and random delays are left out because they are timing.
  - The random port draw is a parameter of Driver.Port.
- **Logging and progress output.** Logging, `product_queue` updates (`emit_product_update`, the 'init' messages), `print` and the SSE framing and JSON encoding are left out: they are output only. Nothing in the program puts an item on `log_queue` (see Findings). So Stream takes the queue's contents as a parameter and does not derive them from a run.
- **Flask itself.** Routing, `send_file`, the download route and the console menu `menu_seleccion_paginas` are not modelled.
- Text.Lower: maps ASCII letters only. Python's `str.lower` also lowers non-ASCII letters. Every test the program makes on lowered text compares with ASCII patterns, and only U+0130 and U+212A lower to ASCII letters; neither can complete a match of those patterns (and NFKD decomposes both before lowering in `normalize`). So the outcome of each such test is the same.
- WebApp.Normalize: the NFKD decomposition and the combining-mark test are parameters. Column names are strings, so the `str(text)` branch for a non-string name is not modelled.
- ScrapeRules.Accepted: counts ASCII digits only. Python's `str.isdigit` also accepts other Unicode digits.
- **Readers are assumed to behave.** WebApp.ReadUpload and WebApp.Load assume (ReadersOk) that every table a reader returns is well formed: it has distinct column names and is rectangular.
- **Dead code.** The `df is None` test at app.py:66-67 cannot fire: every branch either sets `df` or returns or raises. It has no counterpart in the model.
- Merge.MergeAsWritten: treats any collision among the merged column names as a failed merge (no result), and so does Merge.MergePrior. pandas rejects only some of these collisions: those among one file's own renamed columns. A product list with columns SKU, X and X_old, merged with a previous output with SKU and X, gives two X_old columns without an error. The drop then removes both, and the program writes its ledger where the model has none. The model leaves this case out because it needs tables with repeated column names. When the merge does fail, the run writes nothing, as for any exception inside `run_scraper`'s `try`.
- **Column order.** Consolidation.ConsolidateOrderIrrelevant states equal column SETS, not equal column sequences. A column created by `df.at` enlargement is appended when first written, so its position depends on the order of the results.
- Run.Seed: seeds with the corrected merge Merge.MergePrior, not the program's merge. So it keeps one row per product even when the previous output lists a SKU twice; the program's ledger then grows (see Findings). Run.SeedAsWritten is the program's seeding. Run.SeedAgrees proves the two equal whenever the previous output lists each SKU once, and Run.SeedAsWrittenGrows shows where they part. Run.Prepare, Run.RunScraper and Run.RunWritesSeed inherit the corrected seeding.
- **Names containing "_old".** Merge.MergePriorColumns, Merge.MergePriorKeepsNew, Merge.MergePriorTakesPrior, Merge.MergeAsWrittenUnlisted and Run.UnknownSkuNotLookedUp assume that no column name of the product list or of the previous output contains "_old". The drop removes such a column whatever it holds, and the program never writes one.
- **Empty NINI price.** ScrapeRules.NiniEmptyPriceReported shows that NINI reports a found product with an empty regular price and no offer as `("", "")`. Consolidation then writes an empty price. An empty price is not one of the open texts, so the row is not looked up again. The model keeps this behaviour as written.

## Findings

| source | as written | input that shows it | evidently intended | confidence | as-written member | corrected member |
|---|---|---|---|---|---|---|
| comparador_completo.py:1016 | The seeding merge is a pandas left merge on SKU. Every new row is repeated once per prior row with the same SKU. | A product list that lists SKU 7790001 twice. The first run writes two rows. The next run merges the two input rows with those two prior rows and gets four rows, then eight on the run after, and so on. | Seeding keeps exactly the new list's rows, once each, in order. Each row takes the prior values of its SKU. | not executed | Merge.DuplicatePriorRowsMultiply | Merge.MergePrior |
| comparador_completo.py:1153-1154 | `run_scraper` ends by logging "STOP_SIGNAL" with `logging.info`. Nothing forwards log records to `log_queue`, and nothing else puts an item there: the comment at lines 978-979 says `app.py` configures logging, and it does not. So the `/stream_logs` generator (app.py:117-143) only ever finds the queue empty. | Start a run from `/start` and open `/stream_logs`. Every poll times out, so the page gets a heartbeat each second, never a log line, and never the stop message, even after the run ends. | The stream forwards the run's log records and ends with the stop message when the run ends, as the comment at line 1152 says ("end signal for the stream"). | not executed | Stream.StreamNeverStops | Stream.StreamStopsAfterRun |

Merge.MergeAsWritten models the merge as written. Merge.MergeAgreesOnUniquePrior proves that it equals Merge.MergePrior whenever the prior file lists each SKU once. The rest of the model (Run.Seed) uses Merge.MergePrior. Run.SeedAsWritten keeps the program's seeding alongside it. Merge.MergeAsWrittenUnlisted and Run.UnknownSkuNotLookedUp are stated for the program's merge. Merge.MergePriorColumns, Merge.MergePriorKeepsNew and Merge.MergePriorTakesPrior state what the corrected merge computes.

Stream.StreamNeverStops models the queue as the program leaves it: every poll times out. Stream.StreamStopsAfterRun models the intended queue, where the run's records arrive as log records and the run ends by putting the plain string "STOP_SIGNAL", as it already does on `product_queue` at line 1156. Stream.StopNeedsPlainString shows why a plain string is needed: a forwarded log record whose text is "STOP_SIGNAL" does not end the stream.
