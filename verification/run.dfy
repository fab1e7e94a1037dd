/** `run_scraper`: read the product list, seed the ledger (fresh, or from
    the previous output), write it, run one worker per selected site, and
    write the consolidated ledger. Files are modelled by the tables the run
    reads and the tables it writes, in order. */
module Run {
  import opened Wrappers
  import opened Ledger
  import Seeding
  import Merge
  import opened Worker
  import opened Consolidation

  // ----- Site selection -----

  /** The selection dictionary, read with `selection.get(key, False)`. */
  type Selection = map<string, bool>

  predicate Selected(sel: Selection, key: string) {
    key in sel && sel[key]
  }

  function SiteKey(s: Site): string {
    match s
    case Nini => "nini"
    case Carrefour => "carrefour"
    case Vea => "vea"
    case Disco => "disco"
  }

  /** A site's place in the fixed site order. */
  function Rank(s: Site): nat {
    match s
    case Nini => 0
    case Carrefour => 1
    case Vea => 2
    case Disco => 3
  }

  /** `sites_to_scrape`: the selected sites, in the fixed order. */
  function SitesToScrape(sel: Selection): (ss: seq<Site>)
    ensures forall s :: s in ss <==> Selected(sel, SiteKey(s))
    ensures forall i, j :: 0 <= i < j < |ss| ==> Rank(ss[i]) < Rank(ss[j])
  {
    (if Selected(sel, "nini") then [Nini] else [])
    + (if Selected(sel, "carrefour") then [Carrefour] else [])
    + (if Selected(sel, "vea") then [Vea] else [])
    + (if Selected(sel, "disco") then [Disco] else [])
  }

  /** No site is listed twice. */
  lemma SitesDistinct(sel: Selection)
    ensures Distinct(SitesToScrape(sel))
  {
    var ss := SitesToScrape(sel);
    forall i, j | 0 <= i < j < |ss| ensures ss[i] != ss[j] {
      assert Rank(ss[i]) < Rank(ss[j]);
    }
  }

  /** The site list is the fixed list with the unselected sites removed. */
  lemma SitesAreSubsequence(sel: Selection)
    ensures |SitesToScrape(sel)| <= |AllSites|
    ensures SitesToScrape(sel) == [] <==> forall s :: !Selected(sel, SiteKey(s))
    ensures (forall s :: Selected(sel, SiteKey(s))) ==> SitesToScrape(sel) == AllSites
  {
    SitesDistinct(sel);
    var ss := SitesToScrape(sel);
    if forall s :: Selected(sel, SiteKey(s)) {
      assert Selected(sel, "nini") && Selected(sel, "carrefour") && Selected(sel, "vea") && Selected(sel, "disco") by {
        assert SiteKey(Nini) == "nini" && SiteKey(Carrefour) == "carrefour";
        assert SiteKey(Vea) == "vea" && SiteKey(Disco) == "disco";
      }
    }
    if ss != [] {
      assert Selected(sel, SiteKey(ss[0]));
    }
  }

  // ----- The run -----

  /** Whether seeding can fail: only a merge can, when a file lacks SKU or
      the merged column names collide. */
  predicate SeedFails(input: Table, prior: Option<Table>, ignoreCache: bool) {
    && !ignoreCache && prior.Some?
    && ("SKU" !in input.columns || "SKU" !in prior.value.columns
        || !Distinct(Merge.MergedColumns(input, prior.value)))
  }

  /** The seeded ledger: merged with the previous output unless a rescan is
      forced or there is none; `None` when the merge raises. The merge is
      the corrected one, which keeps each product once. */
  function Seed(input: Table, prior: Option<Table>, ignoreCache: bool): (t: Option<Table>)
    requires WellFormed(input) && (prior.Some? ==> WellFormed(prior.value))
    ensures t.None? <==> SeedFails(input, prior, ignoreCache)
    ensures t.Some? ==> WellFormed(t.value) && |t.value.rows| == |input.rows|
  {
    if !ignoreCache && prior.Some? then Merge.MergePrior(input, prior.value)
    else Some(Seeding.FreshSeed(input))
  }

  /** The seeded ledger as the program computes it, with the merge as
      written: it fails in the same cases, and may have more rows than the
      product list. */
  function SeedAsWritten(input: Table, prior: Option<Table>, ignoreCache: bool): (t: Option<Table>)
    requires WellFormed(input) && (prior.Some? ==> WellFormed(prior.value))
    ensures t.None? <==> SeedFails(input, prior, ignoreCache)
    ensures t.Some? ==> WellFormed(t.value) && |t.value.rows| >= |input.rows|
  {
    if !ignoreCache && prior.Some? then Merge.MergeAsWritten(input, prior.value)
    else Some(Seeding.FreshSeed(input))
  }

  /** The program's seeding equals the corrected one on a forced rescan,
      without a previous output, and whenever the previous output lists
      each SKU once; it then keeps exactly one row per product. */
  lemma SeedAgrees(input: Table, prior: Option<Table>, ignoreCache: bool)
    requires WellFormed(input) && (prior.Some? ==> WellFormed(prior.value))
    requires ignoreCache || prior.None? || Merge.UniqueKeys(prior.value.rows)
    ensures SeedAsWritten(input, prior, ignoreCache) == Seed(input, prior, ignoreCache)
    ensures SeedAsWritten(input, prior, ignoreCache).None? <==> SeedFails(input, prior, ignoreCache)
    ensures SeedAsWritten(input, prior, ignoreCache).Some? ==>
      |SeedAsWritten(input, prior, ignoreCache).value.rows| == |input.rows|
  {
    if !ignoreCache && prior.Some? {
      Merge.MergeAgreesOnUniquePrior(input, prior.value);
    }
  }

  /** A previous output that lists a SKU twice makes the program's seeding
      grow the ledger, while the corrected seeding keeps it. */
  lemma SeedAsWrittenGrows()
    ensures var t := Merge.TwiceListed();
      && SeedAsWritten(t, Some(t), false).Some? && |SeedAsWritten(t, Some(t), false).value.rows| == 4
      && Seed(t, Some(t), false).Some? && |Seed(t, Some(t), false).value.rows| == |t.rows| == 2
  {
    Merge.DuplicatePriorRowsMultiply();
  }

  /** Every worker's records name rows of the ledger. */
  lemma WorkersFit(t: Table, envs: Site -> SiteEnv)
    ensures forall s :: RowsExist(t, WorkerSite(s, t, envs(s)))
  {
    forall s ensures RowsExist(t, WorkerSite(s, t, envs(s))) {
      WorkerSiteIndices(s, t, envs(s));
    }
  }

  /** `results_dict` once every worker has joined. */
  function Results(t: Table, sites: seq<Site>, envs: Site -> SiteEnv): (res: Results)
    ensures forall s :: s in res <==> s in sites
    ensures ResultsFit(t, res)
  {
    WorkersFit(t, envs);
    map s | s in sites :: WorkerSite(s, t, envs(s))
  }

  /** A permutation of the site list: the order in which the workers
      finished and stored their results. */
  predicate ArrivalOrder(order: seq<Site>, sites: seq<Site>) {
    Distinct(order) && forall s :: s in order <==> s in sites
  }

  /** The scraping phase on the seeded ledger: `None` when no site is
      selected (no worker runs); otherwise the consolidated ledger and
      `total_actualizados`. */
  function Scrape(seeded: Table, sel: Selection, envs: Site -> SiteEnv, order: seq<Site>): (r: Option<(Table, nat)>)
    requires WellFormed(seeded) && ArrivalOrder(order, SitesToScrape(sel))
    ensures r.None? <==> forall s :: !Selected(sel, SiteKey(s))
    ensures r.Some? ==> WellFormed(r.value.0) && |r.value.0.rows| == |seeded.rows|
  {
    var sites := SitesToScrape(sel);
    if sites == [] then None
    else
      var res := Results(seeded, sites, envs);
      Some((Consolidate(seeded, res, order), TotalRecords(res)))
  }

  /** The final ledger does not depend on which worker finished first:
      the same rows, the same columns (possibly in another order), the
      same count. */
  lemma ScrapeOrderIrrelevant(seeded: Table, sel: Selection, envs: Site -> SiteEnv, o1: seq<Site>, o2: seq<Site>)
    requires WellFormed(seeded)
    requires ArrivalOrder(o1, SitesToScrape(sel)) && ArrivalOrder(o2, SitesToScrape(sel))
    ensures Scrape(seeded, sel, envs, o1).Some? ==>
      && Scrape(seeded, sel, envs, o2).Some?
      && Scrape(seeded, sel, envs, o1).value.0.rows == Scrape(seeded, sel, envs, o2).value.0.rows
      && ColumnSet(Scrape(seeded, sel, envs, o1).value.0.columns) == ColumnSet(Scrape(seeded, sel, envs, o2).value.0.columns)
      && Scrape(seeded, sel, envs, o1).value.1 == Scrape(seeded, sel, envs, o2).value.1
  {
    var sites := SitesToScrape(sel);
    if sites != [] {
      ConsolidateOrderIrrelevant(seeded, Results(seeded, sites, envs), o1, o2);
    }
  }

  /** The final ledger, cell by cell, in a selected site's columns: a row
      that was not eligible for the site, and every row of a site whose
      worker failed, keeps the seeded cells; the site's record for a row
      is written to the site's columns of that row. */
  lemma ScrapeFinalCell(seeded: Table, sel: Selection, envs: Site -> SiteEnv, order: seq<Site>, s: Site, j: nat, c: string)
    requires WellFormed(seeded) && ArrivalOrder(order, SitesToScrape(sel))
    requires Selected(sel, SiteKey(s)) && j < |seeded.rows| && c in SiteColumns(s)
    ensures Scrape(seeded, sel, envs, order).Some?
    ensures var t' := Scrape(seeded, sel, envs, order).value.0;
            var rs := WorkerSite(s, seeded, envs(s));
            && (c in seeded.columns ==> c in t'.columns)
            && ((!Eligible(seeded.rows[j], s) || rs == []) && c in seeded.columns ==> t'.rows[j][c] == seeded.rows[j][c])
            && (LastFor(rs, j).Some? ==> c in t'.columns && t'.rows[j][c] == RecordValue(LastFor(rs, j).value, s, c))
  {
    var sites := SitesToScrape(sel);
    var res := Results(seeded, sites, envs);
    assert s in sites;
    WorkerSiteIndices(s, seeded, envs(s));
    ConsolidateWrites(seeded, res, order, j, c);
    if !Eligible(seeded.rows[j], s) {
      assert LastFor(res[s], j).None?;
    }
    forall s' | s' in res && c in SiteColumns(s') ensures s' == s {
      if s' != s {
        SiteColumnsDisjoint(s, s', c);
      }
    }
  }

  /** Reading the product list (its `SKU` column is read right away) and
      seeding the ledger; `None` when either raises. */
  function Prepare(input: Option<Table>, prior: Option<Table>, ignoreCache: bool): (t: Option<Table>)
    requires input.Some? ==> WellFormed(input.value)
    requires prior.Some? ==> WellFormed(prior.value)
    ensures t.Some? <==>
      input.Some? && "SKU" in input.value.columns && !SeedFails(input.value, prior, ignoreCache)
    ensures t.Some? ==> WellFormed(t.value) && |t.value.rows| == |input.value.rows|
  {
    if input.None? || "SKU" !in input.value.columns then None
    else Seed(input.value, prior, ignoreCache)
  }

  /** What a run leaves behind: the ledger written after seeding, the
      ledger written after consolidation, and `total_actualizados`. */
  datatype RunOutcome = RunOutcome(seeded: Option<Table>, final: Option<Table>, updated: nat)

  /** One run. `input` is the product list (`None`: the input file is
      missing), `prior` the previous output file (`None`: absent), `envs`
      each site worker's environment and `order` the arrival order of the
      results. A missing SKU column or a failing merge raises inside the
      main `try` and nothing is written; with no site selected only the
      seeded ledger is written. */
  function RunScraper(sel: Selection, input: Option<Table>, prior: Option<Table>, ignoreCache: bool,
                      envs: Site -> SiteEnv, order: seq<Site>): (r: RunOutcome)
    requires input.Some? ==> WellFormed(input.value)
    requires prior.Some? ==> WellFormed(prior.value)
    requires ArrivalOrder(order, SitesToScrape(sel))
    ensures r.final.Some? ==> r.seeded.Some?
    ensures r.seeded.Some? ==> (r.final.None? <==> forall s :: !Selected(sel, SiteKey(s)))
  {
    var seeded := Prepare(input, prior, ignoreCache);
    if seeded.None? then RunOutcome(None, None, 0)
    else
      var rest := Scrape(seeded.value, sel, envs, order);
      if rest.None? then RunOutcome(seeded, None, 0)
      else RunOutcome(seeded, Some(rest.value.0), rest.value.1)
  }

  /** The seeded ledger is written whatever the selection, the workers and
      the arrival order: even when no site is selected. It is written
      exactly when the product list was read, has a SKU column and seeding
      succeeds, and it then has one row per product. */
  lemma RunWritesSeed(sel: Selection, sel': Selection, input: Option<Table>, prior: Option<Table>, ignoreCache: bool,
                      envs: Site -> SiteEnv, envs': Site -> SiteEnv, order: seq<Site>, order': seq<Site>)
    requires input.Some? ==> WellFormed(input.value)
    requires prior.Some? ==> WellFormed(prior.value)
    requires ArrivalOrder(order, SitesToScrape(sel)) && ArrivalOrder(order', SitesToScrape(sel'))
    ensures RunScraper(sel, input, prior, ignoreCache, envs, order).seeded ==
            RunScraper(sel', input, prior, ignoreCache, envs', order').seeded
    ensures RunScraper(sel, input, prior, ignoreCache, envs, order).seeded.Some? <==>
      input.Some? && "SKU" in input.value.columns && !SeedFails(input.value, prior, ignoreCache)
    ensures RunScraper(sel, input, prior, ignoreCache, envs, order).seeded.Some? ==>
      |RunScraper(sel, input, prior, ignoreCache, envs, order).seeded.value.rows| == |input.value.rows|
  {
  }

  /** A SKU that the previous output does not list gets a null price from
      the program's merge, and a null price is never looked up again: every
      row with that SKU keeps its null for every site whose price column the
      previous output has. This holds whatever the previous output
      repeats. */
  lemma UnknownSkuNotLookedUp(input: Table, prior: Table, j: nat, s: Site)
    requires WellFormed(input) && WellFormed(prior)
    requires Merge.NoOldNames(input.columns) && Merge.NoOldNames(prior.columns)
    requires PriceColumn(s) in prior.columns
    requires SeedAsWritten(input, Some(prior), false).Some?
    requires j < |SeedAsWritten(input, Some(prior), false).value.rows|
    requires Merge.Unlisted(prior.rows, Merge.Key(SeedAsWritten(input, Some(prior), false).value.rows[j]))
    ensures PriceColumn(s) in SeedAsWritten(input, Some(prior), false).value.rows[j]
    ensures SeedAsWritten(input, Some(prior), false).value.rows[j][PriceColumn(s)] == Missing
    ensures !Eligible(SeedAsWritten(input, Some(prior), false).value.rows[j], s)
  {
    PriceColumnFilled(s);
    Merge.MergeAsWrittenUnlisted(input, prior, j, PriceColumn(s));
    EligibleCells(SeedAsWritten(input, Some(prior), false).value.rows[j], s);
  }
}
