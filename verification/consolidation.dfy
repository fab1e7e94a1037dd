/** Consolidation (the end of `run_scraper`): after every worker has
    joined, each site's records are written into that site's own columns
    at the record's row, site after site in the order the results arrived. */
module Consolidation {
  import opened Wrappers
  import opened Ledger
  import opened Worker

  /** The value a record writes into column c of its site:
      `result['Precio']`, `result['Oferta']`, `result.get('Dinamica', '')`. */
  function RecordValue(r: Record, s: Site, c: string): Cell
    requires c in SiteColumns(s)
  {
    if c == PriceColumn(s) then Str(r.precio)
    else if c == OfferColumn(s) then Str(r.oferta)
    else Str(r.dinamica.GetOr(""))
  }

  /** The cell of row j, column c, once `written` is stored there (if
      anything is): columns new to the table are null in other rows. */
  function Overlay(t: Table, j: nat, c: string, written: Option<Cell>): Cell
    requires j < |t.rows| && WellFormed(t)
  {
    if written.Some? then written.value
    else if c in t.columns then t.rows[j][c]
    else Missing
  }

  /** The column names of a list of writes. */
  function Names(ws: seq<(string, Cell)>): (ns: seq<string>)
    ensures |ns| == |ws| && forall i :: 0 <= i < |ws| ==> ns[i] == ws[i].0
  {
    seq(|ws|, i requires 0 <= i < |ws| => ws[i].0)
  }

  /** The value last written to column c, if any. */
  function LastWrite(ws: seq<(string, Cell)>, c: string): (o: Option<Cell>)
    ensures o.Some? <==> c in Names(ws)
    ensures o.Some? ==> exists i :: 0 <= i < |ws| && ws[i] == (c, o.value)
  {
    if ws == [] then None
    else if ws[|ws| - 1].0 == c then Some(ws[|ws| - 1].1)
    else
      var o := LastWrite(ws[..|ws| - 1], c);
      assert Names(ws) == Names(ws[..|ws| - 1]) + [ws[|ws| - 1].0];
      o
  }

  /** One `df.at[k, col] = v`, cell by cell. */
  lemma SetCellAt(t: Table, k: nat, col: string, v: Cell, j: nat, c: string)
    requires WellFormed(t) && k < |t.rows| && j < |t.rows|
    ensures c in SetCell(t, k, col, v).columns ==>
      SetCell(t, k, col, v).rows[j][c] == Overlay(t, j, c, if j == k && c == col then Some(v) else None)
  {
  }

  /** `df.at[k, c] = v` for each write (c, v) in turn. */
  function SetCells(t: Table, k: nat, ws: seq<(string, Cell)>): (t': Table)
    requires WellFormed(t) && k < |t.rows|
    ensures WellFormed(t') && |t'.rows| == |t.rows|
    decreases |ws|
  {
    if ws == [] then t
    else SetCell(SetCells(t, k, ws[..|ws| - 1]), k, ws[|ws| - 1].0, ws[|ws| - 1].1)
  }

  /** After the writes, a column exists iff it existed or was written; row
      k holds the last value written to each column, other rows are as they
      were (null in the new columns). */
  lemma {:induction false} SetCellsColumns(t: Table, k: nat, ws: seq<(string, Cell)>, c: string)
    requires WellFormed(t) && k < |t.rows|
    ensures c in SetCells(t, k, ws).columns <==> c in t.columns || c in Names(ws)
    decreases |ws|
  {
    if ws != [] {
      assert Names(ws) == Names(ws[..|ws| - 1]) + [ws[|ws| - 1].0];
      SetCellsColumns(t, k, ws[..|ws| - 1], c);
    }
  }

  lemma {:induction false} SetCellsCell(t: Table, k: nat, ws: seq<(string, Cell)>, j: nat, c: string)
    requires WellFormed(t) && k < |t.rows| && j < |t.rows|
    ensures c in SetCells(t, k, ws).columns ==>
      SetCells(t, k, ws).rows[j][c] == Overlay(t, j, c, if j == k then LastWrite(ws, c) else None)
    decreases |ws|
  {
    if ws != [] {
      var init := ws[..|ws| - 1];
      SetCellsColumns(t, k, init, c);
      SetCellsCell(t, k, init, j, c);
      SetCellAt(SetCells(t, k, init), k, ws[|ws| - 1].0, ws[|ws| - 1].1, j, c);
    }
  }

  /** What a record of site s writes, column by column. */
  function Writes(s: Site, r: Record): (ws: seq<(string, Cell)>)
    ensures Names(ws) == SiteColumns(s)
    ensures forall i :: 0 <= i < |ws| ==> ws[i].1 == RecordValue(r, s, ws[i].0)
  {
    var cs := SiteColumns(s);
    seq(|cs|, i requires 0 <= i < |cs| => (cs[i], RecordValue(r, s, cs[i])))
  }

  /** One record written with `df.at[idx, col] = value` into the site's
      price and offer columns, and for VEA and DISCO its dynamic column. */
  function ApplyRecord(t: Table, s: Site, r: Record): (t': Table)
    requires WellFormed(t) && r.idx < |t.rows|
    ensures WellFormed(t') && |t'.rows| == |t.rows|
  {
    SetCells(t, r.idx, Writes(s, r))
  }

  /** A record changes exactly its own row's cells in its site's columns
      (creating those columns if needed, null elsewhere). */
  lemma ApplyRecordColumns(t: Table, s: Site, r: Record, c: string)
    requires WellFormed(t) && r.idx < |t.rows|
    ensures c in ApplyRecord(t, s, r).columns <==> c in t.columns || c in SiteColumns(s)
  {
    SetCellsColumns(t, r.idx, Writes(s, r), c);
  }

  lemma ApplyRecordCell(t: Table, s: Site, r: Record, j: nat, c: string)
    requires WellFormed(t) && r.idx < |t.rows| && j < |t.rows|
    ensures c in ApplyRecord(t, s, r).columns ==>
      ApplyRecord(t, s, r).rows[j][c] ==
      Overlay(t, j, c, if j == r.idx && c in SiteColumns(s) then Some(RecordValue(r, s, c)) else None)
  {
    var ws := Writes(s, r);
    SetCellsColumns(t, r.idx, ws, c);
    SetCellsCell(t, r.idx, ws, j, c);
    if c in SiteColumns(s) {
      var i :| 0 <= i < |ws| && ws[i] == (c, LastWrite(ws, c).value);
    }
  }

  /** Every record refers to a row of the ledger. */
  predicate RowsExist(t: Table, rs: seq<Record>) {
    forall j :: 0 <= j < |rs| ==> rs[j].idx < |t.rows|
  }

  /** The last record for row k, if any. */
  function LastFor(rs: seq<Record>, k: nat): (o: Option<Record>)
    ensures o.Some? ==> o.value in rs && o.value.idx == k
    ensures o.None? <==> forall j :: 0 <= j < |rs| ==> rs[j].idx != k
  {
    if rs == [] then None
    else if rs[|rs| - 1].idx == k then Some(rs[|rs| - 1])
    else LastFor(rs[..|rs| - 1], k)
  }

  /** One site's records written in order. */
  function ApplySite(t: Table, s: Site, rs: seq<Record>): (t': Table)
    requires WellFormed(t) && RowsExist(t, rs)
    ensures WellFormed(t') && |t'.rows| == |t.rows|
  {
    if rs == [] then t
    else ApplyRecord(ApplySite(t, s, rs[..|rs| - 1]), s, rs[|rs| - 1])
  }

  /** What the site's records leave in a cell: the last record for the row
      decides the site's columns; every other cell keeps its value. */
  function SiteCell(t: Table, s: Site, rs: seq<Record>, j: nat, c: string): Cell
    requires WellFormed(t) && j < |t.rows|
  {
    var last := LastFor(rs, j);
    Overlay(t, j, c, if last.Some? && c in SiteColumns(s) then Some(RecordValue(last.value, s, c)) else None)
  }

  lemma {:induction false} ApplySiteColumns(t: Table, s: Site, rs: seq<Record>, c: string)
    requires WellFormed(t) && RowsExist(t, rs)
    ensures c in ApplySite(t, s, rs).columns <==> c in t.columns || (rs != [] && c in SiteColumns(s))
    decreases |rs|
  {
    if rs != [] {
      var init := rs[..|rs| - 1];
      assert RowsExist(t, init);
      ApplySiteColumns(t, s, init, c);
      ApplyRecordColumns(ApplySite(t, s, init), s, rs[|rs| - 1], c);
    }
  }

  lemma {:induction false} ApplySiteCell(t: Table, s: Site, rs: seq<Record>, j: nat, c: string)
    requires WellFormed(t) && RowsExist(t, rs) && j < |t.rows|
    ensures c in ApplySite(t, s, rs).columns ==> ApplySite(t, s, rs).rows[j][c] == SiteCell(t, s, rs, j, c)
    decreases |rs|
  {
    if rs != [] {
      var init := rs[..|rs| - 1];
      assert RowsExist(t, init);
      ApplySiteColumns(t, s, init, c);
      ApplySiteCell(t, s, init, j, c);
      ApplyRecordColumns(ApplySite(t, s, init), s, rs[|rs| - 1], c);
      ApplyRecordCell(ApplySite(t, s, init), s, rs[|rs| - 1], j, c);
      SiteCellStep(t, s, rs, j, c);
    }
  }

  /** The last record of the site either decides the cell or leaves it to
      the records before it. */
  lemma SiteCellStep(t: Table, s: Site, rs: seq<Record>, j: nat, c: string)
    requires WellFormed(t) && j < |t.rows| && rs != []
    ensures SiteCell(t, s, rs, j, c) ==
      if rs[|rs| - 1].idx == j && c in SiteColumns(s) then RecordValue(rs[|rs| - 1], s, c)
      else SiteCell(t, s, rs[..|rs| - 1], j, c)
  {
  }

  // ----- All sites -----

  /** `results_dict`: each joined worker's records under its site. */
  type Results = map<Site, seq<Record>>

  /** Every record of every site refers to a row of the ledger. */
  predicate ResultsFit(t: Table, res: Results) {
    forall s :: s in res ==> RowsExist(t, res[s])
  }

  predicate Listed(res: Results, order: seq<Site>) {
    forall i :: 0 <= i < |order| ==> order[i] in res
  }

  /** The consolidation loop over `results_dict.items()`, whose order is the
      order in which the workers stored their results. */
  function Consolidate(t: Table, res: Results, order: seq<Site>): (t': Table)
    requires WellFormed(t) && ResultsFit(t, res) && Listed(res, order)
    ensures WellFormed(t') && |t'.rows| == |t.rows|
    decreases |order|
  {
    if order == [] then t
    else
      var init := order[..|order| - 1];
      var s := order[|order| - 1];
      ApplySite(Consolidate(t, res, init), s, res[s])
  }

  /** The site whose column c is, if any. */
  function Owner(c: string): (o: Option<Site>)
    ensures o.Some? ==> c in SiteColumns(o.value)
    ensures forall s :: c in SiteColumns(s) ==> o == Some(s)
  {
    if c in SiteColumns(Nini) then
      SiteColumnsDisjoint(Nini, Carrefour, c); SiteColumnsDisjoint(Nini, Vea, c); SiteColumnsDisjoint(Nini, Disco, c);
      Some(Nini)
    else if c in SiteColumns(Carrefour) then
      SiteColumnsDisjoint(Carrefour, Vea, c); SiteColumnsDisjoint(Carrefour, Disco, c);
      Some(Carrefour)
    else if c in SiteColumns(Vea) then
      SiteColumnsDisjoint(Vea, Disco, c);
      Some(Vea)
    else if c in SiteColumns(Disco) then Some(Disco)
    else None
  }

  /** Whether column c exists once the sites of `done` are written. */
  predicate FinalHas(t: Table, res: Results, done: seq<Site>, c: string) {
    || c in t.columns
    || (Owner(c).Some? && Owner(c).value in done && Owner(c).value in res && res[Owner(c).value] != [])
  }

  /** The cell at row j, column c, once the sites of `done` are written:
      only the owning site's records can change it. */
  function FinalCell(t: Table, res: Results, done: seq<Site>, j: nat, c: string): Cell
    requires WellFormed(t) && j < |t.rows|
  {
    var o := Owner(c);
    if o.Some? && o.value in done && o.value in res then SiteCell(t, o.value, res[o.value], j, c)
    else Overlay(t, j, c, None)
  }

  /** Adding the owner of column c to the written sites: before, the cell
      was untouched; after, it is the owner's doing. */
  lemma FinalCellOwn(t: Table, res: Results, init: seq<Site>, x: Site, j: nat, c: string)
    requires WellFormed(t) && j < |t.rows| && x !in init && x in res && c in SiteColumns(x)
    ensures FinalHas(t, res, init, c) <==> c in t.columns
    ensures FinalCell(t, res, init, j, c) == Overlay(t, j, c, None)
    ensures FinalCell(t, res, init + [x], j, c) == SiteCell(t, x, res[x], j, c)
  {
  }

  /** Adding a site that does not own column c changes nothing there. */
  lemma FinalCellOther(t: Table, res: Results, init: seq<Site>, x: Site, j: nat, c: string)
    requires WellFormed(t) && j < |t.rows| && c !in SiteColumns(x)
    ensures FinalHas(t, res, init + [x], c) <==> FinalHas(t, res, init, c)
    ensures FinalCell(t, res, init + [x], j, c) == FinalCell(t, res, init, j, c)
  {
  }

  lemma {:induction false} ConsolidateColumns(t: Table, res: Results, order: seq<Site>, c: string)
    requires WellFormed(t) && ResultsFit(t, res) && Listed(res, order) && Distinct(order)
    ensures c in Consolidate(t, res, order).columns <==> FinalHas(t, res, order, c)
    decreases |order|
  {
    if order != [] {
      var init := order[..|order| - 1];
      var x := order[|order| - 1];
      assert order == init + [x];
      assert x !in init;
      ConsolidateColumns(t, res, init, c);
      ApplySiteColumns(Consolidate(t, res, init), x, res[x], c);
    }
  }

  lemma {:induction false} ConsolidateCell(t: Table, res: Results, order: seq<Site>, j: nat, c: string)
    requires WellFormed(t) && ResultsFit(t, res) && Listed(res, order) && Distinct(order) && j < |t.rows|
    ensures c in Consolidate(t, res, order).columns ==>
      Consolidate(t, res, order).rows[j][c] == FinalCell(t, res, order, j, c)
    decreases |order|
  {
    if order != [] {
      var init := order[..|order| - 1];
      var x := order[|order| - 1];
      assert order == init + [x];
      assert x !in init;
      ConsolidateColumns(t, res, init, c);
      ConsolidateCell(t, res, init, j, c);
      ApplySiteColumns(Consolidate(t, res, init), x, res[x], c);
      ApplySiteCell(Consolidate(t, res, init), x, res[x], j, c);
      if c in SiteColumns(x) {
        FinalCellOwn(t, res, init, x, j, c);
      } else {
        FinalCellOther(t, res, init, x, j, c);
      }
    }
  }

  /** The final ledger does not depend on the order in which the workers
      finished: the same columns (possibly in another order) and the same
      rows. Sites write disjoint columns, so their writes commute. */
  lemma ConsolidateOrderIrrelevant(t: Table, res: Results, o1: seq<Site>, o2: seq<Site>)
    requires WellFormed(t) && ResultsFit(t, res)
    requires Listed(res, o1) && Distinct(o1) && Listed(res, o2) && Distinct(o2)
    requires forall s :: s in o1 <==> s in o2
    ensures ColumnSet(Consolidate(t, res, o1).columns) == ColumnSet(Consolidate(t, res, o2).columns)
    ensures Consolidate(t, res, o1).rows == Consolidate(t, res, o2).rows
  {
    var t1 := Consolidate(t, res, o1);
    var t2 := Consolidate(t, res, o2);
    forall c ensures c in t1.columns <==> c in t2.columns {
      ConsolidateColumns(t, res, o1, c);
      ConsolidateColumns(t, res, o2, c);
    }
    assert ColumnSet(t1.columns) == ColumnSet(t2.columns);
    forall j | 0 <= j < |t1.rows| ensures t1.rows[j] == t2.rows[j] {
      forall c | c in t1.rows[j] ensures t1.rows[j][c] == t2.rows[j][c] {
        ConsolidateCell(t, res, o1, j, c);
        ConsolidateCell(t, res, o2, j, c);
      }
    }
  }

  /** Consolidation in the ledger's terms, for a result order that lists
      every site of `results_dict` once: a site's columns at row j take the
      values of the site's last record for row j; every other cell keeps its
      value (a failed site, with no records, changes nothing); a column the
      ledger lacked is created by the first record written to it and is null
      in rows without a record. */
  lemma ConsolidateWrites(t: Table, res: Results, order: seq<Site>, j: nat, c: string)
    requires WellFormed(t) && ResultsFit(t, res) && Distinct(order) && j < |t.rows|
    requires forall s :: s in order <==> s in res
    ensures c in Consolidate(t, res, order).columns <==>
      c in t.columns || exists s :: s in res && res[s] != [] && c in SiteColumns(s)
    ensures forall s :: s in res && c in SiteColumns(s) && LastFor(res[s], j).Some? ==>
      c in Consolidate(t, res, order).columns &&
      Consolidate(t, res, order).rows[j][c] == RecordValue(LastFor(res[s], j).value, s, c)
    ensures (forall s :: s in res && c in SiteColumns(s) ==> LastFor(res[s], j).None?) ==>
      c in Consolidate(t, res, order).columns ==>
      Consolidate(t, res, order).rows[j][c] == if c in t.columns then t.rows[j][c] else Missing
  {
    ConsolidateColumns(t, res, order, c);
    ConsolidateCell(t, res, order, j, c);
    var o := Owner(c);
    if o.Some? && o.value in res && res[o.value] != [] {
      assert c in SiteColumns(o.value);
    }
  }

  // ----- The loop and its counter -----

  /** The records of the sites in `order`, counted. */
  function Count(res: Results, order: seq<Site>): nat
    requires Listed(res, order)
    decreases |order|
  {
    if order == [] then 0 else Count(res, order[..|order| - 1]) + |res[order[|order| - 1]]|
  }

  /** A site's share of the total: its record count once it is in `done`. */
  function Share(res: Results, done: seq<Site>, s: Site): nat {
    if s in done && s in res then |res[s]| else 0
  }

  /** The records of all sites in `done`, counted site by site in the fixed
      site order. */
  function SiteTotal(res: Results, done: seq<Site>): nat {
    Share(res, done, Nini) + Share(res, done, Carrefour) + Share(res, done, Vea) + Share(res, done, Disco)
  }

  /** The number of records in `results_dict`. */
  function TotalRecords(res: Results): nat {
    (if Nini in res then |res[Nini]| else 0) + (if Carrefour in res then |res[Carrefour]| else 0)
    + (if Vea in res then |res[Vea]| else 0) + (if Disco in res then |res[Disco]| else 0)
  }

  /** Counting in any order that lists each site once gives the same sum. */
  lemma {:induction false} CountIsSiteTotal(res: Results, order: seq<Site>)
    requires Listed(res, order) && Distinct(order)
    ensures Count(res, order) == SiteTotal(res, order)
    decreases |order|
  {
    if order != [] {
      var init := order[..|order| - 1];
      var x := order[|order| - 1];
      assert order == init + [x];
      assert x !in init;
      CountIsSiteTotal(res, init);
      assert forall s :: Share(res, order, s) == Share(res, init, s) + (if s == x then |res[x]| else 0);
    }
  }

  /** `total_actualizados` counts every record of `results_dict` once. */
  lemma CountIsTotal(res: Results, order: seq<Site>)
    requires Distinct(order) && forall s :: s in order <==> s in res
    ensures Listed(res, order) && Count(res, order) == TotalRecords(res)
  {
    CountIsSiteTotal(res, order);
  }

  lemma ApplySiteStep(t: Table, s: Site, rs: seq<Record>, j: nat)
    requires WellFormed(t) && RowsExist(t, rs) && j < |rs|
    ensures RowsExist(t, rs[..j]) && RowsExist(t, rs[..j + 1])
    ensures ApplySite(t, s, rs[..j + 1]) == ApplyRecord(ApplySite(t, s, rs[..j]), s, rs[j])
  {
    assert rs[..j + 1][..j] == rs[..j];
  }

  lemma ConsolidateStep(t: Table, res: Results, order: seq<Site>, i: nat)
    requires WellFormed(t) && ResultsFit(t, res) && Listed(res, order) && i < |order|
    ensures Listed(res, order[..i]) && Listed(res, order[..i + 1])
    ensures Consolidate(t, res, order[..i + 1]) == ApplySite(Consolidate(t, res, order[..i]), order[i], res[order[i]])
    ensures Count(res, order[..i + 1]) == Count(res, order[..i]) + |res[order[i]]|
  {
    assert order[..i + 1][..i] == order[..i];
  }

  /** One site's records written in turn, counting each. */
  method WriteSite(t: Table, s: Site, rs: seq<Record>) returns (t': Table, written: nat)
    requires WellFormed(t) && RowsExist(t, rs)
    ensures t' == ApplySite(t, s, rs)
    ensures written == |rs|
  {
    t', written := t, 0;
    for j := 0 to |rs|
      invariant WellFormed(t') && |t'.rows| == |t.rows|
      invariant RowsExist(t, rs[..j])
      invariant t' == ApplySite(t, s, rs[..j])
      invariant written == j
    {
      ApplySiteStep(t, s, rs, j);
      t' := ApplyRecord(t', s, rs[j]);
      written := written + 1;
    }
    assert rs[..|rs|] == rs;
  }

  /** The consolidation loop: every record written in turn, `total_actualizados`
      incremented once per record. */
  method ConsolidateAll(t: Table, res: Results, order: seq<Site>) returns (t': Table, total: nat)
    requires WellFormed(t) && ResultsFit(t, res) && Distinct(order)
    requires forall s :: s in order <==> s in res
    ensures t' == Consolidate(t, res, order)
    ensures total == TotalRecords(res)
  {
    assert Listed(res, order);
    t', total := t, 0;
    for i := 0 to |order|
      invariant Listed(res, order[..i])
      invariant t' == Consolidate(t, res, order[..i])
      invariant total == Count(res, order[..i])
    {
      ConsolidateStep(t, res, order, i);
      var written;
      t', written := WriteSite(t', order[i], res[order[i]]);
      total := total + written;
    }
    assert order[..|order|] == order;
    CountIsTotal(res, order);
  }
}
