/** The price ledger: the table of products (one row per SKU) with one group
    of result columns per site. A row is a map from column name to cell; row
    numbers are positions, as with the default pandas index the program's
    tables always carry. */
module Ledger {

  /** A cell as the program sees it after `str(...)`: a text value, or a
      pandas null (NaN), which Python renders as "nan". Cells the readers
      parse as numbers are represented by their `str` text. */
  datatype Cell = Str(text: string) | Missing

  /** `str(cell)` */
  function Render(c: Cell): string {
    match c
    case Str(s) => s
    case Missing => "nan"
  }

  type Row = map<string, Cell>

  /** `row.get(column, default)` */
  function Get(r: Row, column: string, default: Cell): Cell {
    if column in r then r[column] else default
  }

  datatype Table = Table(columns: seq<string>, rows: seq<Row>)

  function ColumnSet(columns: seq<string>): set<string> {
    set c | c in columns
  }

  predicate Distinct<T(==)>(xs: seq<T>) {
    forall i, j :: 0 <= i < j < |xs| ==> xs[i] != xs[j]
  }

  /** A rectangular table with distinct column names, as produced by the
      pandas readers: every row has exactly the table's columns. */
  predicate WellFormed(t: Table) {
    && Distinct(t.columns)
    && forall k :: 0 <= k < |t.rows| ==> t.rows[k].Keys == ColumnSet(t.columns)
  }

  // ----- Sites and their columns -----

  datatype Site = Nini | Carrefour | Vea | Disco

  /** The sites in the fixed order used to build the work list. */
  const AllSites: seq<Site> := [Nini, Carrefour, Vea, Disco]

  function PriceColumn(s: Site): string {
    match s
    case Nini => "Precio NINI"
    case Carrefour => "Precio CARREFOUR"
    case Vea => "Precio VEA"
    case Disco => "Precio DISCO"
  }

  function OfferColumn(s: Site): string {
    match s
    case Nini => "Oferta NINI"
    case Carrefour => "Oferta CARREFOUR"
    case Vea => "Oferta VEA"
    case Disco => "Oferta DISCO"
  }

  /** Whether the site's records carry a `Dinamica` field (VEA and DISCO). */
  predicate HasDynamic(s: Site) { s == Vea || s == Disco }

  function DynamicColumn(s: Site): string
    requires HasDynamic(s)
  {
    if s == Vea then "Dinamica VEA" else "Dinamica DISCO"
  }

  /** The columns consolidation writes for a site. */
  function SiteColumns(s: Site): (cs: seq<string>)
    ensures PriceColumn(s) in cs && OfferColumn(s) in cs
    ensures HasDynamic(s) ==> DynamicColumn(s) in cs
    ensures |cs| == if HasDynamic(s) then 3 else 2
  {
    if HasDynamic(s) then [PriceColumn(s), OfferColumn(s), DynamicColumn(s)]
    else [PriceColumn(s), OfferColumn(s)]
  }

  /** The ten result columns, in the program's order. */
  const ResultColumns: seq<string> :=
    ["Precio NINI", "Oferta NINI", "Precio CARREFOUR", "Oferta CARREFOUR",
     "Precio VEA", "Oferta VEA", "Dinamica VEA",
     "Precio DISCO", "Oferta DISCO", "Dinamica DISCO"]

  /** The result columns whose nulls fresh seeding replaces: all but "Oferta NINI". */
  const FilledColumns: seq<string> :=
    ["Precio NINI", "Precio CARREFOUR", "Oferta CARREFOUR",
     "Precio VEA", "Oferta VEA", "Dinamica VEA",
     "Precio DISCO", "Oferta DISCO", "Dinamica DISCO"]

  /** The result columns are exactly the sites' columns ... */
  lemma SiteColumnsAreResults(s: Site)
    ensures forall c :: c in SiteColumns(s) ==> c in ResultColumns
  {
  }

  lemma ResultColumnsHaveSite(c: string)
    requires c in ResultColumns
    ensures exists s :: c in SiteColumns(s)
  {
    if c in SiteColumns(Nini) {
    } else if c in SiteColumns(Carrefour) {
    } else if c in SiteColumns(Vea) {
    } else {
      assert c in SiteColumns(Disco);
    }
  }

  /** ... and no two sites share a column: this is what lets the workers
      run side by side. */
  lemma SiteColumnsDisjoint(s1: Site, s2: Site, c: string)
    requires s1 != s2 && c in SiteColumns(s1)
    ensures c !in SiteColumns(s2)
  {
  }

  lemma ResultColumnsDistinct()
    ensures Distinct(ResultColumns)
  {
  }

  /** The filled columns are the result columns but "Oferta NINI". */
  lemma FilledColumnsExact(c: string)
    ensures c in FilledColumns <==> c in ResultColumns && c != "Oferta NINI"
  {
  }

  lemma FilledAreResults()
    ensures forall c :: c in FilledColumns ==> c in ResultColumns
  {
  }

  lemma KeyNotResult()
    ensures "SKU" !in ResultColumns
  {
  }

  /** A site's own columns have different names. */
  lemma SiteColumnNamesDiffer(s: Site)
    ensures PriceColumn(s) != OfferColumn(s)
    ensures HasDynamic(s) ==> DynamicColumn(s) != PriceColumn(s) && DynamicColumn(s) != OfferColumn(s)
  {
  }

  lemma PriceColumnFilled(s: Site)
    ensures PriceColumn(s) in FilledColumns && PriceColumn(s) in ResultColumns
  {
  }

  // ----- Cell and column updates -----

  /** `df[column] = fill` for a column the table does not have yet. */
  function AddColumn(t: Table, column: string, fill: Cell): (t': Table)
    requires WellFormed(t) && column !in t.columns
    ensures WellFormed(t') && t'.columns == t.columns + [column]
    ensures |t'.rows| == |t.rows|
    ensures forall k :: 0 <= k < |t.rows| ==> t'.rows[k] == t.rows[k][column := fill]
  {
    Table(t.columns + [column],
          seq(|t.rows|, k requires 0 <= k < |t.rows| => t.rows[k][column := fill]))
  }

  /** `df.at[k, column] = v`. Assigning to a column the table lacks creates
      it, null in every other row (pandas setting-with-enlargement). */
  function SetCell(t: Table, k: nat, column: string, v: Cell): (t': Table)
    requires WellFormed(t) && k < |t.rows|
    ensures WellFormed(t') && |t'.rows| == |t.rows|
    ensures t'.columns == if column in t.columns then t.columns else t.columns + [column]
    ensures t'.rows[k] == t.rows[k][column := v]
    ensures forall j :: 0 <= j < |t.rows| && j != k ==>
      t'.rows[j] == if column in t.columns then t.rows[j] else t.rows[j][column := Missing]
  {
    var base := if column in t.columns then t else AddColumn(t, column, Missing);
    base.(rows := base.rows[k := base.rows[k][column := v]])
  }

  /** `df[col] = df[src]`: the column is created at the end when absent. */
  function AssignColumn(t: Table, col: string, src: string): (t': Table)
    requires WellFormed(t) && src in t.columns
    ensures WellFormed(t') && |t'.rows| == |t.rows|
    ensures t'.columns == if col in t.columns then t.columns else t.columns + [col]
    ensures forall k :: 0 <= k < |t.rows| ==> t'.rows[k] == t.rows[k][col := t.rows[k][src]]
  {
    var cols := if col in t.columns then t.columns else t.columns + [col];
    Table(cols, seq(|t.rows|, k requires 0 <= k < |t.rows| => t.rows[k][col := t.rows[k][src]]))
  }
}
