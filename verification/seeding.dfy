/** Fresh seeding of the ledger (the `else` branch of the cache test in
    `run_scraper`): every result column is created, and nulls in nine of
    them are replaced by "Pendiente". */
module Seeding {
  import opened Ledger

  const Pending: string := "Pendiente"

  /** The names of `cols` that `have` lacks, each once, in order of first
      appearance. */
  function Absent(have: seq<string>, cols: seq<string>): (r: seq<string>)
    ensures forall c :: c in r <==> c in cols && c !in have
    ensures Distinct(r)
    decreases |cols|
  {
    if cols == [] then []
    else if cols[0] in have then Absent(have, cols[1..])
    else
      var rest := Absent(have + [cols[0]], cols[1..]);
      DistinctAppend([cols[0]], rest);
      [cols[0]] + rest
  }

  lemma DistinctAppend(a: seq<string>, b: seq<string>)
    requires Distinct(a) && Distinct(b) && forall c :: c in b ==> c !in a
    ensures Distinct(a + b)
  {
    forall i, j | 0 <= i < j < |a + b| ensures (a + b)[i] != (a + b)[j] {
      if i < |a| && j >= |a| {
        assert (a + b)[i] in a && (a + b)[j] == b[j - |a|];
      }
    }
  }

  /** `if col not in df.columns: df[col] = "Pendiente"`, column by column:
      the missing names are appended in order, filled with "Pendiente". */
  function AddMissingColumns(t: Table, cols: seq<string>): (t': Table)
    requires WellFormed(t)
    ensures WellFormed(t') && |t'.rows| == |t.rows|
    ensures |t.columns| <= |t'.columns|
    ensures forall i :: 0 <= i < |t.columns| ==> t'.columns[i] == t.columns[i]
    ensures forall c :: c in t'.columns <==> c in t.columns || c in cols
    ensures forall k, c :: 0 <= k < |t.rows| && c in t.columns ==> t'.rows[k][c] == t.rows[k][c]
    ensures forall k, c :: 0 <= k < |t.rows| && c in cols && c !in t.columns ==>
      t'.rows[k][c] == Str(Pending)
  {
    var columns := t.columns + Absent(t.columns, cols);
    DistinctAppend(t.columns, Absent(t.columns, cols));
    Table(columns, seq(|t.rows|, k requires 0 <= k < |t.rows| =>
      map c | c in ColumnSet(columns) :: if c in t.rows[k] then t.rows[k][c] else Str(Pending)))
  }

  /** `df[col] = df[col].fillna("Pendiente")` for each column of `cols`. */
  function FillMissing(t: Table, cols: seq<string>): (t': Table)
    requires WellFormed(t)
    requires forall c :: c in cols ==> c in t.columns
    ensures WellFormed(t') && t'.columns == t.columns && |t'.rows| == |t.rows|
    ensures forall k, c :: 0 <= k < |t.rows| && c in t.columns ==>
      t'.rows[k][c] == if c in cols && t.rows[k][c] == Missing then Str(Pending) else t.rows[k][c]
  {
    Table(t.columns, seq(|t.rows|, k requires 0 <= k < |t.rows| =>
      map c | c in t.rows[k] :: if c in cols && t.rows[k][c] == Missing then Str(Pending) else t.rows[k][c]))
  }

  /** Fresh seeding: every result column exists afterwards, appended after
      the input's own columns; the rows keep their order. */
  function FreshSeed(t: Table): (t': Table)
    requires WellFormed(t)
    ensures WellFormed(t') && |t'.rows| == |t.rows|
    ensures |t.columns| <= |t'.columns|
    ensures forall i :: 0 <= i < |t.columns| ==> t'.columns[i] == t.columns[i]
    ensures forall c :: c in t'.columns <==> c in t.columns || c in ResultColumns
  {
    FilledAreResults();
    FillMissing(AddMissingColumns(t, ResultColumns), FilledColumns)
  }

  /** What fresh seeding puts in one cell: an existing non-null cell is never
      overwritten; a column the input lacked is "Pendiente"; nulls become
      "Pendiente" in every result column except "Oferta NINI", which keeps
      them; columns other than the nine filled ones are untouched. */
  lemma FreshSeedCell(t: Table, k: nat, c: string)
    requires WellFormed(t) && k < |t.rows| && c in FreshSeed(t).columns
    ensures c in t.columns && t.rows[k][c] != Missing ==> FreshSeed(t).rows[k][c] == t.rows[k][c]
    ensures c in t.columns && c !in FilledColumns ==> FreshSeed(t).rows[k][c] == t.rows[k][c]
    ensures c !in t.columns ==> c in ResultColumns && FreshSeed(t).rows[k][c] == Str(Pending)
    ensures c in FilledColumns ==> FreshSeed(t).rows[k][c] != Missing
    ensures c in t.columns && c in FilledColumns && t.rows[k][c] == Missing ==> FreshSeed(t).rows[k][c] == Str(Pending)
  {
    FilledAreResults();
    var t1 := AddMissingColumns(t, ResultColumns);
    assert c in t1.columns;
  }

  /** After fresh seeding no price cell is null: a row's price cell for a
      site is the input's value when that was non-null, and "Pendiente"
      otherwise. */
  lemma FreshPricesNeverNull(t: Table, s: Site, k: nat)
    requires WellFormed(t) && k < |t.rows|
    ensures PriceColumn(s) in FreshSeed(t).rows[k]
    ensures FreshSeed(t).rows[k][PriceColumn(s)] ==
      if PriceColumn(s) in t.columns && t.rows[k][PriceColumn(s)] != Missing
      then t.rows[k][PriceColumn(s)] else Str(Pending)
  {
    PriceColumnFilled(s);
    FreshSeedCell(t, k, PriceColumn(s));
  }
}
