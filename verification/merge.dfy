/** Seeding from a previous output file: `df.merge(df_old, on="SKU",
    how="left", suffixes=("", "_old"))`, then each result column the prior
    file had is copied back from its "_old" twin, then every column whose
    name contains "_old" is dropped. */
module Merge {
  import opened Wrappers
  import opened Text
  import opened Ledger

  /** The merge key of a row: its SKU cell. pandas matches nulls with nulls,
      and so does equality of cells. */
  function Key(r: Row): Cell {
    Get(r, "SKU", Missing)
  }

  /** `df.filter(regex="_old")` selects every column whose name contains
      "_old" anywhere, not only as a suffix. */
  predicate HasOld(c: string) {
    Contains(c, "_old")
  }

  predicate NoOldNames(cols: seq<string>) {
    forall c :: c in cols ==> !HasOld(c)
  }

  lemma OldNameHasUnderscore(c: string)
    requires HasOld(c)
    ensures '_' in c
  {
    var i :| 0 <= i <= |c| - 4 && OccursAt(c, "_old", i);
    assert c[i] == c[i..i + 4][0];
  }

  lemma NoUnderscoreNoOld(cols: seq<string>)
    requires forall c :: c in cols ==> '_' !in c
    ensures NoOldNames(cols)
  {
    forall c | c in cols ensures !HasOld(c) {
      if HasOld(c) {
        OldNameHasUnderscore(c);
      }
    }
  }

  lemma SiteColumnsNoOld(s: Site)
    ensures NoOldNames(SiteColumns(s))
  {
    NoUnderscoreNoOld(SiteColumns(s));
  }

  lemma ResultColumnsNoOld()
    ensures NoOldNames(ResultColumns)
  {
    forall c | c in ResultColumns ensures !HasOld(c) {
      ResultColumnsHaveSite(c);
      var s :| c in SiteColumns(s);
      SiteColumnsNoOld(s);
    }
  }

  /** The prior rows whose key is `key`, in file order. */
  function Matches(rows: seq<Row>, key: Cell): (ms: seq<Row>)
    ensures |ms| <= |rows|
    ensures forall m :: m in ms ==> m in rows && Key(m) == key
    ensures ms == [] <==> forall r :: r in rows ==> Key(r) != key
  {
    if rows == [] then []
    else (if Key(rows[0]) == key then [rows[0]] else []) + Matches(rows[1..], key)
  }

  /** The first prior row with key `key`. */
  function FirstMatch(rows: seq<Row>, key: Cell): (m: Option<Row>)
    ensures m.Some? ==> m.value in rows && Key(m.value) == key
    ensures m.None? <==> forall r :: r in rows ==> Key(r) != key
  {
    var ms := Matches(rows, key);
    if ms == [] then None else Some(ms[0])
  }

  /** The prior file's columns other than the merge key. */
  function NonKey(cols: seq<string>): (r: seq<string>)
    ensures forall c :: c in r <==> c in cols && c != "SKU"
    ensures Distinct(cols) ==> Distinct(r)
  {
    if cols == [] then []
    else
      var rest := NonKey(cols[1..]);
      assert Distinct(cols) ==> cols[0] !in rest;
      if cols[0] == "SKU" then rest else [cols[0]] + rest
  }

  /** The name a prior column gets in the merged table: suffixed with "_old"
      when the new list has a column of the same name. */
  function RightName(left: seq<string>, c: string): string {
    if c in left then c + "_old" else c
  }

  function RightColumns(left: seq<string>, right: seq<string>): (r: seq<string>)
    ensures |r| == |NonKey(right)|
    ensures forall i :: 0 <= i < |r| ==> r[i] == RightName(left, NonKey(right)[i])
  {
    var nk := NonKey(right);
    seq(|nk|, i requires 0 <= i < |nk| => RightName(left, nk[i]))
  }

  /** The merged table's columns: the new list's, then the prior file's. */
  function MergedColumns(L: Table, R: Table): seq<string> {
    L.columns + RightColumns(L.columns, R.columns)
  }

  predicate RightNamesInjective(L: Table, R: Table) {
    forall c1, c2 :: c1 in NonKey(R.columns) && c2 in NonKey(R.columns) && c1 != c2 ==>
      RightName(L.columns, c1) != RightName(L.columns, c2)
  }

  lemma RightColumnsMembers(L: Table, R: Table)
    ensures forall c :: c in NonKey(R.columns) ==> RightName(L.columns, c) in RightColumns(L.columns, R.columns)
    ensures forall d :: d in RightColumns(L.columns, R.columns) ==>
      exists c :: c in NonKey(R.columns) && RightName(L.columns, c) == d
  {
    var nk := NonKey(R.columns);
    var rc := RightColumns(L.columns, R.columns);
    forall c | c in nk ensures RightName(L.columns, c) in rc {
      var i :| 0 <= i < |nk| && nk[i] == c;
      assert rc[i] == RightName(L.columns, c);
    }
    forall d | d in rc ensures exists c :: c in nk && RightName(L.columns, c) == d {
      var i :| 0 <= i < |rc| && rc[i] == d;
      assert nk[i] in nk;
    }
  }

  lemma RightNameAt(L: Table, R: Table, i: nat)
    requires i < |NonKey(R.columns)|
    ensures |L.columns| + i < |MergedColumns(L, R)|
    ensures MergedColumns(L, R)[|L.columns| + i] == RightName(L.columns, NonKey(R.columns)[i])
  {
  }

  lemma DistinctRightNames(L: Table, R: Table, c1: string, c2: string)
    requires Distinct(MergedColumns(L, R))
    requires c1 in NonKey(R.columns) && c2 in NonKey(R.columns) && c1 != c2
    ensures RightName(L.columns, c1) != RightName(L.columns, c2)
  {
    var nk := NonKey(R.columns);
    var i1 :| 0 <= i1 < |nk| && nk[i1] == c1;
    var i2 :| 0 <= i2 < |nk| && nk[i2] == c2;
    RightNameAt(L, R, i1);
    RightNameAt(L, R, i2);
  }

  lemma RightNameNotLeft(L: Table, R: Table, c: string)
    requires Distinct(MergedColumns(L, R)) && c in NonKey(R.columns)
    ensures RightName(L.columns, c) !in L.columns
  {
    var nk := NonKey(R.columns);
    var i :| 0 <= i < |nk| && nk[i] == c;
    RightNameAt(L, R, i);
    var mc := MergedColumns(L, R);
    forall j | 0 <= j < |L.columns| ensures L.columns[j] != RightName(L.columns, c) {
      assert mc[j] == L.columns[j];
    }
  }

  /** When the merged columns are distinct (pandas refuses the merge
      otherwise), the renaming is injective and never hits a new-list column. */
  lemma DistinctMergedColumns(L: Table, R: Table)
    requires Distinct(MergedColumns(L, R))
    ensures RightNamesInjective(L, R)
    ensures forall c :: c in NonKey(R.columns) ==> RightName(L.columns, c) !in L.columns
  {
    forall c1, c2 | c1 in NonKey(R.columns) && c2 in NonKey(R.columns) && c1 != c2
      ensures RightName(L.columns, c1) != RightName(L.columns, c2)
    {
      DistinctRightNames(L, R, c1, c2);
    }
    forall c | c in NonKey(R.columns) ensures RightName(L.columns, c) !in L.columns {
      RightNameNotLeft(L, R, c);
    }
  }

  lemma AppendCancel(a: string, b: string, s: string)
    requires a + s == b + s
    ensures a == b
  {
    assert a == (a + s)[..|a|];
    assert b == (b + s)[..|b|];
  }

  /** With no "_old" in any column name, the merged columns are distinct. */
  lemma NoOldMergedDistinct(L: Table, R: Table)
    requires Distinct(L.columns) && Distinct(R.columns)
    requires NoOldNames(L.columns) && NoOldNames(R.columns)
    ensures Distinct(MergedColumns(L, R))
  {
    var nk := NonKey(R.columns);
    var rc := RightColumns(L.columns, R.columns);
    var mc := MergedColumns(L, R);
    forall c | c in nk ensures RightName(L.columns, c) !in L.columns {
      if c in L.columns {
        ContainsAppended(c, "_old");
      }
    }
    forall i, j | 0 <= i < j < |mc| ensures mc[i] != mc[j] {
      if j < |L.columns| {
      } else if i < |L.columns| {
        assert mc[i] == L.columns[i] && L.columns[i] in L.columns;
        assert mc[j] == rc[j - |L.columns|];
        assert nk[j - |L.columns|] in nk;
      } else {
        var a, b := nk[i - |L.columns|], nk[j - |L.columns|];
        assert mc[i] == RightName(L.columns, a) && mc[j] == RightName(L.columns, b);
        assert a != b;
        if a in L.columns && b in L.columns {
          if a + "_old" == b + "_old" { AppendCancel(a, b, "_old"); }
        } else if a in L.columns {
          assert b in nk && b in R.columns;
          ContainsAppended(a, "_old");
        } else if b in L.columns {
          assert a in nk && a in R.columns;
          ContainsAppended(b, "_old");
        }
      }
    }
  }

  /** One merged row: the new row, plus each prior column under its merged
      name, holding the matched prior row's value or null when the SKU has
      no prior row. */
  function JoinRow(L: Table, R: Table, l: Row, m: Option<Row>): Row
    requires RightNamesInjective(L, R)
    requires m.Some? ==> m.value.Keys == ColumnSet(R.columns)
  {
    l + map c | c in NonKey(R.columns) :: RightName(L.columns, c) := (if m.Some? then m.value[c] else Missing)
  }

  lemma JoinRowKeys(L: Table, R: Table, l: Row, m: Option<Row>)
    requires Distinct(R.columns) && Distinct(MergedColumns(L, R))
    requires l.Keys == ColumnSet(L.columns)
    requires m.Some? ==> m.value.Keys == ColumnSet(R.columns)
    ensures RightNamesInjective(L, R)
    ensures JoinRow(L, R, l, m).Keys == ColumnSet(MergedColumns(L, R))
  {
    DistinctMergedColumns(L, R);
    RightColumnsMembers(L, R);
    var j := JoinRow(L, R, l, m);
    var mc := MergedColumns(L, R);
    forall d | d in j.Keys ensures d in mc {
      if d !in l.Keys {
        var c :| c in NonKey(R.columns) && RightName(L.columns, c) == d;
        assert d in RightColumns(L.columns, R.columns);
      }
    }
    forall d | d in mc ensures d in j.Keys {
      if d !in L.columns {
        assert d in RightColumns(L.columns, R.columns);
      }
    }
  }

  lemma JoinRowLeft(L: Table, R: Table, l: Row, m: Option<Row>, c: string)
    requires Distinct(R.columns) && Distinct(MergedColumns(L, R))
    requires l.Keys == ColumnSet(L.columns) && c in L.columns
    requires m.Some? ==> m.value.Keys == ColumnSet(R.columns)
    ensures RightNamesInjective(L, R)
    ensures JoinRow(L, R, l, m)[c] == l[c]
  {
    DistinctMergedColumns(L, R);
    var right := map c | c in NonKey(R.columns) :: RightName(L.columns, c) := (if m.Some? then m.value[c] else Missing);
    assert c !in right;
  }

  lemma JoinRowRight(L: Table, R: Table, l: Row, m: Option<Row>, c: string)
    requires Distinct(R.columns) && Distinct(MergedColumns(L, R))
    requires l.Keys == ColumnSet(L.columns) && c in NonKey(R.columns)
    requires m.Some? ==> m.value.Keys == ColumnSet(R.columns)
    ensures RightNamesInjective(L, R)
    ensures JoinRow(L, R, l, m)[RightName(L.columns, c)] == if m.Some? then m.value[c] else Missing
  {
    DistinctMergedColumns(L, R);
  }

  lemma RowsKeys(t: Table)
    requires WellFormed(t)
    ensures forall r :: r in t.rows ==> r.Keys == ColumnSet(t.columns)
  {
  }

  /** Every row joined with one of the prior rows `ms` has the merged
      columns. */
  lemma MatchRowsKeys(L: Table, R: Table, l: Row, ms: seq<Row>)
    requires WellFormed(R) && Distinct(MergedColumns(L, R))
    requires l.Keys == ColumnSet(L.columns)
    requires forall m :: m in ms ==> m in R.rows
    ensures RightNamesInjective(L, R)
    ensures forall j :: 0 <= j < |ms| ==> ms[j].Keys == ColumnSet(R.columns)
    ensures forall j :: 0 <= j < |ms| ==>
      JoinRow(L, R, l, Some(ms[j])).Keys == ColumnSet(MergedColumns(L, R))
  {
    DistinctMergedColumns(L, R);
    forall j | 0 <= j < |ms| ensures ms[j].Keys == ColumnSet(R.columns) {
      assert ms[j] in R.rows;
    }
    forall j | 0 <= j < |ms|
      ensures JoinRow(L, R, l, Some(ms[j])).Keys == ColumnSet(MergedColumns(L, R))
    {
      JoinRowKeys(L, R, l, Some(ms[j]));
    }
  }

  /** pandas' left merge as written: each new row is repeated once per prior
      row with the same SKU, or kept once with nulls when there is none. */
  function JoinWith(L: Table, R: Table, l: Row): (rs: seq<Row>)
    requires WellFormed(R) && Distinct(MergedColumns(L, R))
    requires l.Keys == ColumnSet(L.columns)
    ensures RightNamesInjective(L, R)
    ensures |rs| >= 1
    ensures forall j :: 0 <= j < |rs| ==> rs[j].Keys == ColumnSet(MergedColumns(L, R))
  {
    var ms := Matches(R.rows, Key(l));
    JoinRowKeys(L, R, l, None);
    MatchRowsKeys(L, R, l, ms);
    if ms == [] then [JoinRow(L, R, l, None)]
    else seq(|ms|, j requires 0 <= j < |ms| => JoinRow(L, R, l, Some(ms[j])))
  }

  /** The left merge of the new rows from position `from` on: every row it
      emits has exactly the merged columns. */
  function LeftJoin(L: Table, R: Table, from: nat): (rs: seq<Row>)
    requires WellFormed(L) && WellFormed(R) && Distinct(MergedColumns(L, R))
    requires from <= |L.rows|
    ensures |rs| >= |L.rows| - from
    ensures forall j :: 0 <= j < |rs| ==> rs[j].Keys == ColumnSet(MergedColumns(L, R))
    decreases |L.rows| - from
  {
    if from == |L.rows| then []
    else
      var head := JoinWith(L, R, L.rows[from]);
      var rest := LeftJoin(L, R, from + 1);
      ConcatKeys(head, rest, ColumnSet(MergedColumns(L, R)));
      head + rest
  }

  lemma ConcatKeys(a: seq<Row>, b: seq<Row>, keys: set<string>)
    requires forall j :: 0 <= j < |a| ==> a[j].Keys == keys
    requires forall j :: 0 <= j < |b| ==> b[j].Keys == keys
    ensures forall j :: 0 <= j < |a + b| ==> (a + b)[j].Keys == keys
  {
  }

  /** Every merged row has exactly the merged columns. */
  lemma AllJoinRowKeys(L: Table, R: Table)
    requires Distinct(R.columns) && Distinct(MergedColumns(L, R))
    ensures RightNamesInjective(L, R)
    ensures forall l: Row, m: Option<Row> ::
      l.Keys == ColumnSet(L.columns) && (m.Some? ==> m.value.Keys == ColumnSet(R.columns)) ==>
      JoinRow(L, R, l, m).Keys == ColumnSet(MergedColumns(L, R))
  {
    DistinctMergedColumns(L, R);
    forall l: Row, m: Option<Row> |
      l.Keys == ColumnSet(L.columns) && (m.Some? ==> m.value.Keys == ColumnSet(R.columns))
      ensures JoinRow(L, R, l, m).Keys == ColumnSet(MergedColumns(L, R))
    {
      JoinRowKeys(L, R, l, m);
    }
  }

  // ----- Copy-back and drop -----

  /** `for col in ...: if f"{col}_old" in df.columns: df[col] = df[f"{col}_old"]` */
  function CopyBack(t: Table, cols: seq<string>): (t': Table)
    requires WellFormed(t)
    ensures WellFormed(t') && |t'.rows| == |t.rows|
    ensures (forall a :: a in cols && a + "_old" in t.columns ==> a in t.columns) ==> t'.columns == t.columns
    decreases |cols|
  {
    if cols == [] then t
    else
      var src := cols[0] + "_old";
      var t1 := if src in t.columns then AssignColumn(t, cols[0], src) else t;
      CopyBack(t1, cols[1..])
  }

  lemma {:induction false} CopyBackCell(t: Table, cols: seq<string>, k: nat, c: string)
    requires WellFormed(t) && k < |t.rows| && c in t.columns
    requires forall a, b :: a in cols && b in cols ==> a != b + "_old"
    requires forall a :: a in cols && a + "_old" in t.columns ==> a in t.columns
    ensures CopyBack(t, cols).rows[k][c] ==
      if c in cols && c + "_old" in t.columns then t.rows[k][c + "_old"] else t.rows[k][c]
    decreases |cols|
  {
    if cols != [] {
      var src := cols[0] + "_old";
      var t1 := if src in t.columns then AssignColumn(t, cols[0], src) else t;
      assert t1.columns == t.columns;
      assert forall a :: a in cols[1..] ==> a in cols;
      CopyBackCell(t1, cols[1..], k, c);
      if c in cols[1..] && c + "_old" in t.columns {
        assert cols[0] in cols && c in cols;
        assert cols[0] != c + "_old";
      }
    }
  }

  function KeepNew(cols: seq<string>): (r: seq<string>)
    ensures forall c :: c in r <==> c in cols && !HasOld(c)
    ensures Distinct(cols) ==> Distinct(r)
  {
    if cols == [] then []
    else
      var rest := KeepNew(cols[1..]);
      assert Distinct(cols) ==> cols[0] !in rest;
      if HasOld(cols[0]) then rest else [cols[0]] + rest
  }

  /** `df[df.columns.drop(list(df.filter(regex="_old")))]` */
  function DropOld(t: Table): (t': Table)
    requires WellFormed(t)
    ensures WellFormed(t') && |t'.rows| == |t.rows|
    ensures forall c :: c in t'.columns <==> c in t.columns && !HasOld(c)
    ensures forall k, c :: 0 <= k < |t.rows| && c in t'.columns ==> t'.rows[k][c] == t.rows[k][c]
  {
    Table(KeepNew(t.columns), seq(|t.rows|, k requires 0 <= k < |t.rows| =>
      map c | c in t.rows[k] && !HasOld(c) :: t.rows[k][c]))
  }

  // ----- The two merges -----

  /** Seeding from the prior file as the program does it. `None` when pandas
      raises: a table without an SKU column, or merged column names that
      collide. */
  function MergeAsWritten(L: Table, R: Table): (r: Option<Table>)
    requires WellFormed(L) && WellFormed(R)
    ensures r.None? <==> "SKU" !in L.columns || "SKU" !in R.columns || !Distinct(MergedColumns(L, R))
    ensures r.Some? ==> WellFormed(r.value) && |r.value.rows| >= |L.rows|
  {
    if "SKU" !in L.columns || "SKU" !in R.columns || !Distinct(MergedColumns(L, R)) then None
    else
      var joined := Table(MergedColumns(L, R), LeftJoin(L, R, 0));
      Some(DropOld(CopyBack(joined, ResultColumns)))
  }

  /** The merged table before copy-back, one row per new row, joined with
      its first prior match. */
  function JoinedFirst(L: Table, R: Table): (J: Table)
    requires WellFormed(L) && WellFormed(R) && Distinct(MergedColumns(L, R))
    ensures WellFormed(J) && J.columns == MergedColumns(L, R) && |J.rows| == |L.rows|
    ensures RightNamesInjective(L, R)
    ensures forall k :: 0 <= k < |L.rows| ==> J.rows[k] == JoinRow(L, R, L.rows[k], FirstMatch(R.rows, Key(L.rows[k])))
  {
    RowsKeys(R);
    AllJoinRowKeys(L, R);
    Table(MergedColumns(L, R), seq(|L.rows|, k requires 0 <= k < |L.rows| =>
      JoinRow(L, R, L.rows[k], FirstMatch(R.rows, Key(L.rows[k])))))
  }

  /** The corrected join after copy-back of the columns `copied` and the
      drop of the "_old" columns. */
  function Settle(L: Table, R: Table, copied: seq<string>): (t: Table)
    requires WellFormed(L) && WellFormed(R) && Distinct(MergedColumns(L, R))
    ensures WellFormed(t) && |t.rows| == |L.rows|
  {
    DropOld(CopyBack(JoinedFirst(L, R), copied))
  }

  /** The corrected merge used by the rest of the model: each row of the new
      list appears exactly once, in order, joined with the first prior row
      of its SKU. */
  function MergePrior(L: Table, R: Table): (r: Option<Table>)
    requires WellFormed(L) && WellFormed(R)
    ensures r.Some? ==> WellFormed(r.value) && |r.value.rows| == |L.rows|
    ensures r.None? <==> "SKU" !in L.columns || "SKU" !in R.columns || !Distinct(MergedColumns(L, R))
  {
    if "SKU" !in L.columns || "SKU" !in R.columns || !Distinct(MergedColumns(L, R)) then None
    else Some(Settle(L, R, ResultColumns))
  }

  // ----- What the merge computes -----

  /** The prior file's value of column `c` for a SKU: that of the SKU's
      first prior row, or null when the prior file does not have the SKU. */
  function PriorValue(R: Table, key: Cell, c: string): Cell
    requires WellFormed(R) && c in R.columns
  {
    RowsKeys(R);
    var m := FirstMatch(R.rows, key);
    if m.None? then Missing else m.value[c]
  }

  /** With no "_old" in any name, a merged column ending in "_old" is the
      twin of a column both files have. */
  lemma OldTwin(L: Table, R: Table, a: string)
    requires NoOldNames(L.columns) && NoOldNames(R.columns)
    requires a + "_old" in MergedColumns(L, R)
    ensures a in L.columns && a in NonKey(R.columns)
  {
    ContainsAppended(a, "_old");
    RightColumnsMembers(L, R);
    var c :| c in NonKey(R.columns) && RightName(L.columns, c) == a + "_old";
    if c in L.columns {
      AppendCancel(c, a, "_old");
    }
  }

  lemma NotTwins(copied: seq<string>)
    requires NoOldNames(copied)
    ensures forall a, b :: a in copied && b in copied ==> a != b + "_old"
  {
    forall a, b | a in copied && b in copied ensures a != b + "_old" {
      ContainsAppended(b, "_old");
    }
  }

  /** Without "_old" in any name the merged columns are distinct and
      copy-back keeps them as they are. */
  lemma CopyBackColumns(L: Table, R: Table, copied: seq<string>)
    requires WellFormed(L) && WellFormed(R)
    requires NoOldNames(L.columns) && NoOldNames(R.columns)
    ensures Distinct(MergedColumns(L, R))
    ensures CopyBack(JoinedFirst(L, R), copied).columns == MergedColumns(L, R)
  {
    NoOldMergedDistinct(L, R);
    forall a | a in copied && a + "_old" in MergedColumns(L, R) ensures a in MergedColumns(L, R) {
      OldTwin(L, R, a);
    }
  }

  /** The copy-back step on the corrected join, for names without "_old":
      a copied column both files have takes its "_old" twin's value. */
  lemma CopyBackOnJoin(L: Table, R: Table, copied: seq<string>, k: nat, c: string)
    requires WellFormed(L) && WellFormed(R) && NoOldNames(copied)
    requires NoOldNames(L.columns) && NoOldNames(R.columns) && k < |L.rows|
    requires c in MergedColumns(L, R)
    ensures Distinct(MergedColumns(L, R))
    ensures CopyBack(JoinedFirst(L, R), copied).columns == MergedColumns(L, R)
    ensures c in L.columns && c in NonKey(R.columns) ==> c + "_old" in MergedColumns(L, R)
    ensures CopyBack(JoinedFirst(L, R), copied).rows[k][c] ==
      if c in copied && c in L.columns && c in NonKey(R.columns)
      then JoinedFirst(L, R).rows[k][c + "_old"] else JoinedFirst(L, R).rows[k][c]
  {
    CopyBackColumns(L, R, copied);
    var J := JoinedFirst(L, R);
    NotTwins(copied);
    forall a | a in copied && a + "_old" in J.columns ensures a in J.columns {
      OldTwin(L, R, a);
    }
    CopyBackCell(J, copied, k, c);
    if c in copied && c + "_old" in J.columns {
      OldTwin(L, R, c);
    }
    if c in L.columns && c in NonKey(R.columns) {
      RightColumnsMembers(L, R);
      assert RightName(L.columns, c) in J.columns;
    }
  }

  /** The merged names without "_old" are exactly the names of both files. */
  lemma MergedNewNames(L: Table, R: Table, c: string)
    requires "SKU" in L.columns && NoOldNames(L.columns) && NoOldNames(R.columns)
    ensures c in MergedColumns(L, R) && !HasOld(c) <==> c in L.columns || c in R.columns
  {
    RightColumnsMembers(L, R);
    if c !in L.columns && c in R.columns {
      assert c in NonKey(R.columns);
      assert RightName(L.columns, c) == c;
    }
    if c in MergedColumns(L, R) && !HasOld(c) && c !in L.columns {
      var c' :| c' in NonKey(R.columns) && RightName(L.columns, c') == c;
      if c' in L.columns {
        ContainsAppended(c', "_old");
      }
    }
  }

  lemma SettleColumns(L: Table, R: Table, copied: seq<string>, c: string)
    requires WellFormed(L) && WellFormed(R) && "SKU" in L.columns
    requires NoOldNames(L.columns) && NoOldNames(R.columns)
    ensures Distinct(MergedColumns(L, R))
    ensures c in Settle(L, R, copied).columns <==> c in L.columns || c in R.columns
  {
    CopyBackColumns(L, R, copied);
    assert c in MergedColumns(L, R) && !HasOld(c) <==> c in L.columns || c in R.columns by {
      MergedNewNames(L, R, c);
    }
  }

  /** Row `k` of the settled table at a column of either file is the
      copied-back joined row's value. */
  lemma SettleRowAt(L: Table, R: Table, copied: seq<string>, k: nat, c: string)
    requires WellFormed(L) && WellFormed(R) && "SKU" in L.columns
    requires NoOldNames(L.columns) && NoOldNames(R.columns) && k < |L.rows|
    requires c in L.columns || c in R.columns
    ensures Distinct(MergedColumns(L, R)) && c in MergedColumns(L, R)
    ensures c in Settle(L, R, copied).columns
    ensures Settle(L, R, copied).rows[k][c] == CopyBack(JoinedFirst(L, R), copied).rows[k][c]
  {
    CopyBackColumns(L, R, copied);
    assert c in MergedColumns(L, R) && !HasOld(c) by {
      MergedNewNames(L, R, c);
    }
  }

  /** The corrected join keeps the new list's cells ... */
  lemma JoinedKeepsLeft(L: Table, R: Table, k: nat, c: string)
    requires WellFormed(L) && WellFormed(R) && Distinct(MergedColumns(L, R))
    requires k < |L.rows| && c in L.columns
    ensures JoinedFirst(L, R).rows[k][c] == L.rows[k][c]
  {
    var l := L.rows[k];
    var m := FirstMatch(R.rows, Key(l));
    assert m.Some? ==> m.value.Keys == ColumnSet(R.columns) by { RowsKeys(R); }
    JoinRowLeft(L, R, l, m, c);
  }

  /** ... and holds the first prior row's cells under their merged names. */
  lemma JoinedTakesRight(L: Table, R: Table, k: nat, c: string)
    requires WellFormed(L) && WellFormed(R) && Distinct(MergedColumns(L, R))
    requires k < |L.rows| && c in NonKey(R.columns)
    ensures RightName(L.columns, c) in JoinedFirst(L, R).rows[k]
    ensures JoinedFirst(L, R).rows[k][RightName(L.columns, c)] == PriorValue(R, Key(L.rows[k]), c)
  {
    var l := L.rows[k];
    var m := FirstMatch(R.rows, Key(l));
    assert m.Some? ==> m.value.Keys == ColumnSet(R.columns) by { RowsKeys(R); }
    JoinRowRight(L, R, l, m, c);
    RightColumnsMembers(L, R);
  }

  lemma SettleKeepsNew(L: Table, R: Table, copied: seq<string>, k: nat, c: string)
    requires WellFormed(L) && WellFormed(R) && "SKU" in L.columns && NoOldNames(copied)
    requires NoOldNames(L.columns) && NoOldNames(R.columns) && k < |L.rows|
    requires c in L.columns && (c !in copied || c !in R.columns)
    ensures Distinct(MergedColumns(L, R)) && c in Settle(L, R, copied).columns
    ensures Settle(L, R, copied).rows[k][c] == L.rows[k][c]
  {
    SettleRowAt(L, R, copied, k, c);
    CopyBackOnJoin(L, R, copied, k, c);
    JoinedKeepsLeft(L, R, k, c);
  }

  lemma SettleTakesPrior(L: Table, R: Table, copied: seq<string>, k: nat, c: string)
    requires WellFormed(L) && WellFormed(R) && "SKU" in L.columns && NoOldNames(copied)
    requires NoOldNames(L.columns) && NoOldNames(R.columns) && k < |L.rows|
    requires c in NonKey(R.columns) && (c in copied || c !in L.columns)
    ensures Distinct(MergedColumns(L, R)) && c in Settle(L, R, copied).columns
    ensures Settle(L, R, copied).rows[k][c] == PriorValue(R, Key(L.rows[k]), c)
  {
    SettleRowAt(L, R, copied, k, c);
    CopyBackOnJoin(L, R, copied, k, c);
    JoinedTakesRight(L, R, k, c);
  }

  /** The merged ledger's columns are those of both files. */
  lemma MergePriorColumns(L: Table, R: Table, c: string)
    requires WellFormed(L) && WellFormed(R) && "SKU" in L.columns && "SKU" in R.columns
    requires NoOldNames(L.columns) && NoOldNames(R.columns)
    ensures MergePrior(L, R).Some? && |MergePrior(L, R).value.rows| == |L.rows|
    ensures c in MergePrior(L, R).value.columns <==> c in L.columns || c in R.columns
  {
    SettleColumns(L, R, ResultColumns, c);
  }

  /** A column of the new list that is not a result column the prior file
      also has keeps the new list's value. */
  lemma MergePriorKeepsNew(L: Table, R: Table, k: nat, c: string)
    requires WellFormed(L) && WellFormed(R) && "SKU" in L.columns && "SKU" in R.columns
    requires NoOldNames(L.columns) && NoOldNames(R.columns) && k < |L.rows|
    requires c in L.columns && (c !in ResultColumns || c !in R.columns)
    ensures MergePrior(L, R).Some? && c in MergePrior(L, R).value.columns
    ensures MergePrior(L, R).value.rows[k][c] == L.rows[k][c]
  {
    ResultColumnsNoOld();
    SettleKeepsNew(L, R, ResultColumns, k, c);
  }

  /** A result column the prior file has, and a column only the prior file
      has, take the prior value of the row's SKU (null when the SKU is not
      there). */
  lemma MergePriorTakesPrior(L: Table, R: Table, k: nat, c: string)
    requires WellFormed(L) && WellFormed(R) && "SKU" in L.columns && "SKU" in R.columns
    requires NoOldNames(L.columns) && NoOldNames(R.columns) && k < |L.rows|
    requires c in R.columns && (c in ResultColumns || c !in L.columns)
    ensures MergePrior(L, R).Some? && c in MergePrior(L, R).value.columns
    ensures MergePrior(L, R).value.rows[k][c] == PriorValue(R, Key(L.rows[k]), c)
  {
    ResultColumnsNoOld();
    assert c in NonKey(R.columns) by { KeyNotResult(); }
    SettleTakesPrior(L, R, ResultColumns, k, c);
  }

  // ----- The as-written merge against the corrected one -----

  /** No two prior rows share an SKU. */
  predicate UniqueKeys(rows: seq<Row>) {
    forall i, j :: 0 <= i < j < |rows| ==> Key(rows[i]) != Key(rows[j])
  }

  lemma {:induction false} UniqueAtMostOneMatch(rows: seq<Row>, key: Cell)
    requires UniqueKeys(rows)
    ensures |Matches(rows, key)| <= 1
  {
    if rows != [] {
      assert UniqueKeys(rows[1..]) by {
        forall i, j | 0 <= i < j < |rows| - 1 ensures Key(rows[1..][i]) != Key(rows[1..][j]) {
          assert rows[1..][i] == rows[i + 1] && rows[1..][j] == rows[j + 1];
        }
      }
      UniqueAtMostOneMatch(rows[1..], key);
      if Key(rows[0]) == key {
        forall r | r in rows[1..] ensures Key(r) != key {
          var j :| 0 <= j < |rows| - 1 && rows[1..][j] == r;
          assert rows[j + 1] == r;
        }
      }
    }
  }

  /** A new row with at most one prior match is joined exactly once. */
  lemma JoinWithSingle(L: Table, R: Table, l: Row)
    requires WellFormed(R) && Distinct(MergedColumns(L, R))
    requires l.Keys == ColumnSet(L.columns)
    requires |Matches(R.rows, Key(l))| <= 1
    ensures RightNamesInjective(L, R)
    ensures FirstMatch(R.rows, Key(l)).Some? ==> FirstMatch(R.rows, Key(l)).value.Keys == ColumnSet(R.columns)
    ensures JoinWith(L, R, l) == [JoinRow(L, R, l, FirstMatch(R.rows, Key(l)))]
  {
    var ms := Matches(R.rows, Key(l));
    MatchRowsKeys(L, R, l, ms);
    if ms != [] {
      JoinWithOne(L, R, l);
    }
  }

  lemma JoinWithOne(L: Table, R: Table, l: Row)
    requires WellFormed(R) && Distinct(MergedColumns(L, R))
    requires l.Keys == ColumnSet(L.columns)
    requires |Matches(R.rows, Key(l))| == 1
    ensures RightNamesInjective(L, R)
    ensures Matches(R.rows, Key(l))[0].Keys == ColumnSet(R.columns)
    ensures JoinWith(L, R, l) == [JoinRow(L, R, l, Some(Matches(R.rows, Key(l))[0]))]
  {
    var ms := Matches(R.rows, Key(l));
    MatchRowsKeys(L, R, l, ms);
    var js := JoinWith(L, R, l);
    assert |js| == 1 && js[0] == JoinRow(L, R, l, Some(ms[0]));
  }

  lemma SliceCons<T>(s: seq<T>, i: nat)
    requires i < |s|
    ensures s[i..] == [s[i]] + s[i + 1..]
  {
  }

  /** With unique prior keys, the as-written merge emits one row per new
      row: the corrected join's. */
  lemma LeftJoinStep(L: Table, R: Table, from: nat)
    requires WellFormed(L) && WellFormed(R) && Distinct(MergedColumns(L, R)) && UniqueKeys(R.rows)
    requires from < |L.rows|
    ensures LeftJoin(L, R, from) == [JoinedFirst(L, R).rows[from]] + LeftJoin(L, R, from + 1)
  {
    UniqueAtMostOneMatch(R.rows, Key(L.rows[from]));
    JoinWithSingle(L, R, L.rows[from]);
  }

  lemma {:induction false} LeftJoinIsFirstJoin(L: Table, R: Table, from: nat)
    requires WellFormed(L) && WellFormed(R) && Distinct(MergedColumns(L, R)) && UniqueKeys(R.rows)
    requires from <= |L.rows|
    ensures LeftJoin(L, R, from) == JoinedFirst(L, R).rows[from..]
    decreases |L.rows| - from
  {
    if from < |L.rows| {
      LeftJoinIsFirstJoin(L, R, from + 1);
      LeftJoinStep(L, R, from);
      SliceCons(JoinedFirst(L, R).rows, from);
    }
  }

  /** When the prior file has one row per SKU, the program's merge and the
      corrected one agree. */
  lemma MergeAgreesOnUniquePrior(L: Table, R: Table)
    requires WellFormed(L) && WellFormed(R) && UniqueKeys(R.rows)
    ensures MergeAsWritten(L, R) == MergePrior(L, R)
  {
    if "SKU" in L.columns && "SKU" in R.columns && Distinct(MergedColumns(L, R)) {
      LeftJoinIsFirstJoin(L, R, 0);
    }
  }

  /** Two rows with the same SKU (a product listed twice). */
  function TwiceListed(): (t: Table)
    ensures WellFormed(t)
  {
    var r := map["SKU" := Str("7790001")];
    var t := Table(["SKU"], [r, r]);
    assert ColumnSet(t.columns) == {"SKU"};
    t
  }

  /** A product listed twice is written twice to the output file; on the
      next run each of its two input rows matches both prior rows, so the
      merged ledger has four rows instead of two, and the count doubles on
      every later run. */
  lemma DuplicatePriorRowsMultiply()
    ensures MergeAsWritten(TwiceListed(), TwiceListed()).Some?
    ensures |TwiceListed().rows| == 2
    ensures |MergeAsWritten(TwiceListed(), TwiceListed()).value.rows| == 4
    ensures |MergePrior(TwiceListed(), TwiceListed()).value.rows| == 2
  {
    var t := TwiceListed();
    var r := t.rows[0];
    assert NonKey(t.columns) == [];
    assert MergedColumns(t, t) == ["SKU"];
    assert Matches(t.rows, Key(r)) == [r, r] by {
      assert Matches(t.rows[1..], Key(r)) == [r];
    }
    assert |JoinWith(t, t, r)| == 2;
    assert |LeftJoin(t, t, 0)| == 4;
  }

  // ----- Products the prior file does not list -----

  /** No prior row has SKU `key`. */
  predicate Unlisted(rows: seq<Row>, key: Cell) {
    forall r :: r in rows ==> Key(r) != key
  }

  /** Every row the left merge makes of a new row carries that row's SKU. */
  lemma JoinWithKey(L: Table, R: Table, l: Row, j: nat)
    requires WellFormed(R) && Distinct(MergedColumns(L, R)) && "SKU" in L.columns
    requires l.Keys == ColumnSet(L.columns) && j < |JoinWith(L, R, l)|
    ensures Key(JoinWith(L, R, l)[j]) == Key(l)
  {
    var ms := Matches(R.rows, Key(l));
    if ms == [] {
      JoinRowLeft(L, R, l, None, "SKU");
    } else {
      MatchRowsKeys(L, R, l, ms);
      JoinRowLeft(L, R, l, Some(ms[j]), "SKU");
    }
  }

  /** A new row whose SKU the prior file does not list is kept once, with
      null in every prior column. */
  lemma JoinWithUnlisted(L: Table, R: Table, l: Row, j: nat, c: string, key: Cell)
    requires WellFormed(R) && Distinct(MergedColumns(L, R)) && "SKU" in L.columns
    requires l.Keys == ColumnSet(L.columns) && c in NonKey(R.columns)
    requires j < |JoinWith(L, R, l)| && Key(JoinWith(L, R, l)[j]) == key && Unlisted(R.rows, key)
    ensures |JoinWith(L, R, l)| == 1
    ensures JoinWith(L, R, l)[j][RightName(L.columns, c)] == Missing
  {
    JoinWithKey(L, R, l, j);
    JoinRowRight(L, R, l, None, c);
  }

  /** Where the `j`-th merged row from position `from` on comes from: the
      rows made of the new row at `from`, or the merge of the rows after. */
  lemma LeftJoinAt(L: Table, R: Table, from: nat, j: nat)
    requires WellFormed(L) && WellFormed(R) && Distinct(MergedColumns(L, R))
    requires from <= |L.rows| && j < |LeftJoin(L, R, from)|
    ensures from < |L.rows| && L.rows[from].Keys == ColumnSet(L.columns)
    ensures var head := JoinWith(L, R, L.rows[from]);
      && (j < |head| ==> LeftJoin(L, R, from)[j] == head[j])
      && (j >= |head| ==> j - |head| < |LeftJoin(L, R, from + 1)|
                          && LeftJoin(L, R, from)[j] == LeftJoin(L, R, from + 1)[j - |head|])
  {
    assert from < |L.rows|;
    assert L.rows[from] in L.rows;
  }

  /** Whatever the prior file repeats, a merged row whose SKU it does not
      list holds null in every prior column. */
  lemma {:induction false} LeftJoinUnlisted(L: Table, R: Table, from: nat, j: nat, c: string, key: Cell)
    requires WellFormed(L) && WellFormed(R) && Distinct(MergedColumns(L, R)) && "SKU" in L.columns
    requires from <= |L.rows| && j < |LeftJoin(L, R, from)| && c in NonKey(R.columns)
    requires Key(LeftJoin(L, R, from)[j]) == key && Unlisted(R.rows, key)
    ensures LeftJoin(L, R, from)[j][RightName(L.columns, c)] == Missing
    decreases |L.rows| - from
  {
    LeftJoinAt(L, R, from, j);
    var l := L.rows[from];
    var n := |JoinWith(L, R, l)|;
    if j < n {
      JoinWithUnlisted(L, R, l, j, c, key);
    } else {
      LeftJoinUnlisted(L, R, from + 1, j - n, c, key);
    }
  }

  /** Copy-back keeps the merged columns, and leaves the SKU alone when
      SKU is not copied. */
  lemma CopyBackKey(L: Table, R: Table, copied: seq<string>, j: nat)
    requires WellFormed(L) && WellFormed(R) && NoOldNames(L.columns) && NoOldNames(R.columns)
    requires NoOldNames(copied) && "SKU" in L.columns && "SKU" !in copied
    requires Distinct(MergedColumns(L, R)) && j < |LeftJoin(L, R, 0)|
    ensures var J := Table(MergedColumns(L, R), LeftJoin(L, R, 0));
      && CopyBack(J, copied).columns == J.columns
      && Key(CopyBack(J, copied).rows[j]) == Key(J.rows[j])
  {
    NotTwins(copied);
    var J := Table(MergedColumns(L, R), LeftJoin(L, R, 0));
    forall a | a in copied && a + "_old" in J.columns ensures a in J.columns {
      OldTwin(L, R, a);
    }
    CopyBackCell(J, copied, j, "SKU");
  }

  /** Copy-back brings the null prior value of an unlisted SKU into each
      copied column. */
  lemma CopyBackUnlisted(L: Table, R: Table, copied: seq<string>, j: nat, c: string)
    requires WellFormed(L) && WellFormed(R) && NoOldNames(L.columns) && NoOldNames(R.columns)
    requires NoOldNames(copied) && "SKU" in L.columns
    requires Distinct(MergedColumns(L, R)) && j < |LeftJoin(L, R, 0)|
    requires c in copied && c in NonKey(R.columns)
    requires Unlisted(R.rows, Key(LeftJoin(L, R, 0)[j]))
    ensures var C := CopyBack(Table(MergedColumns(L, R), LeftJoin(L, R, 0)), copied);
      c in C.columns && C.rows[j][c] == Missing
  {
    NotTwins(copied);
    var J := Table(MergedColumns(L, R), LeftJoin(L, R, 0));
    forall a | a in copied && a + "_old" in J.columns ensures a in J.columns {
      OldTwin(L, R, a);
    }
    assert RightName(L.columns, c) in J.columns by { RightColumnsMembers(L, R); }
    assert c + "_old" in J.columns <==> c in L.columns by {
      if c + "_old" in J.columns {
        OldTwin(L, R, c);
      }
    }
    CopyBackCell(J, copied, j, c);
    LeftJoinUnlisted(L, R, 0, j, c, Key(J.rows[j]));
  }

  /** In the program's merge, a row whose SKU the prior file does not list
      holds null in every result column the prior file has: copy-back
      brings in the null prior value. */
  lemma MergeAsWrittenUnlisted(L: Table, R: Table, j: nat, c: string)
    requires WellFormed(L) && WellFormed(R) && NoOldNames(L.columns) && NoOldNames(R.columns)
    requires MergeAsWritten(L, R).Some? && j < |MergeAsWritten(L, R).value.rows|
    requires c in R.columns && c in ResultColumns
    requires Unlisted(R.rows, Key(MergeAsWritten(L, R).value.rows[j]))
    ensures c in MergeAsWritten(L, R).value.rows[j]
    ensures MergeAsWritten(L, R).value.rows[j][c] == Missing
  {
    ResultColumnsNoOld();
    KeyNotResult();
    var J := Table(MergedColumns(L, R), LeftJoin(L, R, 0));
    var m := MergeAsWritten(L, R).value;
    assert c in NonKey(R.columns);
    CopyBackUnlisted(L, R, ResultColumns, j, c) by {
      CopyBackKey(L, R, ResultColumns, j);
      assert "SKU" in m.columns by {
        assert !HasOld("SKU");
      }
    }
  }
}
