/** The start request of the web front end (`start_scraper`): it refuses a
    second run while one is going, turns the form into the site selection
    and the rescan flag, and validates an uploaded product list (file kind
    by suffix, reader fallbacks, required columns after name
    normalisation) before handing it to the scraper with a `SKU` column
    copied from the EAN column. The readers, the Unicode decomposition and
    the thread are the environment's. */
module WebApp {
  import opened Wrappers
  import opened Text
  import opened Ledger
  import Run
  import Stream

  // ----- Form flags -----

  /** `request.form`, one value per field. */
  type Form = map<string, string>

  /** `data.get(key) == 'on'` */
  predicate Flag(form: Form, key: string) {
    key in form && form[key] == "on"
  }

  /** The selection dictionary built from the form: one entry per site. */
  function SelectionOf(form: Form): (sel: Run.Selection)
    ensures sel.Keys == {"nini", "carrefour", "vea", "disco"}
    ensures forall s :: Run.Selected(sel, Run.SiteKey(s)) <==> Flag(form, Run.SiteKey(s))
  {
    map["nini" := Flag(form, "nini"), "carrefour" := Flag(form, "carrefour"),
        "vea" := Flag(form, "vea"), "disco" := Flag(form, "disco")]
  }

  // ----- File kind -----

  datatype Kind = Excel | Csv | Unsupported

  /** The reader chosen from the lower-cased file name. */
  function KindOf(filename: string): Kind {
    var f := Lower(filename);
    if EndsWith(f, ".xlsx") || EndsWith(f, ".xls") then Excel
    else if EndsWith(f, ".csv") then Csv
    else Unsupported
  }

  lemma LowerAppend(a: string, b: string)
    ensures Lower(a + b) == Lower(a) + Lower(b)
  {
    var l := Lower(a + b);
    var r := Lower(a) + Lower(b);
    forall i | 0 <= i < |l| ensures l[i] == r[i] {
      if i < |a| {
        assert (a + b)[i] == a[i];
      } else {
        assert (a + b)[i] == b[i - |a|];
      }
    }
  }

  /** The suffix decides, in any letter case: "X.CSV" is read as CSV and
      "X.Xls" as Excel; a name ending in neither is refused. */
  lemma KindBySuffix(base: string, ext: string)
    ensures Lower(ext) == ".xlsx" || Lower(ext) == ".xls" ==> KindOf(base + ext) == Excel
    ensures Lower(ext) == ".csv" ==> KindOf(base + ext) == Csv
    ensures KindOf(base + ext) == Unsupported ==>
      Lower(ext) != ".xlsx" && Lower(ext) != ".xls" && Lower(ext) != ".csv"
  {
    LowerAppend(base, ext);
    var f := Lower(base + ext);
    assert f[|f| - |ext|..] == Lower(ext);
  }

  // ----- Reading the upload -----

  /** What one pandas reader call gives: a table (all cells as text), or
      the exception it raises. */
  datatype Read = Parsed(table: Table) | Raises(message: string)

  /** An uploaded file: its name and what each of the reader calls the
      start request may make would give on it. `sniffed` is `read_csv` with
      separator detection, `semicolon` and `comma` with a fixed separator. */
  datatype Upload = Upload(filename: string, excel: Read, sniffed: Read, semicolon: Read, comma: Read)

  predicate ReadOk(r: Read) {
    r.Parsed? ==> WellFormed(r.table)
  }

  /** The pandas readers give rectangular tables with distinct column names. */
  predicate ReadersOk(u: Upload) {
    ReadOk(u.excel) && ReadOk(u.sniffed) && ReadOk(u.semicolon) && ReadOk(u.comma)
  }

  /** The reader calls for a supported file: Excel directly; for CSV the
      first of detection, ';' and ',' that succeeds, the ',' reader's
      exception when all three fail. */
  function ReadUpload(u: Upload): (r: Read)
    requires KindOf(u.filename) != Unsupported
    ensures KindOf(u.filename) == Excel ==> r == u.excel
    ensures KindOf(u.filename) == Csv ==>
      (r.Parsed? <==> u.sniffed.Parsed? || u.semicolon.Parsed? || u.comma.Parsed?)
    ensures KindOf(u.filename) == Csv && u.sniffed.Raises? && u.semicolon.Raises? ==> r == u.comma
    ensures KindOf(u.filename) == Csv && r.Parsed? ==>
      r == (if u.sniffed.Parsed? then u.sniffed else if u.semicolon.Parsed? then u.semicolon else u.comma)
  {
    if KindOf(u.filename) == Excel then u.excel
    else if u.sniffed.Parsed? then u.sniffed
    else if u.semicolon.Parsed? then u.semicolon
    else u.comma
  }

  // ----- Column names -----

  /** `c for c in s if not unicodedata.combining(c)` */
  function DropCombining(s: string, combining: char -> bool): (r: string)
    ensures |r| <= |s|
    ensures forall i :: 0 <= i < |r| ==> !combining(r[i])
    decreases |s|
  {
    if s == [] then []
    else (if combining(s[0]) then [] else [s[0]]) + DropCombining(s[1..], combining)
  }

  /** Dropping marks works character by character: it distributes over
      concatenation ... */
  lemma {:induction false} DropCombiningAppend(a: string, b: string, combining: char -> bool)
    ensures DropCombining(a + b, combining) == DropCombining(a, combining) + DropCombining(b, combining)
    decreases |a|
  {
    if a == [] {
      assert a + b == b;
    } else {
      assert (a + b)[1..] == a[1..] + b;
      DropCombiningAppend(a[1..], b, combining);
    }
  }

  /** ... and keeps a text without marks as it is. */
  lemma {:induction false} DropCombiningKeeps(a: string, combining: char -> bool)
    requires forall i :: 0 <= i < |a| ==> !combining(a[i])
    ensures DropCombining(a, combining) == a
    decreases |a|
  {
    if a != [] {
      DropCombiningKeeps(a[1..], combining);
    }
  }

  /** `normalize`: decompose (NFKD, the environment's `nfkd`), drop the
      combining marks, lower-case, strip. */
  function Normalize(name: string, nfkd: string -> string, combining: char -> bool): string {
    Strip(Lower(DropCombining(nfkd(name), combining)))
  }

  /** `{normalize(c): c for c in df.columns}`: a later column with the same
      normalised name replaces an earlier one. */
  function ColumnMap(columns: seq<string>, norm: string -> string): (m: map<string, string>)
    ensures forall key :: key in m <==> exists i :: 0 <= i < |columns| && norm(columns[i]) == key
    ensures forall key :: key in m ==> m[key] in columns
    decreases |columns|
  {
    if columns == [] then map[]
    else
      var last := columns[|columns| - 1];
      var m := ColumnMap(columns[..|columns| - 1], norm);
      assert forall i :: 0 <= i < |columns| - 1 ==> columns[..|columns| - 1][i] == columns[i];
      m[norm(last) := last]
  }

  /** The map's entry for a name is the LAST column that normalises to it. */
  lemma {:induction false} ColumnMapLastWins(columns: seq<string>, norm: string -> string, i: nat)
    requires i < |columns|
    requires forall j :: i < j < |columns| ==> norm(columns[j]) != norm(columns[i])
    ensures norm(columns[i]) in ColumnMap(columns, norm)
    ensures ColumnMap(columns, norm)[norm(columns[i])] == columns[i]
    decreases |columns|
  {
    if i < |columns| - 1 {
      var init := columns[..|columns| - 1];
      assert forall j :: i < j < |init| ==> init[j] == columns[j];
      ColumnMapLastWins(init, norm, i);
    }
  }

  /** The columns an upload must have, by normalised name. */
  const Required: seq<string> := ["codigo", "ean", "descripcion"]

  /** `[req for req in required if req not in valid_cols_map]` */
  function Absent(req: seq<string>, m: map<string, string>): (r: seq<string>)
    ensures forall x :: x in r <==> x in req && x !in m
    decreases |req|
  {
    if req == [] then []
    else (if req[0] in m then [] else [req[0]]) + Absent(req[1..], m)
  }

  /** The missing names are listed in the fixed order codigo, ean,
      descripcion. */
  lemma MissingInOrder(m: map<string, string>)
    ensures Absent(Required, m) ==
      (if "codigo" in m then [] else ["codigo"])
      + (if "ean" in m then [] else ["ean"])
      + (if "descripcion" in m then [] else ["descripcion"])
  {
    assert Required[1..] == ["ean", "descripcion"];
    assert Required[1..][1..] == ["descripcion"];
    assert Required[1..][1..][1..] == [];
  }

  // ----- The start request -----

  const BusyMessage: string := "El proceso ya está en ejecución."
  const UnsupportedMessage: string := "Formato de archivo no soportado. Use CSV o Excel."
  const ReadErrorPrefix: string := "Error al leer el archivo: "

  function MissingMessage(missing: seq<string>, columns: seq<string>): string {
    "Faltan columnas: " + Join(missing, ", ") + ". Columnas encontradas: " + Join(columns, ", ")
  }

  /** An upload's fate: the product list handed to the scraper, or the
      error message of the 400 reply. */
  datatype Loaded = Accepted(table: Table) | Refused(message: string)

  /** The column check on a table read from an upload, and the `SKU`
      column copied from the column mapped to "ean". */
  function CheckColumns(df: Table, norm: string -> string): (l: Loaded)
    requires WellFormed(df)
    ensures l.Accepted? ==> WellFormed(l.table) && "SKU" in l.table.columns
  {
    var names := ColumnMap(df.columns, norm);
    var missing := Absent(Required, names);
    if missing != [] then Refused(MissingMessage(missing, df.columns))
    else
      assert "ean" in names by {
        assert "ean" in Required;
      }
      Accepted(AssignColumn(df, "SKU", names["ean"]))
  }

  /** A table passes iff each of codigo, ean, descripcion is the normalised
      name of one of its columns; otherwise the message lists the missing
      ones and every column as read. */
  lemma ColumnsAcceptedIff(df: Table, norm: string -> string)
    requires WellFormed(df)
    ensures CheckColumns(df, norm).Accepted? <==>
      forall x :: x in Required ==> exists i :: 0 <= i < |df.columns| && norm(df.columns[i]) == x
    ensures CheckColumns(df, norm).Refused? ==>
      CheckColumns(df, norm).message == MissingMessage(Absent(Required, ColumnMap(df.columns, norm)), df.columns)
  {
    var names := ColumnMap(df.columns, norm);
    if Absent(Required, names) != [] {
      var x := Absent(Required, names)[0];
      assert x in Required && x !in names;
    }
  }

  /** An accepted table is the table read with `SKU` assigned from the
      LAST column whose name normalises to "ean" (by `AssignColumn`, row by
      row the cell of that column, every other cell as read). */
  lemma SkuFromLastEan(df: Table, norm: string -> string, e: nat)
    requires WellFormed(df) && CheckColumns(df, norm).Accepted?
    requires e < |df.columns| && norm(df.columns[e]) == "ean"
    requires forall j :: e < j < |df.columns| ==> norm(df.columns[j]) != "ean"
    ensures CheckColumns(df, norm) == Accepted(AssignColumn(df, "SKU", df.columns[e]))
  {
    ColumnMapLastWins(df.columns, norm, e);
  }

  /** `normalize` as the function the column map applies. */
  function Normalizer(nfkd: string -> string, combining: char -> bool): (norm: string -> string)
    ensures forall c :: norm(c) == Normalize(c, nfkd, combining)
  {
    c => Normalize(c, nfkd, combining)
  }

  /** The `try` block on an uploaded file. */
  function Load(u: Upload, nfkd: string -> string, combining: char -> bool): (l: Loaded)
    requires ReadersOk(u)
    ensures l.Accepted? ==> WellFormed(l.table) && "SKU" in l.table.columns
  {
    if KindOf(u.filename) == Unsupported then Refused(UnsupportedMessage)
    else
      match ReadUpload(u)
      case Raises(e) => Refused(ReadErrorPrefix + e)
      case Parsed(df) => CheckColumns(df, Normalizer(nfkd, combining))
  }

  /** An upload is refused iff its suffix is unsupported, its reading
      raises, or one of codigo, ean, descripcion is not among its
      normalised column names; the refusal names the reason. */
  lemma LoadRefusedIff(u: Upload, nfkd: string -> string, combining: char -> bool)
    requires ReadersOk(u)
    ensures KindOf(u.filename) == Unsupported ==> Load(u, nfkd, combining) == Refused(UnsupportedMessage)
    ensures KindOf(u.filename) != Unsupported && ReadUpload(u).Raises? ==>
      Load(u, nfkd, combining) == Refused(ReadErrorPrefix + ReadUpload(u).message)
    ensures KindOf(u.filename) != Unsupported && ReadUpload(u).Parsed? ==>
      (Load(u, nfkd, combining).Accepted? <==>
       forall x :: x in Required ==>
         exists i :: 0 <= i < |ReadUpload(u).table.columns| &&
           Normalize(ReadUpload(u).table.columns[i], nfkd, combining) == x)
  {
    if KindOf(u.filename) != Unsupported && ReadUpload(u).Parsed? {
      ColumnsAcceptedIff(ReadUpload(u).table, Normalizer(nfkd, combining));
    }
  }

  /** The reply to `/start` (and the run it launches): a 400 with a
      message, or the scraper started with a selection, a product list
      (`None`: the default input file) and the rescan flag. */
  datatype Reply = Rejected(message: string) | Launched(selection: Run.Selection, input: Option<Table>, ignoreCache: bool)

  function Status(r: Reply): nat {
    if r.Rejected? then 400 else 200
  }

  /** An upload counts when a file part with a non-empty name is sent. */
  predicate Uploaded(file: Option<Upload>) {
    file.Some? && file.value.filename != ""
  }

  /** `start_scraper`, given whether the previous scraper thread is alive
      and the log queue: the reply and the queue afterwards (cleared
      exactly when a run is launched). */
  function Start(alive: bool, queue: seq<Stream.Item>, form: Form, file: Option<Upload>,
                 nfkd: string -> string, combining: char -> bool): (out: (Reply, seq<Stream.Item>))
    requires file.Some? ==> ReadersOk(file.value)
    ensures alive ==> out.0 == Rejected(BusyMessage)
    ensures out.0.Rejected? ==> out.1 == queue && Status(out.0) == 400
    ensures out.0.Launched? ==> out.1 == [] && Status(out.0) == 200
    ensures out.0.Launched? ==>
      (out.0.input.Some? <==> Uploaded(file))
      && (Uploaded(file) ==> Load(file.value, nfkd, combining) == Accepted(out.0.input.value))
  {
    if alive then (Rejected(BusyMessage), queue)
    else
      var sel := SelectionOf(form);
      var ignoreCache := Flag(form, "ignore_cache");
      if !Uploaded(file) then (Launched(sel, None, ignoreCache), [])
      else
        match Load(file.value, nfkd, combining)
        case Refused(m) => (Rejected(m), queue)
        case Accepted(df) => (Launched(sel, Some(df), true), [])
  }

  /** A run is launched iff no run is going and the upload, if any, is
      accepted. Each site is selected iff its form field is exactly "on";
      the rescan flag is the form's unless a list was uploaded, which
      always forces a rescan. */
  lemma StartLaunches(alive: bool, queue: seq<Stream.Item>, form: Form, file: Option<Upload>,
                      nfkd: string -> string, combining: char -> bool)
    requires file.Some? ==> ReadersOk(file.value)
    ensures var r := Start(alive, queue, form, file, nfkd, combining).0;
      r.Launched? <==> !alive && (!Uploaded(file) || Load(file.value, nfkd, combining).Accepted?)
    ensures var r := Start(alive, queue, form, file, nfkd, combining).0;
      r.Launched? ==>
        && (forall s :: Run.Selected(r.selection, Run.SiteKey(s)) <==> Flag(form, Run.SiteKey(s)))
        && r.ignoreCache == (Uploaded(file) || Flag(form, "ignore_cache"))
    ensures !alive && Uploaded(file) && Load(file.value, nfkd, combining).Refused? ==>
      Start(alive, queue, form, file, nfkd, combining).0 == Rejected(Load(file.value, nfkd, combining).message)
  {
  }
}
