/** The per-site worker (`worker_site`): it walks the ledger's rows in
    order, looks up every row whose price for the site is still open, and
    turns each lookup result into a record for consolidation. The browser,
    the site searches and NINI's login are the worker's environment. */
module Worker {
  import opened Wrappers
  import opened Text
  import opened Ledger

  // ----- Which rows are looked up -----

  /** The price texts that mean "look this row up (again)". */
  predicate IsOpenStatus(text: string) {
    text == "Pendiente" || text == "No encontrado" || text == "Error"
  }

  /** `str(row.get("Precio <SITE>", "Pendiente")) in ["Pendiente", "No encontrado", "Error"]` */
  predicate Eligible(row: Row, s: Site) {
    IsOpenStatus(Render(Get(row, PriceColumn(s), Str("Pendiente"))))
  }

  /** A row is looked up iff its price cell is absent or holds one of the
      three open texts; a null cell renders as "nan" and is skipped, as is
      every other text. */
  lemma EligibleCells(row: Row, s: Site)
    ensures Eligible(row, s) <==>
      PriceColumn(s) !in row || row[PriceColumn(s)] == Str("Pendiente")
      || row[PriceColumn(s)] == Str("No encontrado") || row[PriceColumn(s)] == Str("Error")
    ensures PriceColumn(s) in row && row[PriceColumn(s)] == Missing ==> !Eligible(row, s)
  {
  }

  /** The eligible row numbers from `from` on, in row order. */
  function EligibleFrom(t: Table, s: Site, from: nat): (ks: seq<nat>)
    requires from <= |t.rows|
    ensures forall j :: 0 <= j < |ks| ==> from <= ks[j] < |t.rows| && Eligible(t.rows[ks[j]], s)
    ensures forall j, j' :: 0 <= j < j' < |ks| ==> ks[j] < ks[j']
    ensures forall k :: from <= k < |t.rows| && Eligible(t.rows[k], s) ==> k in ks
    decreases |t.rows| - from
  {
    if from == |t.rows| then []
    else
      var rest := EligibleFrom(t, s, from + 1);
      if Eligible(t.rows[from], s) then
        AscendingCons(from, rest);
        [from] + rest
      else rest
  }

  lemma AscendingCons(k: nat, ks: seq<nat>)
    requires forall j :: 0 <= j < |ks| ==> k < ks[j]
    requires forall j, j' :: 0 <= j < j' < |ks| ==> ks[j] < ks[j']
    ensures forall j, j' :: 0 <= j < j' < |[k] + ks| ==> ([k] + ks)[j] < ([k] + ks)[j']
  {
  }

  // ----- Lookup results -----

  /** What one `buscar_precio_<site>` call gives: a string, a tuple of
      strings, or an exception with its message. */
  datatype Outcome = Plain(text: string) | Tuple(parts: seq<string>) | Raised(message: string)

  /** A lookup result unpacked the way the worker unpacks it. */
  datatype Step = Found(precio: string, oferta: string, dinamica: Option<string>) | Failed(message: string)

  /** `str(e)` of the IndexError raised by `res[1]` on a short tuple. */
  const ShortTupleMessage: string := "tuple index out of range"

  /** `precio, oferta = res[0], res[1]` (plus `res[2] if len(res) > 2 else ''`
      for VEA and DISCO) for a tuple; the string itself with empty offer for
      a plain result. */
  function Unpack(o: Outcome, s: Site): Step {
    match o
    case Plain(v) => Found(v, "", DynamicPart(s, []))
    case Tuple(parts) => if |parts| < 2 then Failed(ShortTupleMessage) else Found(parts[0], parts[1], DynamicPart(s, parts))
    case Raised(m) => Failed(m)
  }

  /** `res[2] if len(res) > 2 else ''`, for the sites that record it. */
  function DynamicPart(s: Site, parts: seq<string>): Option<string> {
    if HasDynamic(s) then Some(if |parts| > 2 then parts[2] else "") else None
  }

  /** One entry of `site_results`. `dinamica` is present for VEA and DISCO only. */
  datatype Record = Record(idx: nat, sku: Cell, precio: string, oferta: string, dinamica: Option<string>)

  /** The error text of a crashed browser tab, tested on `str(e).lower()`. */
  predicate Crashed(message: string) {
    Contains(Lower(message), "tab crashed") || Contains(Lower(message), "session deleted")
  }

  /** The worker's environment. `configure(n)` tells whether this worker's
      n-th call of `configurar_driver` returns a driver (the driver is then
      known by the number n); `orderReady` is whether NINI's login and order
      set-up succeed; `lookup(d, k, sku)` is what the site's search gives for
      row k on driver d. */
  datatype SiteEnv = SiteEnv(configure: nat -> bool, orderReady: bool, lookup: (nat, nat, Cell) -> Outcome)

  function Cons(r: Record, rest: Option<seq<Record>>): Option<seq<Record>> {
    if rest.None? then None else Some([r] + rest.value)
  }

  /** How the loop gets past one eligible row: it escapes, or it keeps a
      record and goes on with a driver (the same one, or a new one). */
  datatype Next = Escape | Go(rec: Record, driver: nat, calls: nat)

  /** One eligible row with SKU `sku`, looked up on `driver`. NINI,
      CARREFOUR and VEA let any error escape. DISCO catches its lookup
      errors: a crashed tab records 'Error' and restarts the browser (a
      failed restart escapes), any other error records 'No encontrado'. */
  function RowStep(s: Site, env: SiteEnv, driver: nat, calls: nat, k: nat, sku: Cell): (n: Next)
    ensures n.Go? ==> n.rec.idx == k && n.rec.sku == sku
    ensures n.Go? ==> (n.driver == driver && n.calls == calls) || (n.driver == calls && n.calls == calls + 1)
  {
    match Unpack(env.lookup(driver, k, sku), s)
    case Found(p, o, d) => Go(Record(k, sku, p, o, d), driver, calls)
    case Failed(m) =>
      if s != Disco then Escape
      else if !Crashed(m) then Go(Record(k, sku, "No encontrado", "", Some("")), driver, calls)
      else if env.configure(calls) then Go(Record(k, sku, "Error", "", Some("")), calls, calls + 1)
      else Escape
  }

  /** The row loop from row `from` on, on driver `driver`, after `calls`
      calls of `configurar_driver`. `None` when an exception escapes the
      loop: a row without SKU, or an escaping lookup. */
  function Walk(s: Site, t: Table, env: SiteEnv, driver: nat, calls: nat, from: nat): Option<seq<Record>>
    requires from <= |t.rows|
    decreases |t.rows| - from
  {
    if from == |t.rows| then Some([])
    else if !Eligible(t.rows[from], s) then Walk(s, t, env, driver, calls, from + 1)
    else if "SKU" !in t.rows[from] then None
    else
      var n := RowStep(s, env, driver, calls, from, t.rows[from]["SKU"]);
      if n.Escape? then None else Cons(n.rec, Walk(s, t, env, n.driver, n.calls, from + 1))
  }

  /** Prepending a record for row k to records for the rows `ks`. */
  lemma ConsIndices(r: Record, rest: seq<Record>, ks: seq<nat>)
    requires |rest| == |ks| && forall j :: 0 <= j < |rest| ==> rest[j].idx == ks[j]
    ensures |[r] + rest| == |[r.idx] + ks|
    ensures forall j :: 0 <= j < |[r] + rest| ==> ([r] + rest)[j].idx == ([r.idx] + ks)[j]
  {
  }

  /** A completed loop holds one record per eligible row, in row order,
      whatever the lookups gave. */
  lemma {:induction false} WalkIndices(s: Site, t: Table, env: SiteEnv, driver: nat, calls: nat, from: nat)
    requires from <= |t.rows|
    ensures var r := Walk(s, t, env, driver, calls, from);
      r.Some? ==>
        && |r.value| == |EligibleFrom(t, s, from)|
        && forall j :: 0 <= j < |r.value| ==> r.value[j].idx == EligibleFrom(t, s, from)[j]
    decreases |t.rows| - from
  {
    if from < |t.rows| {
      WalkAt(s, t, env, driver, calls, from);
      if !Eligible(t.rows[from], s) {
        WalkIndices(s, t, env, driver, calls, from + 1);
      } else if "SKU" in t.rows[from] {
        var n := RowStep(s, env, driver, calls, from, t.rows[from]["SKU"]);
        if n.Go? {
          WalkIndices(s, t, env, n.driver, n.calls, from + 1);
          var rest := Walk(s, t, env, n.driver, n.calls, from + 1);
          if rest.Some? {
            ConsIndices(n.rec, rest.value, EligibleFrom(t, s, from + 1));
          }
        }
      }
    }
  }

  /** `results_dict[site]` after `worker_site`: two tries to get a driver,
      NINI's order set-up, then the row loop; `[]` whenever the worker
      gives up or an exception escapes. Otherwise exactly one record per
      eligible row, in row order. */
  function WorkerSite(s: Site, t: Table, env: SiteEnv): seq<Record> {
    if env.configure(0) then OnDriver(s, t, env, 0)
    else if env.configure(1) then OnDriver(s, t, env, 1)
    else []
  }

  /** The worker once driver d (the d-th call's) is up. */
  function OnDriver(s: Site, t: Table, env: SiteEnv, d: nat): seq<Record> {
    if s == Nini && !env.orderReady then []
    else
      var r := Walk(s, t, env, d, d + 1, 0);
      if r.None? then [] else r.value
  }

  /** Every record names an eligible row, and a worker that did not give
      up has one record per eligible row, in row order. */
  lemma WorkerSiteIndices(s: Site, t: Table, env: SiteEnv)
    ensures var rs := WorkerSite(s, t, env);
      forall j :: 0 <= j < |rs| ==> rs[j].idx < |t.rows| && Eligible(t.rows[rs[j].idx], s)
    ensures var rs := WorkerSite(s, t, env);
      rs != [] ==> |rs| == |EligibleFrom(t, s, 0)| && forall j :: 0 <= j < |rs| ==> rs[j].idx == EligibleFrom(t, s, 0)[j]
  {
    if env.configure(0) {
      WalkIndices(s, t, env, 0, 1, 0);
    } else if env.configure(1) {
      WalkIndices(s, t, env, 1, 2, 0);
    }
  }

  // ----- What the records hold -----

  /** The record kept for row k when its lookup does not escape: the
      unpacked result, or 'No encontrado' for a caught DISCO error. */
  function RecordFor(k: nat, sku: Cell, st: Step): Record {
    match st
    case Found(p, o, d) => Record(k, sku, p, o, d)
    case Failed(_) => Record(k, sku, "No encontrado", "", Some(""))
  }

  /** A lookup step the loop gets past without a new driver. */
  predicate Settles(s: Site, st: Step) {
    st.Found? || (s == Disco && !Crashed(st.message))
  }

  /** Row k, when eligible, has a SKU and settles on `driver`. */
  predicate RowSettles(s: Site, t: Table, env: SiteEnv, driver: nat, k: nat)
    requires k < |t.rows|
  {
    Eligible(t.rows[k], s) ==>
      "SKU" in t.rows[k] && Settles(s, Unpack(env.lookup(driver, k, t.rows[k]["SKU"]), s))
  }

  /** Every row from `from` on settles. */
  predicate Steady(s: Site, t: Table, env: SiteEnv, driver: nat, from: nat)
    requires from <= |t.rows|
  {
    forall k :: from <= k < |t.rows| ==> RowSettles(s, t, env, driver, k)
  }

  lemma SteadyStep(s: Site, t: Table, env: SiteEnv, driver: nat, from: nat)
    requires from < |t.rows|
    ensures Steady(s, t, env, driver, from) <==>
      RowSettles(s, t, env, driver, from) && Steady(s, t, env, driver, from + 1)
  {
  }

  /** The record expected for row k from its own lookup on `driver`. */
  function ExpectedAt(s: Site, t: Table, env: SiteEnv, driver: nat, k: nat): Record
    requires k < |t.rows|
  {
    var sku := Get(t.rows[k], "SKU", Missing);
    RecordFor(k, sku, Unpack(env.lookup(driver, k, sku), s))
  }

  /** The records expected for the rows `ks`, in that order. */
  function RecordsAt(s: Site, t: Table, env: SiteEnv, driver: nat, ks: seq<nat>): seq<Record>
    requires forall j :: 0 <= j < |ks| ==> ks[j] < |t.rows|
  {
    seq(|ks|, j requires 0 <= j < |ks| => ExpectedAt(s, t, env, driver, ks[j]))
  }

  lemma RecordsAtCons(s: Site, t: Table, env: SiteEnv, driver: nat, k: nat, ks: seq<nat>)
    requires k < |t.rows| && forall j :: 0 <= j < |ks| ==> ks[j] < |t.rows|
    ensures RecordsAt(s, t, env, driver, [k] + ks) ==
      [ExpectedAt(s, t, env, driver, k)] + RecordsAt(s, t, env, driver, ks)
  {
  }

  /** The records expected from the eligible rows, in row order. */
  function Expected(s: Site, t: Table, env: SiteEnv, driver: nat, from: nat): seq<Record>
    requires from <= |t.rows|
  {
    RecordsAt(s, t, env, driver, EligibleFrom(t, s, from))
  }

  lemma ExpectedSkip(s: Site, t: Table, env: SiteEnv, driver: nat, from: nat)
    requires from < |t.rows| && !Eligible(t.rows[from], s)
    ensures Expected(s, t, env, driver, from) == Expected(s, t, env, driver, from + 1)
  {
  }

  lemma ExpectedCons(s: Site, t: Table, env: SiteEnv, driver: nat, from: nat)
    requires from < |t.rows| && Eligible(t.rows[from], s)
    ensures Expected(s, t, env, driver, from) ==
      [ExpectedAt(s, t, env, driver, from)] + Expected(s, t, env, driver, from + 1)
  {
    assert EligibleFrom(t, s, from) == [from] + EligibleFrom(t, s, from + 1);
    RecordsAtCons(s, t, env, driver, from, EligibleFrom(t, s, from + 1));
  }

  /** One turn of the row loop. */
  lemma WalkAt(s: Site, t: Table, env: SiteEnv, driver: nat, calls: nat, from: nat)
    requires from < |t.rows|
    ensures !Eligible(t.rows[from], s) ==>
      Walk(s, t, env, driver, calls, from) == Walk(s, t, env, driver, calls, from + 1)
    ensures Eligible(t.rows[from], s) && "SKU" !in t.rows[from] ==>
      Walk(s, t, env, driver, calls, from).None?
    ensures Eligible(t.rows[from], s) && "SKU" in t.rows[from] ==>
      var n := RowStep(s, env, driver, calls, from, t.rows[from]["SKU"]);
      Walk(s, t, env, driver, calls, from) ==
        if n.Escape? then None else Cons(n.rec, Walk(s, t, env, n.driver, n.calls, from + 1))
  {
  }

  /** A settling lookup keeps its record and the driver. */
  lemma RowStepSettles(s: Site, env: SiteEnv, driver: nat, calls: nat, k: nat, sku: Cell)
    requires Settles(s, Unpack(env.lookup(driver, k, sku), s))
    ensures RowStep(s, env, driver, calls, k, sku) ==
      Go(RecordFor(k, sku, Unpack(env.lookup(driver, k, sku), s)), driver, calls)
  {
  }

  /** For NINI, CARREFOUR and VEA a lookup that does not settle escapes. */
  lemma RowStepEscapes(s: Site, env: SiteEnv, driver: nat, calls: nat, k: nat, sku: Cell)
    requires s != Disco && !Settles(s, Unpack(env.lookup(driver, k, sku), s))
    ensures RowStep(s, env, driver, calls, k, sku).Escape?
  {
  }

  /** One row step reads the lookup on the current driver and the restart
      numbered `calls`, nothing else. */
  lemma RowStepFrame(s: Site, env1: SiteEnv, env2: SiteEnv, driver: nat, calls: nat, k: nat, sku: Cell)
    requires env1.configure(calls) == env2.configure(calls)
    requires env1.lookup(driver, k, sku) == env2.lookup(driver, k, sku)
    ensures RowStep(s, env1, driver, calls, k, sku) == RowStep(s, env2, driver, calls, k, sku)
  {
  }

  /** When every eligible row settles, the loop completes on the same
      driver and yields exactly the expected records. */
  lemma {:induction false} WalkSteady(s: Site, t: Table, env: SiteEnv, driver: nat, calls: nat, from: nat)
    requires from <= |t.rows| && Steady(s, t, env, driver, from)
    ensures Walk(s, t, env, driver, calls, from) == Some(Expected(s, t, env, driver, from))
    decreases |t.rows| - from
  {
    if from < |t.rows| {
      SteadyStep(s, t, env, driver, from);
      WalkSteady(s, t, env, driver, calls, from + 1);
      if Eligible(t.rows[from], s) {
        RowStepSettles(s, env, driver, calls, from, t.rows[from]["SKU"]);
        ExpectedCons(s, t, env, driver, from);
      } else {
        ExpectedSkip(s, t, env, driver, from);
      }
    }
  }

  /** For NINI, CARREFOUR and VEA one eligible row without SKU, or one
      failed lookup, loses the whole site. */
  lemma {:induction false} WalkEscapes(s: Site, t: Table, env: SiteEnv, driver: nat, calls: nat, from: nat)
    requires from <= |t.rows| && s != Disco && !Steady(s, t, env, driver, from)
    ensures Walk(s, t, env, driver, calls, from).None?
    decreases |t.rows| - from
  {
    if from == |t.rows| {
      assert false;
    } else {
      SteadyStep(s, t, env, driver, from);
      WalkAt(s, t, env, driver, calls, from);
      var row := t.rows[from];
      if RowSettles(s, t, env, driver, from) {
        if Eligible(row, s) {
          RowStepSettles(s, env, driver, calls, from, row["SKU"]);
        }
        WalkEscapes(s, t, env, driver, calls, from + 1);
      } else if "SKU" in row {
        RowStepEscapes(s, env, driver, calls, from, row["SKU"]);
      }
    }
  }

  /** For NINI, CARREFOUR and VEA the loop completes iff every eligible row
      has a SKU and its lookup unpacks to a price. */
  lemma WalkCompletes(s: Site, t: Table, env: SiteEnv, driver: nat, calls: nat, from: nat)
    requires from <= |t.rows| && s != Disco
    ensures Walk(s, t, env, driver, calls, from).Some? <==> Steady(s, t, env, driver, from)
  {
    if Steady(s, t, env, driver, from) {
      WalkSteady(s, t, env, driver, calls, from);
    } else {
      WalkEscapes(s, t, env, driver, calls, from);
    }
  }

  /** DISCO never loses its results while restarting the browser succeeds:
      every eligible row with a SKU gets a record, whatever its lookup does. */
  lemma {:induction false} DiscoCompletes(t: Table, env: SiteEnv, driver: nat, calls: nat, from: nat)
    requires from <= |t.rows|
    requires forall k :: from <= k < |t.rows| && Eligible(t.rows[k], Disco) ==> "SKU" in t.rows[k]
    requires forall n :: n >= calls ==> env.configure(n)
    ensures Walk(Disco, t, env, driver, calls, from).Some?
    decreases |t.rows| - from
  {
    if from < |t.rows| {
      WalkAt(Disco, t, env, driver, calls, from);
      if Eligible(t.rows[from], Disco) {
        var n := RowStep(Disco, env, driver, calls, from, t.rows[from]["SKU"]);
        DiscoStepGoes(env, driver, calls, from, t.rows[from]["SKU"]);
        DiscoCompletes(t, env, n.driver, n.calls, from + 1);
      } else {
        DiscoCompletes(t, env, driver, calls, from + 1);
      }
    }
  }

  /** DISCO gets past every row while restarts succeed. */
  lemma DiscoStepGoes(env: SiteEnv, driver: nat, calls: nat, k: nat, sku: Cell)
    requires env.configure(calls)
    ensures RowStep(Disco, env, driver, calls, k, sku).Go?
    ensures RowStep(Disco, env, driver, calls, k, sku).calls >= calls
  {
  }

  /** A DISCO crash at row `from`: the row records 'Error' and the rest of
      the loop runs on the driver the restart returned; a failed restart
      loses the site. */
  lemma DiscoCrash(t: Table, env: SiteEnv, driver: nat, calls: nat, from: nat)
    requires from < |t.rows| && Eligible(t.rows[from], Disco) && "SKU" in t.rows[from]
    requires Unpack(env.lookup(driver, from, t.rows[from]["SKU"]), Disco).Failed?
    requires Crashed(Unpack(env.lookup(driver, from, t.rows[from]["SKU"]), Disco).message)
    ensures env.configure(calls) ==>
      Walk(Disco, t, env, driver, calls, from) ==
      Cons(Record(from, t.rows[from]["SKU"], "Error", "", Some("")), Walk(Disco, t, env, calls, calls + 1, from + 1))
    ensures !env.configure(calls) ==> Walk(Disco, t, env, driver, calls, from).None?
  {
  }

  /** The loop only ever talks to the current driver and to drivers made
      later: a driver replaced after a crash is never used again. */
  lemma {:induction false} WalkUsesLiveDrivers(s: Site, t: Table, env1: SiteEnv, env2: SiteEnv, driver: nat, calls: nat, from: nat)
    requires from <= |t.rows| && driver < calls
    requires forall n :: env1.configure(n) == env2.configure(n)
    requires forall d, k, sku :: d == driver || d >= calls ==> env1.lookup(d, k, sku) == env2.lookup(d, k, sku)
    ensures Walk(s, t, env1, driver, calls, from) == Walk(s, t, env2, driver, calls, from)
    decreases |t.rows| - from
  {
    if from < |t.rows| {
      WalkAt(s, t, env1, driver, calls, from);
      WalkAt(s, t, env2, driver, calls, from);
      if Eligible(t.rows[from], s) && "SKU" in t.rows[from] {
        var sku := t.rows[from]["SKU"];
        RowStepFrame(s, env1, env2, driver, calls, from, sku);
        var n := RowStep(s, env1, driver, calls, from, sku);
        if n.Go? {
          WalkUsesLiveDrivers(s, t, env1, env2, n.driver, n.calls, from + 1);
        }
      } else {
        WalkUsesLiveDrivers(s, t, env1, env2, driver, calls, from + 1);
      }
    }
  }

  /** The worker gives up with `[]` when no driver comes up in two tries and
      when NINI's order set-up fails. */
  lemma WorkerGivesUp(s: Site, t: Table, env: SiteEnv)
    requires (!env.configure(0) && !env.configure(1)) || (s == Nini && !env.orderReady)
    ensures WorkerSite(s, t, env) == []
  {
  }

  /** With a driver from the first or the second try (NINI: and its order
      set up) and a steady row loop, the worker returns exactly the
      expected records. */
  lemma WorkerSteady(s: Site, t: Table, env: SiteEnv, d: nat)
    requires (d == 0 && env.configure(0)) || (d == 1 && !env.configure(0) && env.configure(1))
    requires s != Nini || env.orderReady
    requires Steady(s, t, env, d, 0)
    ensures WorkerSite(s, t, env) == Expected(s, t, env, d, 0)
  {
    WalkSteady(s, t, env, d, d + 1, 0);
  }

  /** What a record holds: a plain result is the price with empty offer; a
      tuple gives price and offer (and for VEA and DISCO the third part or
      ''); a caught DISCO error gives 'No encontrado'. */
  lemma RecordContents(s: Site, k: nat, sku: Cell, o: Outcome)
    ensures o.Plain? ==>
      RecordFor(k, sku, Unpack(o, s)) == Record(k, sku, o.text, "", if HasDynamic(s) then Some("") else None)
    ensures o.Tuple? && |o.parts| >= 2 ==>
      RecordFor(k, sku, Unpack(o, s)) == Record(k, sku, o.parts[0], o.parts[1],
        if !HasDynamic(s) then None else if |o.parts| > 2 then Some(o.parts[2]) else Some(""))
    ensures o.Tuple? && |o.parts| < 2 ==> !Settles(s, Unpack(o, s)) || RecordFor(k, sku, Unpack(o, s)).precio == "No encontrado"
    ensures o.Raised? && s == Disco && !Crashed(o.message) ==> RecordFor(k, sku, Unpack(o, s)).precio == "No encontrado"
    ensures o.Raised? && s != Disco ==> !Settles(s, Unpack(o, s))
  {
  }
}
