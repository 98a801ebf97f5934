/**
 * The two table repairs of the World Bank source: the Euro-area exchange-rate
 * fill (`_eur_series_fix`) and the PPP rows copied from the United States
 * (`_add_ppp_ppp_exchange`). Both work on the downloaded table, before its
 * columns are given the `pydeflate_` prefix.
 */
module WorldBank {
  import opened Wrappers
  import opened Values
  import opened Frames
  import C = Constants

  const Code: string := "entity_code"
  const EntityName: string := "entity"
  const YearColumn: string := "year"
  const Rate: string := "EXCHANGE"
  const Iso3: string := C.Iso3

  const Emu: string := "EMU"
  const Eur: string := "EUR"

  /** The frames `_eur_series_fix` can read. */
  predicate Readable(f: Frame) {
    Valid(f) && Code in f.columns && YearColumn in f.columns && Rate in f.columns
  }

  /** A code the table uses for the Euro area, before or after the renaming. */
  predicate IsEuro(v: Value) {
    v == Text(Eur) || v == Text(Emu)
  }

  /** `d["entity_code"] == "EUR"` */
  predicate IsEurCode(v: Value) {
    v == Text(Eur)
  }

  /** `replace({"EMU": "EUR"})` on one code. */
  function RenamedCode(v: Value): (r: Value)
    ensures r != Text(Emu)
    ensures IsEurCode(r) <==> IsEuro(v)
    ensures !IsEuro(v) ==> r == v
  {
    if v == Text(Emu) then Text(Eur) else v
  }

  function RenamedCodes(f: Frame): (vs: seq<Value>)
    requires Readable(f)
    ensures |vs| == |f.rows| && forall i :: 0 <= i < |f.rows| ==> vs[i] == RenamedCode(Cell(f, i, Code))
  {
    seq(|f.rows|, i requires 0 <= i < |f.rows| => RenamedCode(Cell(f, i, Code)))
  }

  /** Line 89: the table with every "EMU" code renamed "EUR". */
  function Renamed(f: Frame): (g: Frame)
    requires Readable(f)
    ensures Readable(g) && g.columns == f.columns && |g.rows| == |f.rows|
  {
    Assign(f, Code, RenamedCodes(f))
  }

  /** Row `j` is a Euro row of year `y` with a rate (lines 94-95, and the key lookup of line 104). */
  predicate RateAt(f: Frame, j: nat, y: Value, euro: Value -> bool)
    requires Readable(f) && j < |f.rows|
  {
    euro(Cell(f, j, Code)) && !IsNa(Cell(f, j, Rate)) && Eq(Cell(f, j, YearColumn), y)
  }

  /**
   * The last of the first `n` rows that is a Euro row of year `y` with a
   * rate: `to_dict()` keeps the last value of a repeated year.
   */
  function LastRate(f: Frame, y: Value, n: nat, euro: Value -> bool): (r: Option<nat>)
    requires Readable(f) && n <= |f.rows|
    ensures r.Some? ==> r.value < n && RateAt(f, r.value, y, euro)
    ensures r.Some? ==> forall j :: r.value < j < n ==> !RateAt(f, j, y, euro)
    ensures r.None? ==> forall j :: 0 <= j < n ==> !RateAt(f, j, y, euro)
    decreases n
  {
    if n == 0 then None
    else if RateAt(f, n - 1, y, euro) then Some(n - 1)
    else LastRate(f, y, n - 1, euro)
  }

  /** `eur.get(y)`, with a year outside the dictionary mapped to a missing cell. */
  function RateFor(f: Frame, y: Value, euro: Value -> bool): (r: Value)
    requires Readable(f)
    ensures r.Missing? <==> forall j :: 0 <= j < |f.rows| ==> !RateAt(f, j, y, euro)
  {
    match LastRate(f, y, |f.rows|, euro)
    case Some(j) => Cell(f, j, Rate)
    case None => Missing
  }

  /** Line 104: `df["year"].map(eur)` */
  function EurRates(g: Frame): (vs: seq<Value>)
    requires Readable(g)
    ensures |vs| == |g.rows| && forall i :: 0 <= i < |g.rows| ==> vs[i] == RateFor(g, Cell(g, i, YearColumn), IsEurCode)
  {
    seq(|g.rows|, i requires 0 <= i < |g.rows| => RateFor(g, Cell(g, i, YearColumn), IsEurCode))
  }

  /** `isin(emu())` on one code: the members come from a settings file and are a parameter here. */
  predicate IsMember(v: Value, emu: seq<string>) {
    v.Text? && v.s in emu
  }

  /** Line 101: Euro-area members without a rate. */
  function MemberMask(g: Frame, emu: seq<string>): (m: seq<bool>)
    requires Readable(g)
    ensures |m| == |g.rows|
    ensures forall i :: 0 <= i < |g.rows| ==> m[i] == (IsMember(Cell(g, i, Code), emu) && IsNa(Cell(g, i, Rate)))
  {
    seq(|g.rows|, i requires 0 <= i < |g.rows| => IsMember(Cell(g, i, Code), emu) && IsNa(Cell(g, i, Rate)))
  }

  /** What `_eur_series_fix(df)` leaves in `df`, for the Euro-area members `emu`. */
  function EurFixed(f: Frame, emu: seq<string>): (g: Frame)
    requires Readable(f)
    ensures Readable(g) && g.columns == f.columns && |g.rows| == |f.rows|
  {
    var r := Renamed(f);
    Update(r, Rate, MemberMask(r, emu), EurRates(r))
  }

  /** `_eur_series_fix(df)`: a column assignment and a masked `.loc` assignment on the caller's frame. */
  method EurSeriesFix(df: Table, emu: seq<string>)
    requires Readable(df.frame)
    modifies df
    ensures df.frame == EurFixed(old(df.frame), emu)
  {
    df.SetColumn(Code, RenamedCodes(df.frame));
    var eur := EurRates(df.frame);
    var mask := MemberMask(df.frame, emu);
    df.SetWhere(Rate, mask, eur);
  }

  /** A row of the renamed table reads as the original row with its code renamed. */
  lemma RenamedCells(f: Frame, j: nat)
    requires Readable(f) && j < |f.rows|
    ensures Cell(Renamed(f), j, Code) == RenamedCode(Cell(f, j, Code))
    ensures forall c :: c in f.columns && c != Code ==> Cell(Renamed(f), j, c) == Cell(f, j, c)
  {
  }

  /** Looking up "EUR" after the renaming is looking up either Euro code before it. */
  lemma {:induction false} RenamedRates(f: Frame, y: Value, n: nat)
    requires Readable(f) && n <= |f.rows|
    ensures LastRate(Renamed(f), y, n, IsEurCode) == LastRate(f, y, n, IsEuro)
    decreases n
  {
    if n > 0 {
      RenamedRateAt(f, n - 1, y);
      RenamedRates(f, y, n - 1);
    }
  }

  lemma RenamedRateAt(f: Frame, j: nat, y: Value)
    requires Readable(f) && j < |f.rows|
    ensures RateAt(Renamed(f), j, y, IsEurCode) == RateAt(f, j, y, IsEuro)
  {
    RenamedCells(f, j);
  }

  /** The Euro rate for year `y`, read off the table before the fix. */
  function EuroRate(f: Frame, y: Value): (r: Value)
    requires Readable(f)
    ensures r.Missing? <==> forall j :: 0 <= j < |f.rows| ==> !RateAt(f, j, y, IsEuro)
  {
    RateFor(f, y, IsEuro)
  }

  /**
   * Row `i` after the fix, in terms of the table before it: an "EMU" code
   * becomes "EUR"; a Euro-area member without a rate takes the rate of the
   * last Euro row of the same year that has one (missing when there is
   * none); every other rate and every other column is kept.
   */
  lemma EurFixedCells(f: Frame, emu: seq<string>, i: nat)
    requires Readable(f) && i < |f.rows|
    ensures var g := EurFixed(f, emu);
            var code := Cell(f, i, Code);
            && Cell(g, i, Code) == (if code == Text(Emu) then Text(Eur) else code)
            && (IsMember(RenamedCode(code), emu) && IsNa(Cell(f, i, Rate)) ==>
                  Cell(g, i, Rate) == EuroRate(f, Cell(f, i, YearColumn)))
            && (!IsMember(RenamedCode(code), emu) || !IsNa(Cell(f, i, Rate)) ==> Cell(g, i, Rate) == Cell(f, i, Rate))
            && forall c :: c in f.columns && c != Code && c != Rate ==> Cell(g, i, c) == Cell(f, i, c)
  {
    RenamedCells(f, i);
    RenamedRates(f, Cell(f, i, YearColumn), |f.rows|);
  }

  /** The Euro rate found for `y` is the rate of a Euro row of that year. */
  lemma EuroRateFound(f: Frame, y: Value) returns (j: nat)
    requires Readable(f) && !EuroRate(f, y).Missing?
    ensures j < |f.rows| && IsEuro(Cell(f, j, Code)) && Eq(Cell(f, j, YearColumn), y)
    ensures EuroRate(f, y) == Cell(f, j, Rate)
    ensures forall k :: j < k < |f.rows| ==> !RateAt(f, k, y, IsEuro)
  {
    j := LastRate(f, y, |f.rows|, IsEuro).value;
  }

  /** Equal years find a Euro rate alike. */
  lemma SameYear(f: Frame, a: Value, b: Value)
    requires Readable(f) && Eq(a, b)
    ensures EuroRate(f, a).Missing? == EuroRate(f, b).Missing?
  {
    forall j | 0 <= j < |f.rows| ensures RateAt(f, j, a, IsEuro) == RateAt(f, j, b, IsEuro) {
    }
  }

  /** A rate still missing after the fix stays missing on a second fix. */
  lemma StillMissing(f: Frame, emu: seq<string>, i: nat)
    requires Readable(f) && i < |f.rows|
    requires IsMember(RenamedCode(Cell(f, i, Code)), emu) && IsNa(Cell(EurFixed(f, emu), i, Rate))
    ensures EuroRate(EurFixed(f, emu), Cell(f, i, YearColumn)).Missing?
  {
    var g := EurFixed(f, emu);
    var y := Cell(f, i, YearColumn);
    EurFixedCells(f, emu, i);
    assert EuroRate(f, y).Missing?;
    forall j | 0 <= j < |g.rows| ensures !RateAt(g, j, y, IsEuro) {
      EurFixedCells(f, emu, j);
      if IsEuro(Cell(g, j, Code)) && Eq(Cell(g, j, YearColumn), y) {
        assert IsEuro(Cell(f, j, Code)) && Cell(g, j, YearColumn) == Cell(f, j, YearColumn);
        assert !RateAt(f, j, y, IsEuro);
        SameYear(f, Cell(f, j, YearColumn), y);
      }
    }
  }

  /** Fixing a fixed table changes no cell: the fix is idempotent. */
  lemma EurFixedIdempotent(f: Frame, emu: seq<string>, i: nat)
    requires Readable(f) && i < |f.rows|
    ensures var g := EurFixed(f, emu);
            forall c :: c in f.columns ==> Cell(EurFixed(g, emu), i, c) == Cell(g, i, c)
  {
    var g := EurFixed(f, emu);
    EurFixedCells(f, emu, i);
    EurFixedCells(g, emu, i);
    if IsMember(RenamedCode(Cell(f, i, Code)), emu) && IsNa(Cell(g, i, Rate)) {
      StillMissing(f, emu, i);
    }
  }

  /* ---------------------------------------------------------- _add_ppp_ppp_exchange */

  /** The frames `_add_ppp_ppp_exchange` is given: the download step has added the iso3 column. */
  predicate PppReadable(f: Frame) {
    Valid(f) && Code in f.columns && EntityName in f.columns && Iso3 in f.columns
  }

  /** `d["entity_code"] == "USA"` */
  predicate IsUsaRow(f: Frame, row: Row)
    requires Code in f.columns
  {
    |row| > IndexOf(f.columns, Code) && row[IndexOf(f.columns, Code)] == Text(C.UsaCode)
  }

  /** The rows copied: those of the United States, in order. */
  function UsaRows(f: Frame): (g: Frame)
    requires PppReadable(f)
    ensures PppReadable(g) && g.columns == f.columns
  {
    FilterRows(f, row => IsUsaRow(f, row))
  }

  function PppCells(n: nat): (vs: seq<Value>)
    ensures |vs| == n && forall k :: 0 <= k < n ==> vs[k] == Text(C.Ppp)
  {
    seq(n, _ => Text(C.Ppp))
  }

  /** Line 150: the copies relabelled "PPP" in code, name and iso3. */
  function Relabelled(u: Frame): (p: Frame)
    requires PppReadable(u)
    ensures PppReadable(p) && p.columns == u.columns && |p.rows| == |u.rows|
  {
    var n := |u.rows|;
    Assign(Assign(Assign(u, Code, PppCells(n)), EntityName, PppCells(n)), Iso3, PppCells(n))
  }

  /** `_add_ppp_ppp_exchange(df)`: the table followed by the relabelled copies (line 151). */
  function AddPppExchange(f: Frame): (g: Frame)
    requires PppReadable(f)
    ensures PppReadable(g) && g.columns == f.columns && |g.rows| >= |f.rows|
    ensures g.rows[..|f.rows|] == f.rows
  {
    var g := ConcatRows(f, Relabelled(UsaRows(f)));
    assert g.rows[..|f.rows|] == f.rows;
    g
  }

  /** The positions of the United States rows. */
  function UsaPositions(f: Frame): (ps: seq<nat>)
    requires PppReadable(f)
  {
    Positions(f.rows, row => IsUsaRow(f, row))
  }

  /**
   * The table keeps its rows and gains one row per United States row, in
   * their order: the `k`-th added row is the `k`-th United States row with
   * "PPP" as code, name and iso3, and every other cell copied.
   */
  lemma PppRows(f: Frame)
    requires PppReadable(f)
    ensures var g := AddPppExchange(f);
            var ps := UsaPositions(f);
            && |g.rows| == |f.rows| + |ps|
            && (forall m :: 0 <= m < |f.rows| && Cell(f, m, Code) == Text(C.UsaCode) ==> m in ps)
            && forall k :: 0 <= k < |ps| ==>
                 && ps[k] < |f.rows| && Cell(f, ps[k], Code) == Text(C.UsaCode)
                 && Cell(g, |f.rows| + k, Code) == Text(C.Ppp)
                 && Cell(g, |f.rows| + k, EntityName) == Text(C.Ppp)
                 && Cell(g, |f.rows| + k, Iso3) == Text(C.Ppp)
                 && forall c :: c in f.columns && c !in [Code, EntityName, Iso3] ==> Cell(g, |f.rows| + k, c) == Cell(f, ps[k], c)
  {
    var p := row => IsUsaRow(f, row);
    WherePositions(f.rows, p);
    forall m | 0 <= m < |f.rows| && Cell(f, m, Code) == Text(C.UsaCode) ensures m in UsaPositions(f) {
      PositionsComplete(f.rows, p, m);
    }
    var u := UsaRows(f);
    forall k | 0 <= k < |u.rows|
      ensures forall c :: c in f.columns ==> Cell(u, k, c) == Cell(f, UsaPositions(f)[k], c)
    {
    }
    forall k | 0 <= k < |u.rows| { RelabelledCells(u, k); }
    AddedCells(f);
  }

  /** A relabelled copy differs from its row in code, name and iso3 only. */
  lemma RelabelledCells(u: Frame, k: nat)
    requires PppReadable(u) && k < |u.rows|
    ensures var p := Relabelled(u);
            && Cell(p, k, Code) == Text(C.Ppp) && Cell(p, k, EntityName) == Text(C.Ppp) && Cell(p, k, Iso3) == Text(C.Ppp)
            && forall c :: c in u.columns && c !in [Code, EntityName, Iso3] ==> Cell(p, k, c) == Cell(u, k, c)
  {
  }

  /** The added rows are the relabelled copies. */
  lemma AddedCells(f: Frame)
    requires PppReadable(f)
    ensures var p := Relabelled(UsaRows(f));
            forall k, c :: 0 <= k < |p.rows| && c in f.columns ==> Cell(AddPppExchange(f), |f.rows| + k, c) == Cell(p, k, c)
  {
  }
}
