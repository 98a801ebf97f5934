/**
 * The DAC reference table: the rows of the official ODA definition, the
 * exchange rate implied by the amounts in national currency (`N`) and in
 * current dollars (`A`), the DAC price deflator from current and constant
 * dollars (`A`, `D`), and the GDP-style deflator backed out of them.
 */
module Dac {
  import opened Values
  import opened Frames

  const AidType: string := "aidtype_code"
  const Flows: string := "flows_code"
  const YearColumn: string := "year"
  const DonorCode: string := "donor_code"
  const National: string := "N"
  const Current: string := "A"
  const Constant: string := "D"
  const ExchangeColumn: string := "EXCHANGE"
  const ExchangeDeflator: string := "EXCHANGE_D"
  const DacDeflator: string := "DAC_DEFLATOR"
  const GdpDeflator: string := "NGDP_D"

  /** The year the ODA definition changed from flows to grant equivalents. */
  const RegimeChange: real := 2018.0

  /* ---------------------------------------------------------- _keep_official_definition_only */

  /** The query of lines 29-32 on one row's cells. */
  predicate Official(aid: Value, flows: Value, year: Value) {
    || (Eq(aid, Int(1010)) && Eq(flows, Int(1140)) && LtNum(year, RegimeChange))
    || (Eq(aid, Int(11010)) && Eq(flows, Int(1160)) && GeNum(year, RegimeChange))
  }

  /** The frames the query can read. */
  predicate Queryable(f: Frame) {
    Valid(f) && AidType in f.columns && Flows in f.columns && YearColumn in f.columns
  }

  /** The query as a row test. */
  function OfficialRow(f: Frame): Row -> bool
    requires Queryable(f)
  {
    var a := IndexOf(f.columns, AidType);
    var l := IndexOf(f.columns, Flows);
    var y := IndexOf(f.columns, YearColumn);
    (x: Row) => |x| == |f.columns| && Official(x[a], x[l], x[y])
  }

  /** `_keep_official_definition_only(df)` */
  function KeepOfficialDefinitionOnly(f: Frame): (g: Frame)
    requires Queryable(f)
    ensures Valid(g) && g.columns == f.columns && |g.rows| <= |f.rows|
  {
    WhereLength(f.rows, OfficialRow(f));
    FilterRows(f, OfficialRow(f))
  }

  /** `Where` keeps no more rows than it is given. */
  lemma {:induction false} WhereLength(rows: seq<Row>, p: Row -> bool)
    ensures |Where(rows, p)| <= |rows|
  {
    WherePositions(rows, p);
  }

  /**
   * A row is kept exactly when it is a 1010/1140 row before 2018 or an
   * 11010/1160 row from 2018 on; no row meets both.
   */
  lemma OfficialRowsKept(f: Frame, i: nat)
    requires Queryable(f) && i < |f.rows|
    ensures f.rows[i] in KeepOfficialDefinitionOnly(f).rows <==>
              Official(Cell(f, i, AidType), Cell(f, i, Flows), Cell(f, i, YearColumn))
    ensures !(Eq(Cell(f, i, AidType), Int(1010)) && Eq(Cell(f, i, AidType), Int(11010)))
    ensures i in Positions(f.rows, OfficialRow(f)) <==>
              Official(Cell(f, i, AidType), Cell(f, i, Flows), Cell(f, i, YearColumn))
  {
    if OfficialRow(f)(f.rows[i]) {
      PositionsComplete(f.rows, OfficialRow(f), i);
    }
  }

  /** Every kept row is an official one, and the kept rows come once each, in row order. */
  lemma KeptRowsOfficial(f: Frame, q: nat)
    requires Queryable(f) && q < |KeepOfficialDefinitionOnly(f).rows|
    ensures var g := KeepOfficialDefinitionOnly(f);
            Official(Cell(g, q, AidType), Cell(g, q, Flows), Cell(g, q, YearColumn))
    ensures var ps := Positions(f.rows, OfficialRow(f));
            |KeepOfficialDefinitionOnly(f).rows| == |ps| && KeepOfficialDefinitionOnly(f).rows[q] == f.rows[ps[q]]
  {
    var g := KeepOfficialDefinitionOnly(f);
    assert g.rows[q] in g.rows;
    WherePositions(f.rows, OfficialRow(f));
  }

  /* ---------------------------------------------------------- _compute_exchange */

  /** `donor_code >= 20000`: the DAC aggregates. */
  predicate IsAggregate(code: Value) {
    GeNum(code, 20000.0)
  }

  /** `round(N / A, 6).fillna(1)` on one row. */
  function ExchangeCell(n: Value, a: Value): (r: Value)
    ensures !r.Missing?
    ensures IsNumeric(n) && IsNumeric(a) && Real(a) != 0.0 ==> r == Round(Num(Real(n) / Real(a)), SixDecimals)
    ensures n.Missing? || a.Missing? ==> r == Int(1)
  {
    FillNa(Round(Div(n, a), SixDecimals), Int(1))
  }

  /** An amount divided by itself gives a rate of 1, whatever the amount. */
  lemma ExchangeCellSelf(a: Value)
    ensures Eq(ExchangeCell(a, a), Int(1))
  {
    if IsNumeric(a) && Real(a) != 0.0 {
      DivSelf(a);
      RoundHalfEvenInteger(1, 1000000);
    }
  }

  /** The frames `_compute_exchange` can read. */
  predicate ExchangeReadable(f: Frame) {
    Valid(f) && DonorCode in f.columns && Current in f.columns && National !in [DonorCode, Current]
  }

  /** Which rows are aggregates. */
  function AggregateMask(f: Frame): (m: seq<bool>)
    requires Valid(f) && DonorCode in f.columns
    ensures |m| == |f.rows| && forall i :: 0 <= i < |f.rows| ==> m[i] == IsAggregate(Cell(f, i, DonorCode))
  {
    seq(|f.rows|, i requires 0 <= i < |f.rows| => IsAggregate(Cell(f, i, DonorCode)))
  }

  /** Line 56: aggregates take their current-dollar amount as national amount. */
  function AggregatesAtPar(f: Frame): (g: Frame)
    requires ExchangeReadable(f)
    ensures ExchangeReadable(g) && National in g.columns && |g.rows| == |f.rows|
  {
    Update(f, National, AggregateMask(f), Column(f, Current))
  }

  /** Line 59 on every row. */
  function ExchangeCells(g: Frame): (vs: seq<Value>)
    requires Valid(g) && National in g.columns && Current in g.columns
    ensures |vs| == |g.rows| && forall i :: 0 <= i < |g.rows| ==> vs[i] == ExchangeCell(Cell(g, i, National), Cell(g, i, Current))
  {
    seq(|g.rows|, i requires 0 <= i < |g.rows| => ExchangeCell(Cell(g, i, National), Cell(g, i, Current)))
  }

  /** What `_compute_exchange(df)` leaves in `df`. */
  function Exchanged(f: Frame): (g: Frame)
    requires ExchangeReadable(f)
    ensures Valid(g) && |g.rows| == |f.rows|
  {
    var p := AggregatesAtPar(f);
    Assign(p, ExchangeColumn, ExchangeCells(p))
  }

  /** `_compute_exchange(df)`: two column assignments on the caller's frame. */
  method ComputeExchange(df: Table)
    requires ExchangeReadable(df.frame)
    modifies df
    ensures df.frame == Exchanged(old(df.frame))
  {
    df.SetWhere(National, AggregateMask(df.frame), Column(df.frame, Current));
    df.SetColumn(ExchangeColumn, ExchangeCells(df.frame));
  }

  /**
   * The exchange rate of each row: `round(N / A, 6)`, with the aggregates'
   * `N` replaced by their `A` and a missing rate replaced by 1. Aggregates
   * therefore always get a rate of 1; the other columns but `N` are kept.
   */
  lemma ExchangedCells(f: Frame, i: nat)
    requires ExchangeReadable(f) && i < |f.rows|
    ensures var g := Exchanged(f);
            var n := if IsAggregate(Cell(f, i, DonorCode)) then Cell(f, i, Current)
                     else if National in f.columns then Cell(f, i, National) else Missing;
            && ExchangeColumn in g.columns && National in g.columns
            && Cell(g, i, ExchangeColumn) == ExchangeCell(n, Cell(f, i, Current))
            && (IsAggregate(Cell(f, i, DonorCode)) ==> Eq(Cell(g, i, ExchangeColumn), Int(1)))
            && forall c :: c in f.columns && c != National && c != ExchangeColumn ==> Cell(g, i, c) == Cell(f, i, c)
  {
    ExchangeCellSelf(Cell(f, i, Current));
  }

  /* ---------------------------------------------------------- _compute_dac_deflator */

  /** The frames `_compute_dac_deflator` can read. */
  predicate DeflatorReadable(f: Frame) {
    Valid(f) && Current in f.columns && Constant in f.columns
  }

  /** `round(100 * A / D, 6)` on every row. */
  function DacDeflatorCells(f: Frame): (vs: seq<Value>)
    requires DeflatorReadable(f)
    ensures |vs| == |f.rows| && forall i :: 0 <= i < |f.rows| ==> vs[i] == RebaseCell(Cell(f, i, Current), Cell(f, i, Constant))
  {
    seq(|f.rows|, i requires 0 <= i < |f.rows| => RebaseCell(Cell(f, i, Current), Cell(f, i, Constant)))
  }

  /** `_compute_dac_deflator(df)` */
  method ComputeDacDeflator(df: Table)
    requires DeflatorReadable(df.frame)
    modifies df
    ensures df.frame == Assign(old(df.frame), DacDeflator, DacDeflatorCells(old(df.frame)))
  {
    df.SetColumn(DacDeflator, DacDeflatorCells(df.frame));
  }

  /** Where current and constant dollars agree (the base year), the DAC deflator is 100; a missing amount gives a missing one. */
  lemma DacDeflatorValues(f: Frame, i: nat)
    requires DeflatorReadable(f) && i < |f.rows|
    ensures var g := Assign(f, DacDeflator, DacDeflatorCells(f));
            var a := Cell(f, i, Current);
            var d := Cell(f, i, Constant);
            && Cell(g, i, DacDeflator) == RebaseCell(a, d)
            && (IsNumeric(a) && Real(a) != 0.0 && Eq(a, d) ==> Cell(g, i, DacDeflator) == Num(100.0))
            && (a.Missing? || d.Missing? ==> Cell(g, i, DacDeflator) == Missing)
  {
    var a := Cell(f, i, Current);
    var d := Cell(f, i, Constant);
    if IsNumeric(a) && Real(a) != 0.0 && Eq(a, d) {
      HundredTimesOverOther(a, d);
      RoundHundred(1000000);
    }
  }

  /** `100 * a / d` is 100 when `d` equals `a`, even when one is an integer and the other a float. */
  lemma HundredTimesOverOther(a: Value, d: Value)
    requires IsNumeric(a) && IsNumeric(d) && Real(a) == Real(d) && Real(a) != 0.0
    ensures Div(Mul(Int(100), a), d) == Num(100.0)
  {
    var p := Mul(Int(100), a);
    assert IsNumeric(p) && Real(p) == 100.0 * Real(a);
    MulDivCancel(100.0, Real(a));
  }

  /* ---------------------------------------------------------- _compute_dac_gdp_deflator */

  /** `round(EXCHANGE_D / 100 * DAC_DEFLATOR, 5)` on one row. */
  function GdpDeflatorCell(exchangeD: Value, dacDeflator: Value): Value {
    Round(Mul(Div(exchangeD, Int(100)), dacDeflator), FiveDecimals)
  }

  /** The frames `_compute_dac_gdp_deflator` can read. */
  predicate GdpReadable(f: Frame) {
    Valid(f) && ExchangeDeflator in f.columns && DacDeflator in f.columns
  }

  function GdpDeflatorCells(f: Frame): (vs: seq<Value>)
    requires GdpReadable(f)
    ensures |vs| == |f.rows| &&
            forall i :: 0 <= i < |f.rows| ==> vs[i] == GdpDeflatorCell(Cell(f, i, ExchangeDeflator), Cell(f, i, DacDeflator))
  {
    seq(|f.rows|, i requires 0 <= i < |f.rows| => GdpDeflatorCell(Cell(f, i, ExchangeDeflator), Cell(f, i, DacDeflator)))
  }

  /** `_compute_dac_gdp_deflator(df)` */
  method ComputeDacGdpDeflator(df: Table)
    requires GdpReadable(df.frame)
    modifies df
    ensures df.frame == Assign(old(df.frame), GdpDeflator, GdpDeflatorCells(old(df.frame)))
  {
    df.SetColumn(GdpDeflator, GdpDeflatorCells(df.frame));
  }

  /**
   * The GDP-style deflator is the DAC deflator scaled by the exchange
   * deflator over 100: at the exchange base year (deflator 100) it is the
   * DAC deflator rounded to five decimals; a missing input gives a missing value.
   */
  lemma GdpDeflatorValues(e: Value, d: Value)
    ensures IsNumeric(e) && IsNumeric(d) ==> GdpDeflatorCell(e, d) == Round(Num(Real(e) / 100.0 * Real(d)), FiveDecimals)
    ensures Eq(e, Int(100)) && IsNumeric(d) ==> GdpDeflatorCell(e, d) == Round(Num(Real(d)), FiveDecimals)
    ensures e.Missing? || d.Missing? ==> GdpDeflatorCell(e, d) == Missing
  {
    if IsNumeric(e) && IsNumeric(d) {
      var q := Div(e, Int(100));
      assert q == Num(Real(e) / 100.0);
      assert Mul(q, d) == Num(Real(e) / 100.0 * Real(d));
    }
  }

  /** A row whose amounts agree and whose exchange deflator is 100 gets a GDP deflator of 100. */
  lemma BaseYearGdpDeflator(a: Value, e: Value)
    requires IsNumeric(a) && Real(a) != 0.0 && Eq(e, Int(100))
    ensures GdpDeflatorCell(e, RebaseCell(a, a)) == Num(100.0)
  {
    RebaseCellValues(a);
    GdpDeflatorValues(e, Num(100.0));
    RoundHundred(100000);
  }
}
