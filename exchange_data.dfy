/**
 * The legacy exchange-rate classes (`pydeflate.get_data.exchange_data`):
 * rates against the US dollar in either direction, rates against another
 * currency, the exchange ratio of two currencies and the exchange deflator
 * rebased to a year. Their tables have the fixed columns `iso_code`,
 * `year` and `value`, so a row is a record here.
 */
module LegacyExchange {
  import opened Wrappers
  import opened Strings
  import opened Values
  import opened Exceptions
  import Exchanges

  /** One row: a currency, the year of its date, a value. */
  datatype Rate = Rate(iso: string, year: int, value: Value)

  /* ---------------------------------------------------------- left merges */

  /** The rows of `right` that `same` pairs with `l`, in order. */
  function Matches(l: Rate, right: seq<Rate>, same: (Rate, Rate) -> bool): (ms: seq<Rate>)
    ensures forall m :: m in ms <==> m in right && same(l, m)
    ensures |ms| <= |right|
  {
    if right == [] then []
    else (if same(l, right[0]) then [right[0]] else []) + Matches(l, right[1..], same)
  }

  /** A left row paired with each of its matches, or once with a missing value when it has none. */
  function Combined(l: Rate, ms: seq<Rate>, op: (Value, Value) -> Value): (rs: seq<Rate>)
    ensures |rs| == if ms == [] then 1 else |ms|
    ensures ms == [] ==> rs == [Rate(l.iso, l.year, op(l.value, Missing))]
    ensures forall k :: 0 <= k < |ms| ==> rs[k] == Rate(l.iso, l.year, op(l.value, ms[k].value))
  {
    if ms == [] then [Rate(l.iso, l.year, op(l.value, Missing))]
    else seq(|ms|, k requires 0 <= k < |ms| => Rate(l.iso, l.year, op(l.value, ms[k].value)))
  }

  /**
   * `left.merge(right, how="left", on=…)` followed by
   * `value = op(value, <right value>)` and the drop of the right columns:
   * left order, then right order of the matches.
   */
  function LeftMerge(left: seq<Rate>, right: seq<Rate>, same: (Rate, Rate) -> bool, op: (Value, Value) -> Value): (rs: seq<Rate>)
    ensures |rs| >= |left|
  {
    if left == [] then []
    else Combined(left[0], Matches(left[0], right, same), op) + LeftMerge(left[1..], right, same, op)
  }

  /** The value of the one match of `l`, missing when there is none. */
  function Partner(l: Rate, right: seq<Rate>, same: (Rate, Rate) -> bool): Value {
    var ms := Matches(l, right, same);
    if ms == [] then Missing else ms[0].value
  }

  /** Every left row meets at most one right row. */
  predicate OneToOne(left: seq<Rate>, right: seq<Rate>, same: (Rate, Rate) -> bool) {
    forall k :: 0 <= k < |left| ==> |Matches(left[k], right, same)| <= 1
  }

  /** A merge in which no left row has two matches keeps the left rows one for one. */
  lemma {:induction false} LeftMergeOneToOne(left: seq<Rate>, right: seq<Rate>, same: (Rate, Rate) -> bool, op: (Value, Value) -> Value)
    requires OneToOne(left, right, same)
    ensures |LeftMerge(left, right, same, op)| == |left|
    ensures forall k :: 0 <= k < |left| ==>
              LeftMerge(left, right, same, op)[k] == Rate(left[k].iso, left[k].year, op(left[k].value, Partner(left[k], right, same)))
  {
    if left != [] {
      assert |Matches(left[0], right, same)| <= 1;
      assert forall k :: 0 <= k < |left| - 1 ==> left[1..][k] == left[k + 1];
      LeftMergeOneToOne(left[1..], right, same, op);
    }
  }

  /** A row that `same` pairs with no right row has no match. */
  lemma {:induction false} NoMatch(l: Rate, right: seq<Rate>, same: (Rate, Rate) -> bool)
    requires forall j :: 0 <= j < |right| ==> !same(l, right[j])
    ensures Matches(l, right, same) == []
  {
    if right != [] {
      NoMatch(l, right[1..], same);
    }
  }

  /** A right side whose rows `same` never pairs twice with `l` gives `l` at most one match. */
  lemma {:induction false} AtMostOneMatch(l: Rate, right: seq<Rate>, same: (Rate, Rate) -> bool)
    requires forall i, j :: 0 <= i < j < |right| && same(l, right[i]) ==> !same(l, right[j])
    ensures |Matches(l, right, same)| <= 1
  {
    if right != [] {
      if same(l, right[0]) {
        NoMatch(l, right[1..], same);
      } else {
        AtMostOneMatch(l, right[1..], same);
      }
    }
  }

  /** The one match of a row that matches itself is the row. */
  lemma OwnPartner(l: Rate, right: seq<Rate>, same: (Rate, Rate) -> bool)
    requires l in right && same(l, l) && |Matches(l, right, same)| <= 1
    ensures Partner(l, right, same) == l.value
  {
    var ms := Matches(l, right, same);
    assert l in ms;
  }

  /** The rows satisfying `p`, in order (`query`). */
  function Select(rows: seq<Rate>, p: Rate -> bool): (rs: seq<Rate>)
    ensures forall r :: r in rs <==> r in rows && p(r)
    ensures |rs| <= |rows|
  {
    if rows == [] then []
    else (if p(rows[0]) then [rows[0]] else []) + Select(rows[1..], p)
  }

  predicate SameKey(a: Rate, b: Rate) { a.year == b.year && a.iso == b.iso }
  predicate SameYear(a: Rate, b: Rate) { a.year == b.year }
  predicate SameIso(a: Rate, b: Rate) { a.iso == b.iso }

  /** No two rows share a year. */
  predicate YearsDistinct(rows: seq<Rate>) {
    forall i, j :: 0 <= i < j < |rows| ==> rows[i].year != rows[j].year
  }

  /** No two rows share a currency. */
  predicate IsosDistinct(rows: seq<Rate>) {
    forall i, j :: 0 <= i < j < |rows| ==> rows[i].iso != rows[j].iso
  }

  /** No two rows share a year and a currency. */
  predicate KeysDistinct(rows: seq<Rate>) {
    forall i, j :: 0 <= i < j < |rows| ==> !SameKey(rows[i], rows[j])
  }

  /* ---------------------------------------------------------- _exchange_ratio */

  /** `_exchange_ratio(source_xe, target_xe)`: source value over target value, by year and currency. */
  function ExchangeRatio(source: seq<Rate>, target: seq<Rate>): seq<Rate> {
    LeftMerge(source, target, SameKey, Div)
  }

  /**
   * With one target row per year and currency, every source row stays, in
   * order, and its value becomes its ratio to the target's value for the
   * same year and currency (missing when the target has none).
   */
  lemma ExchangeRatioRows(source: seq<Rate>, target: seq<Rate>)
    requires KeysDistinct(target)
    ensures var r := ExchangeRatio(source, target);
            && |r| == |source|
            && forall k :: 0 <= k < |source| ==>
                 r[k] == Rate(source[k].iso, source[k].year, Div(source[k].value, Partner(source[k], target, SameKey)))
  {
    forall k | 0 <= k < |source| ensures |Matches(source[k], target, SameKey)| <= 1 {
      AtMostOneMatch(source[k], target, SameKey);
    }
    LeftMergeOneToOne(source, target, SameKey, Div);
  }

  /** The value a source row is divided by is the target's value for its year and currency. */
  lemma RatioPartner(l: Rate, target: seq<Rate>, j: nat)
    requires KeysDistinct(target) && j < |target| && SameKey(l, target[j])
    ensures Partner(l, target, SameKey) == target[j].value
  {
    AtMostOneMatch(l, target, SameKey);
    assert target[j] in Matches(l, target, SameKey);
  }

  /* ---------------------------------------------------------- _calculate_deflator */

  /** Line 27: the rows dated in the base year. */
  function BaseRows(xe: seq<Rate>, baseYear: int): (rs: seq<Rate>)
    ensures forall r :: r in rs <==> r in xe && r.year == baseYear
  {
    Select(xe, (r: Rate) => r.year == baseYear)
  }

  /**
   * `_calculate_deflator(xe, base_year)`: `ValueError` without base-year
   * rows; otherwise `round(100 * value / base value, 6)`, the base value
   * being that of the row's currency in the base year.
   */
  function CalculateDeflator(xe: seq<Rate>, baseYear: int): (r: Outcome<seq<Rate>>)
    ensures r.Fail? <==> forall k :: 0 <= k < |xe| ==> xe[k].year != baseYear
    ensures r.Fail? ==> r.error == Error(ValueError, "No currency exchange data for base_year=" + IntToString(baseYear))
    ensures r.Ok? ==> r.value == LeftMerge(xe, BaseRows(xe, baseYear), SameIso, RebaseCell)
  {
    var base := BaseRows(xe, baseYear);
    if |base| == 0 then
      assert forall k :: 0 <= k < |xe| ==> xe[k] in xe;
      Fail(Error(ValueError, "No currency exchange data for base_year=" + IntToString(baseYear)))
    else
      assert base[0] in base;
      Ok(LeftMerge(xe, base, SameIso, RebaseCell))
  }

  /** Each currency has at most one row in the base year. */
  predicate OneBaseRow(xe: seq<Rate>, baseYear: int) {
    IsosDistinct(BaseRows(xe, baseYear))
  }

  /**
   * With one base-year row per currency, every row stays, in order, rebased
   * to its currency's base-year value; a base-year row with a non-zero
   * value becomes exactly 100.
   */
  lemma DeflatorRows(xe: seq<Rate>, baseYear: int)
    requires OneBaseRow(xe, baseYear) && exists k :: 0 <= k < |xe| && xe[k].year == baseYear
    ensures var r := CalculateDeflator(xe, baseYear);
            && r.Ok? && |r.value| == |xe|
            && (forall k :: 0 <= k < |xe| ==>
                  r.value[k] == Rate(xe[k].iso, xe[k].year, RebaseCell(xe[k].value, Partner(xe[k], BaseRows(xe, baseYear), SameIso))))
            && forall k :: 0 <= k < |xe| && xe[k].year == baseYear && IsNumeric(xe[k].value) && Real(xe[k].value) != 0.0 ==>
                 r.value[k].value == Num(100.0)
  {
    var base := BaseRows(xe, baseYear);
    forall k | 0 <= k < |xe| ensures |Matches(xe[k], base, SameIso)| <= 1 {
      AtMostOneMatch(xe[k], base, SameIso);
    }
    LeftMergeOneToOne(xe, base, SameIso, RebaseCell);
    forall k | 0 <= k < |xe| && xe[k].year == baseYear && IsNumeric(xe[k].value) && Real(xe[k].value) != 0.0
      ensures RebaseCell(xe[k].value, Partner(xe[k], base, SameIso)) == Num(100.0)
    {
      OwnPartner(xe[k], base, SameIso);
      RebaseCellValues(xe[k].value);
    }
  }

  /* ---------------------------------------------------------- Exchange.exchange_rate */

  /** Line 88: the rows of one currency. */
  function CurrencyRows(d: seq<Rate>, currency: string): (rs: seq<Rate>)
    ensures forall r :: r in rs <==> r in d && r.iso == currency
  {
    Select(d, (r: Rate) => r.iso == currency)
  }

  /**
   * `exchange_rate(currency_iso)` on the USD rates `d`: `ValueError` when
   * the currency has no rows; otherwise every rate divided by the
   * currency's rate of the same year.
   */
  function ExchangeRate(d: seq<Rate>, currency: string): (r: Outcome<seq<Rate>>)
    ensures r.Fail? <==> forall k :: 0 <= k < |d| ==> d[k].iso != currency
    ensures r.Fail? ==> r.error == Error(ValueError, "No currency exchange data for currency_iso=" + Repr(currency))
    ensures r.Ok? ==> r.value == LeftMerge(d, CurrencyRows(d, currency), SameYear, Div)
  {
    var target := CurrencyRows(d, currency);
    if |target| == 0 then
      assert forall k :: 0 <= k < |d| ==> d[k] in d;
      Fail(Error(ValueError, "No currency exchange data for currency_iso=" + Repr(currency)))
    else
      assert target[0] in target;
      Ok(LeftMerge(d, target, SameYear, Div))
  }

  /**
   * With one row per year for the currency, every rate stays, in order,
   * divided by the currency's rate of its year; the currency's own
   * non-zero rates become exactly 1.
   */
  lemma ExchangeRateRows(d: seq<Rate>, currency: string)
    requires YearsDistinct(CurrencyRows(d, currency)) && exists k :: 0 <= k < |d| && d[k].iso == currency
    ensures var r := ExchangeRate(d, currency);
            && r.Ok? && |r.value| == |d|
            && (forall k :: 0 <= k < |d| ==>
                  r.value[k] == Rate(d[k].iso, d[k].year, Div(d[k].value, Partner(d[k], CurrencyRows(d, currency), SameYear))))
            && forall k :: 0 <= k < |d| && d[k].iso == currency && IsNumeric(d[k].value) && Real(d[k].value) != 0.0 ==>
                 r.value[k].value == Num(1.0)
  {
    var target := CurrencyRows(d, currency);
    forall k | 0 <= k < |d| ensures |Matches(d[k], target, SameYear)| <= 1 {
      AtMostOneMatch(d[k], target, SameYear);
    }
    LeftMergeOneToOne(d, target, SameYear, Div);
    forall k | 0 <= k < |d| && d[k].iso == currency && IsNumeric(d[k].value) && Real(d[k].value) != 0.0
      ensures Div(d[k].value, Partner(d[k], target, SameYear)) == Num(1.0)
    {
      OwnPartner(d[k], target, SameYear);
      DivSelf(d[k].value);
    }
  }

  /* ---------------------------------------------------------- usd_exchange_rate */

  const LcuUsd: string := "lcu_usd"
  const UsdLcu: string := "usd_lcu"

  function DirectionError(): Error {
    Error(ValueError, "Direction must be 'lcu_usd' or 'usd_lcu'")
  }

  /** `d_.value = 1 / d_.value` */
  function Inverted(rows: seq<Rate>): (rs: seq<Rate>)
    ensures |rs| == |rows|
    ensures forall k :: 0 <= k < |rows| ==> rs[k] == Rate(rows[k].iso, rows[k].year, Div(Int(1), rows[k].value))
  {
    seq(|rows|, k requires 0 <= k < |rows| => Rate(rows[k].iso, rows[k].year, Div(Int(1), rows[k].value)))
  }

  /** The rates in the requested direction: as stored, inverted, or `ValueError`. */
  function Directed(rows: seq<Rate>, direction: string): (r: Outcome<seq<Rate>>)
    ensures r.Fail? <==> direction != LcuUsd && direction != UsdLcu
    ensures r.Fail? ==> r.error == DirectionError()
    ensures direction == LcuUsd ==> r == Ok(rows)
    ensures direction == UsdLcu ==> r == Ok(Inverted(rows))
  {
    if direction == LcuUsd then Ok(rows)
    else if direction == UsdLcu then Ok(Inverted(rows))
    else Fail(DirectionError())
  }

  /** "usd_lcu" is the reciprocal of "lcu_usd": inverting it gives every finite rate back. */
  lemma DirectionsReciprocal(rows: seq<Rate>)
    ensures var back := Inverted(Directed(rows, UsdLcu).value);
            && |back| == |rows|
            && forall k :: 0 <= k < |rows| ==>
                 back[k].iso == rows[k].iso && back[k].year == rows[k].year &&
                 (IsNumeric(rows[k].value) ==> IsNumeric(back[k].value) && Real(back[k].value) == Real(rows[k].value)) &&
                 (rows[k].value.Missing? ==> back[k].value.Missing?)
  {
    forall k | 0 <= k < |rows| {
      Exchanges.ReciprocalTwice(rows[k].value);
    }
  }

  /** The OECD rates: `_data` is read once, on the first request. */
  class ExchangeOecd {
    var data: Option<seq<Rate>>

    constructor ()
      ensures data.None?
    {
      data := None;
    }

    /**
     * `usd_exchange_rate(direction)`: `stored` is what `load_data` reads
     * (`iso_code`, `year` and `exchange` of the DAC1 table). The table is
     * loaded before the direction is checked.
     */
    method UsdExchangeRate(direction: string, stored: seq<Rate>) returns (r: Outcome<seq<Rate>>)
      modifies this
      ensures data == if old(data).None? then Some(stored) else old(data)
      ensures r == Directed(data.value, direction)
    {
      if data.None? {
        data := Some(stored);
      }
      r := Directed(data.value, direction);
    }
  }

  /* ---------------------------------------------------------- ExchangeWorldBank */

  const YearlyAverage: string := "yearly_average"
  const EffectiveExchange: string := "effective_exchange"

  /** `ExchangeWorldBank.__post_init__`: the two methods it accepts. */
  function MethodError(kind: string): (e: Option<Error>)
    ensures e.None? <==> kind == YearlyAverage || kind == EffectiveExchange
    ensures e.Some? ==> e.value == Error(ValueError, "Method must be 'yearly_average' or 'effective_exchange'")
  {
    if kind == YearlyAverage || kind == EffectiveExchange then None
    else Some(Error(ValueError, "Method must be 'yearly_average' or 'effective_exchange'"))
  }

  /** Lines 247-250: the indicator each method reads. */
  function MethodIndicator(kind: string): (code: string)
    requires MethodError(kind).None?
    ensures kind == YearlyAverage ==> code == "PA.NUS.FCRF"
    ensures kind == EffectiveExchange ==> code == "PX.REX.REER"
  {
    if kind == YearlyAverage then "PA.NUS.FCRF" else "PX.REX.REER"
  }

  /** The euro rate of a year: the last "EMU" row of that year with a value (`to_dict()` keeps the last). */
  function EmuRate(rows: seq<Rate>, year: int): (v: Value)
    ensures v.Missing? <==> forall k :: 0 <= k < |rows| ==> !(rows[k].iso == "EMU" && rows[k].year == year && !rows[k].value.Missing?)
  {
    if rows == [] then Missing
    else
      var last := rows[|rows| - 1];
      var init := rows[..|rows| - 1];
      assert forall k :: 0 <= k < |init| ==> init[k] == rows[k];
      if last.iso == "EMU" && last.year == year && !last.value.Missing? then last.value
      else EmuRate(init, year)
  }

  /** Lines 298-304: members of the euro area without a rate take the euro rate of their year. */
  function EmuFilled(rows: seq<Rate>, emu: seq<string>): (rs: seq<Rate>)
    ensures |rs| == |rows|
    ensures forall k :: 0 <= k < |rows| ==> rs[k].iso == rows[k].iso && rs[k].year == rows[k].year
    ensures forall k :: 0 <= k < |rows| && rows[k].iso in emu && rows[k].value.Missing? ==> rs[k].value == EmuRate(rows, rows[k].year)
    ensures forall k :: 0 <= k < |rows| && !(rows[k].iso in emu && rows[k].value.Missing?) ==> rs[k] == rows[k]
  {
    seq(|rows|, k requires 0 <= k < |rows| =>
      if rows[k].iso in emu && rows[k].value.Missing? then Rate(rows[k].iso, rows[k].year, EmuRate(rows, rows[k].year)) else rows[k])
  }

  /** A euro rate that is found is the value of an "EMU" row of that year. */
  lemma {:induction false} EmuRateFound(rows: seq<Rate>, year: int) returns (j: nat)
    requires !EmuRate(rows, year).Missing?
    ensures j < |rows| && rows[j].iso == "EMU" && rows[j].year == year && rows[j].value == EmuRate(rows, year)
  {
    var last := rows[|rows| - 1];
    var init := rows[..|rows| - 1];
    if last.iso == "EMU" && last.year == year && !last.value.Missing? {
      j := |rows| - 1;
    } else {
      j := EmuRateFound(init, year);
    }
  }

  /** The World Bank rates, for a method `__post_init__` accepted. */
  class ExchangeWorldBank {
    const kind: string
    var data: Option<seq<Rate>>

    constructor (kind: string)
      requires MethodError(kind).None?
      ensures this.kind == kind && data.None?
    {
      this.kind := kind;
      data := None;
    }

    /**
     * `usd_exchange_rate(direction)`: the direction is checked before the
     * table is loaded (`stored`, with the members of the euro area
     * `emu`); the euro fill works on a copy, so `_data` keeps the table as read.
     */
    method UsdExchangeRate(direction: string, stored: seq<Rate>, emu: seq<string>) returns (r: Outcome<seq<Rate>>)
      modifies this
      ensures direction != LcuUsd && direction != UsdLcu ==> data == old(data) && r == Fail(DirectionError())
      ensures direction == LcuUsd || direction == UsdLcu ==>
                data == (if old(data).None? then Some(stored) else old(data)) &&
                r == Directed(EmuFilled(data.value, emu), direction)
    {
      if direction != LcuUsd && direction != UsdLcu {
        return Fail(DirectionError());
      }
      if data.None? {
        data := Some(stored);
      }
      var df := EmuFilled(data.value, emu);
      r := Directed(df, direction);
    }
  }
}
