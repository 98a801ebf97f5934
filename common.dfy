/**
 * The reference-table builders shared by the sources
 * (`pydeflate.sources.common`): id conversion through a mapping, the
 * `pydeflate_` prefix, the base year of an index, and the exchange-rate
 * deflator computed group by group.
 */
module Common {
  import opened Wrappers
  import opened Strings
  import opened Values
  import opened Frames
  import opened Merging
  import opened Exceptions
  import C = Constants

  /* ------------------------------------------------------------------ convert_id */

  /**
   * The correspondence `_match_regex_to_iso3` returns: the fuzzy match of
   * each value (`fuzzy`, the foreign country lookup; `None` when it finds
   * nothing), overridden by `additional_mapping` (`matches | additional_mapping`).
   */
  function Mapped(additional: map<Value, Value>, fuzzy: Value -> Option<Value>, v: Value): Value {
    if v in additional then additional[v] else fuzzy(v).GetOr(Missing)
  }

  /** The conversion functions by source type (`mapping_functions`). */
  const MappingTypes: set<string> := {"regex"}

  /**
   * `convert_id(series, from_type, to_type, not_found, additional_mapping=…)`:
   * the identity between equal types; otherwise each value maps through the
   * correspondence, and what it does not convert becomes `not_found`, or
   * stays as it was when `not_found` is `None`.
   */
  function ConvertId(series: seq<Value>, fromType: string, toType: string, notFound: Option<Value>,
                     additional: map<Value, Value>, fuzzy: Value -> Option<Value>): (r: seq<Value>)
    requires fromType == toType || fromType in MappingTypes
    ensures |r| == |series|
    ensures fromType == toType ==> r == series
    ensures fromType != toType ==> forall i :: 0 <= i < |series| ==>
              var v := series[i];
              && (v in additional && !IsNa(additional[v]) ==> r[i] == additional[v])
              && (v !in additional && fuzzy(v).Some? && !IsNa(fuzzy(v).value) ==> r[i] == fuzzy(v).value)
              && (IsNa(Mapped(additional, fuzzy, v)) ==> r[i] == notFound.GetOr(v))
  {
    if fromType == toType then series
    else
      seq(|series|, i requires 0 <= i < |series| =>
        FillNa(Mapped(additional, fuzzy, series[i]), notFound.GetOr(series[i])))
  }

  /** Equal ids convert alike, wherever they stand in the series. */
  lemma ConvertIdConsistent(series: seq<Value>, fromType: string, toType: string, notFound: Option<Value>,
                            additional: map<Value, Value>, fuzzy: Value -> Option<Value>, i: nat, k: nat)
    requires fromType == toType || fromType in MappingTypes
    requires i < |series| && k < |series| && series[i] == series[k]
    ensures ConvertId(series, fromType, toType, notFound, additional, fuzzy)[i] ==
            ConvertId(series, fromType, toType, notFound, additional, fuzzy)[k]
  {
  }

  /** `additional_mapping` wins over the fuzzy match, whatever the fuzzy match says. */
  lemma ConvertIdAdditionalWins(series: seq<Value>, fromType: string, toType: string, notFound: Option<Value>,
                                additional: map<Value, Value>, fuzzy: Value -> Option<Value>, fuzzy': Value -> Option<Value>)
    requires fromType in MappingTypes && fromType != toType
    requires forall v :: v !in additional ==> fuzzy(v) == fuzzy'(v)
    ensures ConvertId(series, fromType, toType, notFound, additional, fuzzy) ==
            ConvertId(series, fromType, toType, notFound, additional, fuzzy')
  {
    var a := ConvertId(series, fromType, toType, notFound, additional, fuzzy);
    var b := ConvertId(series, fromType, toType, notFound, additional, fuzzy');
    forall i | 0 <= i < |series| ensures a[i] == b[i] {
      assert Mapped(additional, fuzzy, series[i]) == Mapped(additional, fuzzy', series[i]);
    }
  }

  /* ------------------------------------------------------------------ add_pydeflate_iso3 */

  /** The names `add_pydeflate_iso3` maps by hand, whatever the fuzzy match says. */
  const IsoAdditions: map<Value, Value> :=
    map[Text("World") := Text("WLD"), Text("European Union") := Text("EUR"), Text("EU Institutions") := Text("EUI"),
        Text("DAC countries") := Text("DAC"), Text("Kosovo") := Text("XXK"), Text("G7") := Text("G7C"),
        Text("Sub-Sahara Africa") := Text("SSA")]

  /** The column `column` with missing cells read as empty text (`df[column].fillna("")`). */
  function Cleaned(df: Frame, column: string): (vs: seq<Value>)
    requires Valid(df) && column in df.columns
    ensures |vs| == |df.rows|
  {
    seq(|df.rows|, i requires 0 <= i < |df.rows| => FillNa(Cell(df, i, column), Text("")))
  }

  /**
   * The frame `add_pydeflate_iso3(df, column, from_type, fillna)` leaves:
   * the ISO3 column, converted from the cleaned cells of `column`. `fillna`
   * is `None` for Python's `None`, which keeps what was not converted.
   */
  function Iso3Added(df: Frame, column: string, fromType: string, fillna: Option<Value>,
                            fuzzy: Value -> Option<Value>): (r: Frame)
    requires Valid(df) && column in df.columns && (fromType == "ISO3" || fromType in MappingTypes)
    ensures Valid(r) && |r.rows| == |df.rows| && C.Iso3 in r.columns
    ensures forall d :: d in df.columns ==> d in r.columns
    ensures forall i, d :: 0 <= i < |df.rows| && d in df.columns && d != C.Iso3 ==> Cell(r, i, d) == Cell(df, i, d)
  {
    Assign(df, C.Iso3, ConvertId(Cleaned(df, column), fromType, "ISO3", fillna, IsoAdditions, fuzzy))
  }

  /**
   * The ISO3 cell of row `i`: the cleaned cell itself when it is already
   * ISO3; otherwise the hand-made name when there is one, the fuzzy match
   * when it finds one, and `fillna` (or the cleaned cell) when nothing does.
   */
  lemma Iso3AddedCell(df: Frame, column: string, fromType: string, fillna: Option<Value>,
                             fuzzy: Value -> Option<Value>, i: nat)
    requires Valid(df) && column in df.columns && (fromType == "ISO3" || fromType in MappingTypes)
    requires i < |df.rows|
    ensures var iso := Cell(Iso3Added(df, column, fromType, fillna, fuzzy), i, C.Iso3);
            var v := FillNa(Cell(df, i, column), Text(""));
            && (fromType == "ISO3" ==> iso == v)
            && (fromType != "ISO3" && Cell(df, i, column) in IsoAdditions ==> iso == IsoAdditions[Cell(df, i, column)])
            && (fromType != "ISO3" && Cell(df, i, column) !in IsoAdditions ==>
                  iso == (if fuzzy(v).Some? && !IsNa(fuzzy(v).value) then fuzzy(v).value else fillna.GetOr(v)))
  {
    var cleaned := Cleaned(df, column);
    assert cleaned[i] == FillNa(Cell(df, i, column), Text(""));
    assert forall v :: v in IsoAdditions ==> !IsNa(IsoAdditions[v]);
  }

  /** `add_pydeflate_iso3(df, column, from_type, fillna)`: assigns the ISO3 column of the caller's frame. */
  method AddPydeflateIso3(df: Table, column: string, fromType: string, fillna: Option<Value>, fuzzy: Value -> Option<Value>)
    requires Valid(df.frame) && column in df.frame.columns && (fromType == "ISO3" || fromType in MappingTypes)
    modifies df
    ensures df.frame == Iso3Added(old(df.frame), column, fromType, fillna, fuzzy)
  {
    var converted := ConvertId(Cleaned(df.frame, column), fromType, "ISO3", fillna, IsoAdditions, fuzzy);
    df.SetColumn(C.Iso3, converted);
  }

  /* ----------------------------------------------------------- prefix_pydeflate_to_columns */

  /** The frame with every label prefixed unless it has the prefix already. */
  function Prefixed(f: Frame, prefix: string): (g: Frame)
    ensures g.rows == f.rows && |g.columns| == |f.columns|
    ensures forall k :: 0 <= k < |g.columns| ==> StartsWith(g.columns[k], prefix)
    ensures forall k :: 0 <= k < |f.columns| && StartsWith(f.columns[k], prefix) ==> g.columns[k] == f.columns[k]
    ensures forall k :: 0 <= k < |f.columns| && !StartsWith(f.columns[k], prefix) ==> g.columns[k] == prefix + f.columns[k]
  {
    Frame(PrefixAll(prefix, f.columns), f.rows)
  }

  /** Prefixing twice is prefixing once. */
  lemma PrefixedIdempotent(f: Frame, prefix: string)
    ensures Prefixed(Prefixed(f, prefix), prefix) == Prefixed(f, prefix)
  {
    PrefixAllIdempotent(prefix, f.columns);
  }

  /** `prefix_pydeflate_to_columns(df, prefix)`: relabels the caller's frame in place. */
  method PrefixPydeflateToColumns(df: Table, prefix: string)
    modifies df
    ensures df.frame == Prefixed(old(df.frame), prefix)
  {
    df.SetLabels(PrefixAll(prefix, df.frame.columns));
  }

  /* ------------------------------------------------------------------ identify_base_year */

  /** `round(v, 2) == 100`, a missing value comparing false. */
  predicate RoundsToHundred(v: Value) {
    Eq(Round(v, TwoDecimals), Int(100))
  }

  /** The first row at or after `i` whose measure rounds to 100. */
  function FirstHundredFrom(f: Frame, measure: string, i: nat): (r: Option<nat>)
    requires Valid(f) && measure in f.columns && i <= |f.rows|
    ensures r.Some? ==> i <= r.value < |f.rows| && RoundsToHundred(Cell(f, r.value, measure))
    ensures r.Some? ==> forall k :: i <= k < r.value ==> !RoundsToHundred(Cell(f, k, measure))
    ensures r.None? ==> forall k :: i <= k < |f.rows| ==> !RoundsToHundred(Cell(f, k, measure))
    decreases |f.rows| - i
  {
    if i == |f.rows| then None
    else if RoundsToHundred(Cell(f, i, measure)) then Some(i)
    else FirstHundredFrom(f, measure, i + 1)
  }

  /**
   * `identify_base_year(df, measure, year)`: the year of the first row whose
   * measure rounds to 100 at two decimals, `None` when there is none.
   */
  function IdentifyBaseYear(f: Frame, measure: string, yc: string): (r: Option<Value>)
    requires Valid(f) && measure in f.columns && yc in f.columns
    ensures r.None? <==> forall k :: 0 <= k < |f.rows| ==> !RoundsToHundred(Cell(f, k, measure))
    ensures r.Some? ==> exists k :: 0 <= k < |f.rows| && RoundsToHundred(Cell(f, k, measure)) && r.value == Cell(f, k, yc)
                          && forall q :: 0 <= q < k ==> !RoundsToHundred(Cell(f, q, measure))
  {
    match FirstHundredFrom(f, measure, 0)
    case None => None
    case Some(k) => Some(Cell(f, k, yc))
  }

  /* ------------------------------------------------------------- compute_exchange_deflator */

  /** `s.rsplit("_", 1)[0]`: what comes before the last underscore, or all of `s`. */
  function BeforeLastUnderscore(s: string): (r: string)
    ensures '_' !in s ==> r == s
  {
    if '_' !in s then s else CutLastUnderscore(s)
  }

  function CutLastUnderscore(s: string): (r: string)
    requires '_' in s
    ensures |r| < |s|
  {
    if s[|s| - 1] == '_' then s[..|s| - 1]
    else
      assert '_' in s[..|s| - 1] by {
        var k :| 0 <= k < |s| && s[k] == '_';
        assert s[..|s| - 1][k] == '_';
      }
      CutLastUnderscore(s[..|s| - 1])
  }

  /** Cutting at the last underscore of `a + "_" + t` gives `a` when `t` holds no underscore. */
  lemma {:induction false} CutLastUnderscoreAppend(a: string, t: string)
    requires '_' !in t
    ensures '_' in a + "_" + t && CutLastUnderscore(a + "_" + t) == a
    decreases |t|
  {
    var s := a + "_" + t;
    assert s[|a|] == '_';
    if t == [] {
      assert s[..|s| - 1] == a;
    } else {
      assert s[|s| - 1] == t[|t| - 1];
      assert t[|t| - 1] in t;
      assert s[..|s| - 1] == a + "_" + t[..|t| - 1];
      var u := t[..|t| - 1];
      assert '_' !in u by {
        forall k | 0 <= k < |u| ensures u[k] != '_' { assert u[k] == t[k]; }
      }
      CutLastUnderscoreAppend(a, t[..|t| - 1]);
    }
  }

  /** The deflator column: `_to` or `_from` dropped from the exchange name, then `_D`. */
  function DeflatorName(exchange: string): (d: string)
    ensures EndsWith(d, "_D")
  {
    var name := if EndsWith(exchange, "_to") || EndsWith(exchange, "_from") then BeforeLastUnderscore(exchange) else exchange;
    var d := name + "_D";
    assert d[|d| - 2..] == "_D";
    d
  }

  /** `X_to` and `X_from` give `X_D`, and a name with neither suffix gets `_D` appended. */
  lemma DeflatorNameOf(a: string)
    ensures DeflatorName(a + "_to") == a + "_D"
    ensures DeflatorName(a + "_from") == a + "_D"
    ensures !EndsWith(a, "_to") && !EndsWith(a, "_from") ==> DeflatorName(a) == a + "_D"
  {
    assert a + "_to" == a + "_" + "to";
    assert (a + "_to")[|a + "_to"| - 3..] == "_to";
    CutLastUnderscoreAppend(a, "to");
    assert a + "_from" == a + "_" + "from";
    assert (a + "_from")[|a + "_from"| - 5..] == "_from";
    CutLastUnderscoreAppend(a, "from");
  }

  lemma DeflatorNameExchange()
    ensures DeflatorName("EXCHANGE") == "EXCHANGE_D"
    ensures DeflatorName("EXCHANGE_to") == "EXCHANGE_D"
  {
    DeflatorNameOf("EXCHANGE");
    assert "EXCHANGE" + "_to" == "EXCHANGE_to";
    assert !EndsWith("EXCHANGE", "_to") by { assert "EXCHANGE"[5..] != "_to"; }
    assert !EndsWith("EXCHANGE", "_from") by { assert "EXCHANGE"[3..] != "_from"; }
  }

  /** The latest year among the first `n` rows with an exchange rate (`dropna(subset=[exchange])[year].max()`). */
  function LatestYear(g: Frame, ex: string, yc: string, n: nat): (y: Value)
    requires Valid(g) && ex in g.columns && yc in g.columns && n <= |g.rows|
    ensures !y.Missing? ==> exists i :: 0 <= i < n && !IsNa(Cell(g, i, ex)) && Cell(g, i, yc) == y
    ensures forall i :: 0 <= i < n && !IsNa(Cell(g, i, ex)) && !IsNa(Cell(g, i, yc)) ==> !y.Missing? && !ValueLt(y, Cell(g, i, yc))
  {
    if n == 0 then Missing
    else
      var prev := LatestYear(g, ex, yc, n - 1);
      var y := Cell(g, n - 1, yc);
      if IsNa(Cell(g, n - 1, ex)) || IsNa(y) || !ValueLt(prev, y) then prev
      else
        assert forall i :: 0 <= i < n - 1 && !IsNa(Cell(g, i, ex)) && !IsNa(Cell(g, i, yc)) ==> !ValueLt(y, Cell(g, i, yc)) by {
          forall i | 0 <= i < n - 1 && !IsNa(Cell(g, i, ex)) && !IsNa(Cell(g, i, yc)) ensures !ValueLt(y, Cell(g, i, yc)) {
            ValueLtIsStrictTotalOrder(prev, y, Cell(g, i, yc));
          }
        }
        ValueLtIsStrictTotalOrder(y, y, y);
        y
  }

  /** Some row among the first `n` has an exchange rate (`not valid_rows.empty`). */
  predicate HasRate(g: Frame, ex: string, n: nat)
    requires Valid(g) && ex in g.columns && n <= |g.rows|
  {
    exists i :: 0 <= i < n && !IsNa(Cell(g, i, ex))
  }

  /** Lines 188-192: the base year, by the measure's 100 or as the latest year with a rate. */
  function BaseYearOf(g: Frame, measure: Option<string>, ex: string, yc: string): Option<Value>
    requires Valid(g) && ex in g.columns && yc in g.columns && (measure.Some? ==> measure.value in g.columns)
  {
    if measure.Some? then IdentifyBaseYear(g, measure.value, yc)
    else if HasRate(g, ex, |g.rows|) then Some(LatestYear(g, ex, yc, |g.rows|))
    else None
  }

  /** The rate of the first row of the base year (`group.loc[group[year] == base_year, exchange]`). */
  function FirstRateOf(g: Frame, ex: string, yc: string, year: Value, i: nat): (r: Option<nat>)
    requires Valid(g) && ex in g.columns && yc in g.columns && i <= |g.rows|
    ensures r.Some? ==> i <= r.value < |g.rows| && Eq(Cell(g, r.value, yc), year)
    ensures r.Some? ==> forall k :: i <= k < r.value ==> !Eq(Cell(g, k, yc), year)
    ensures r.None? ==> forall k :: i <= k < |g.rows| ==> !Eq(Cell(g, k, yc), year)
    decreases |g.rows| - i
  {
    if i == |g.rows| then None
    else if Eq(Cell(g, i, yc), year) then Some(i)
    else FirstRateOf(g, ex, yc, year, i + 1)
  }

  /** What `_compute_deflator_for_group` reads without a `KeyError`. */
  predicate GroupReadable(g: Frame, measure: Option<string>, ex: string, yc: string) {
    Valid(g) && ex in g.columns && yc in g.columns && (measure.Some? ==> measure.value in g.columns)
  }

  /**
   * Lines 194-206: the base value of a group, `None` when the group has no
   * base year, a missing one, no row of that year, or a missing rate there.
   */
  function GroupBase(g: Frame, measure: Option<string>, ex: string, yc: string): (b: Option<Value>)
    requires GroupReadable(g, measure, ex, yc)
    ensures b.Some? ==> !IsNa(b.value)
  {
    match BaseYearOf(g, measure, ex, yc)
    case None => None
    case Some(year) =>
      if IsNa(year) then None
      else match FirstRateOf(g, ex, yc, year, 0)
        case None => None
        case Some(k) => if IsNa(Cell(g, k, ex)) then None else Some(Cell(g, k, ex))
  }

  /** The deflator cells of a group rebased at `b`. */
  function GroupDeflators(g: Frame, ex: string, b: Value): (vs: seq<Value>)
    requires Valid(g) && ex in g.columns
    ensures |vs| == |g.rows| && forall q :: 0 <= q < |g.rows| ==> vs[q] == RebaseCell(Cell(g, q, ex), b)
  {
    seq(|g.rows|, q requires 0 <= q < |g.rows| => RebaseCell(Cell(g, q, ex), b))
  }

  /**
   * `_compute_deflator_for_group(group, measure, exchange, year, deflator)`:
   * the group with the deflator column `round(100 * rate / base, 6)`, or the
   * group as it is when it has no base value.
   */
  function ComputeDeflatorForGroup(g: Frame, measure: Option<string>, ex: string, yc: string, dc: string): (h: Frame)
    requires GroupReadable(g, measure, ex, yc)
    ensures GroupBase(g, measure, ex, yc).None? ==> h == g
    ensures GroupBase(g, measure, ex, yc).Some? ==>
              && Valid(h) && |h.rows| == |g.rows|
              && h.columns == (if dc in g.columns then g.columns else g.columns + [dc])
              && (forall q :: 0 <= q < |h.rows| ==> Cell(h, q, dc) == RebaseCell(Cell(g, q, ex), GroupBase(g, measure, ex, yc).value))
              && (forall q, c :: 0 <= q < |h.rows| && c in g.columns && c != dc ==> Cell(h, q, c) == Cell(g, q, c))
  {
    match GroupBase(g, measure, ex, yc)
    case None => g
    case Some(b) => Assign(g, dc, GroupDeflators(g, ex, b))
  }

  /**
   * The base-year row of a group gives 100: the first row of the base year
   * holds the base value, and a non-zero rate over itself is 100.
   */
  lemma GroupBaseRowIsHundred(g: Frame, measure: Option<string>, ex: string, yc: string, dc: string)
    requires GroupReadable(g, measure, ex, yc) && dc != yc
    requires GroupBase(g, measure, ex, yc).Some?
    ensures var b := GroupBase(g, measure, ex, yc).value;
            var h := ComputeDeflatorForGroup(g, measure, ex, yc, dc);
            exists k :: 0 <= k < |g.rows| && Cell(g, k, ex) == b && Eq(Cell(g, k, yc), BaseYearOf(g, measure, ex, yc).value)
              && (IsNumeric(b) && Real(b) != 0.0 ==> Cell(h, k, dc) == Num(100.0))
  {
    var year := BaseYearOf(g, measure, ex, yc).value;
    var k := FirstRateOf(g, ex, yc, year, 0).value;
    RebaseCellValues(Cell(g, k, ex));
  }

  /** With a measure, the base year is the first year whose measure rounds to 100. */
  lemma MeasureBaseYear(g: Frame, m: string, ex: string, yc: string)
    requires GroupReadable(g, Some(m), ex, yc)
    ensures BaseYearOf(g, Some(m), ex, yc) == IdentifyBaseYear(g, m, yc)
  {
  }

  /** Without a measure, the base year is the latest year with a rate, `None` when no row has a rate. */
  lemma LatestBaseYear(g: Frame, ex: string, yc: string)
    requires GroupReadable(g, None, ex, yc)
    ensures (forall i :: 0 <= i < |g.rows| ==> IsNa(Cell(g, i, ex))) <==> BaseYearOf(g, None, ex, yc).None?
    ensures BaseYearOf(g, None, ex, yc).Some? && !BaseYearOf(g, None, ex, yc).value.Missing? ==>
              var y := BaseYearOf(g, None, ex, yc).value;
              && (exists i :: 0 <= i < |g.rows| && !IsNa(Cell(g, i, ex)) && Cell(g, i, yc) == y)
              && forall i :: 0 <= i < |g.rows| && !IsNa(Cell(g, i, ex)) && !IsNa(Cell(g, i, yc)) ==> !ValueLt(y, Cell(g, i, yc))
  {
  }

  /** The grouping of `compute_exchange_deflator` when none is given. */
  const DefaultGrouper: seq<string> := ["entity", "entity_code"]

  /** The group key of row `i`. */
  function KeyAt(df: Frame, grp: seq<string>, i: nat): (k: seq<Value>)
    requires Valid(df) && HasColumns(df, grp) && i < |df.rows|
    ensures |k| == |grp| && forall q :: 0 <= q < |grp| ==> k[q] == Cell(df, i, grp[q])
  {
    seq(|grp|, q requires 0 <= q < |grp| => Cell(df, i, grp[q]))
  }

  /** Row `i` belongs to a group: `groupby` drops rows with a missing key. */
  predicate Keyed(df: Frame, grp: seq<string>, i: nat)
    requires Valid(df) && HasColumns(df, grp) && i < |df.rows|
  {
    forall q :: 0 <= q < |grp| ==> !IsNa(Cell(df, i, grp[q]))
  }

  /** The distinct keys of the first `n` rows, in order of first appearance (`groupby(sort=False)`). */
  function GroupKeys(df: Frame, grp: seq<string>, n: nat): (ks: seq<seq<Value>>)
    requires Valid(df) && HasColumns(df, grp) && n <= |df.rows|
    ensures forall a, b :: 0 <= a < b < |ks| ==> ks[a] != ks[b]
    ensures forall i :: 0 <= i < n && Keyed(df, grp, i) ==> KeyAt(df, grp, i) in ks
    ensures |ks| == 0 <==> forall i :: 0 <= i < n ==> !Keyed(df, grp, i)
  {
    if n == 0 then []
    else
      var prev := GroupKeys(df, grp, n - 1);
      if Keyed(df, grp, n - 1) && KeyAt(df, grp, n - 1) !in prev then prev + [KeyAt(df, grp, n - 1)] else prev
  }

  /** Which rows belong to the group of `key`. */
  function GroupFlags(df: Frame, grp: seq<string>, key: seq<Value>): (fs: seq<bool>)
    requires Valid(df) && HasColumns(df, grp)
    ensures |fs| == |df.rows| && forall i :: 0 <= i < |df.rows| ==> fs[i] == (Keyed(df, grp, i) && KeyAt(df, grp, i) == key)
  {
    seq(|df.rows|, i requires 0 <= i < |df.rows| => Keyed(df, grp, i) && KeyAt(df, grp, i) == key)
  }

  /** The rows of the group of `key`, ascending. */
  function GroupOf(df: Frame, grp: seq<string>, key: seq<Value>): (ps: seq<nat>)
    requires Valid(df) && HasColumns(df, grp)
    ensures forall p :: 0 <= p < |ps| ==> ps[p] < |df.rows| && Keyed(df, grp, ps[p]) && KeyAt(df, grp, ps[p]) == key
    ensures forall i :: 0 <= i < |df.rows| && Keyed(df, grp, i) && KeyAt(df, grp, i) == key ==> i in ps
  {
    Marked(GroupFlags(df, grp, key))
  }

  /** The rows at the given positions, with every column. */
  function RowsAt(df: Frame, ps: seq<nat>): (g: Frame)
    requires Valid(df) && forall p :: 0 <= p < |ps| ==> ps[p] < |df.rows|
    ensures Valid(g) && g.columns == df.columns && |g.rows| == |ps|
    ensures forall q, c :: 0 <= q < |ps| && c in df.columns ==> Cell(g, q, c) == Cell(df, ps[q], c)
  {
    Frame(df.columns, seq(|ps|, q requires 0 <= q < |ps| => df.rows[ps[q]]))
  }

  /** The `group` frame of one iteration. */
  function GroupFrame(df: Frame, grp: seq<string>, key: seq<Value>): (g: Frame)
    requires Valid(df) && HasColumns(df, grp)
    ensures Valid(g) && g.columns == df.columns
  {
    RowsAt(df, GroupOf(df, grp, key))
  }

  /** What `compute_exchange_deflator` reads without a `KeyError`. */
  predicate Computable(df: Frame, measure: Option<string>, ex: string, yc: string, grp: seq<string>) {
    GroupReadable(df, measure, ex, yc) && HasColumns(df, grp)
  }

  /** The base value of the group row `i` belongs to. */
  function DeflatorOf(df: Frame, measure: Option<string>, ex: string, yc: string, grp: seq<string>, i: nat): Option<Value>
    requires Computable(df, measure, ex, yc, grp) && i < |df.rows|
  {
    GroupBase(GroupFrame(df, grp, KeyAt(df, grp, i)), measure, ex, yc)
  }

  /** One processed group: its rows, and the base value it is rebased to, if it has one. */
  datatype Group = Group(rows: seq<nat>, base: Option<Value>)

  /** The groups of `df`, one per key, in the order `groupby` yields them. */
  function Processed(df: Frame, measure: Option<string>, ex: string, yc: string, grp: seq<string>, keys: seq<seq<Value>>): (gs: seq<Group>)
    requires Computable(df, measure, ex, yc, grp)
    ensures |gs| == |keys|
  {
    seq(|keys|, k requires 0 <= k < |keys| => Group(GroupOf(df, grp, keys[k]), GroupBase(GroupFrame(df, grp, keys[k]), measure, ex, yc)))
  }

  /** Every group row is a row of `df`. */
  predicate WithinRows(df: Frame, gs: seq<Group>) {
    forall k, p :: 0 <= k < |gs| && 0 <= p < |gs[k].rows| ==> gs[k].rows[p] < |df.rows|
  }

  /** The deflator cells, by row label, of the processed groups `gs`. */
  function CellsOf(df: Frame, ex: string, gs: seq<Group>): map<nat, Value>
    requires Valid(df) && ex in df.columns
  {
    if gs == [] then map[]
    else
      var last := gs[|gs| - 1];
      var prev := CellsOf(df, ex, gs[..|gs| - 1]);
      match last.base
      case None => prev
      case Some(b) => prev + map i | i in last.rows && i < |df.rows| :: RebaseCell(Cell(df, i, ex), b)
  }

  /** Rows belong to one group at most. */
  predicate Disjoint(gs: seq<Group>) {
    forall k, k', i :: 0 <= k < |gs| && 0 <= k' < |gs| && i in gs[k].rows && i in gs[k'].rows ==> k == k'
  }

  /** A row has a cell only when one of its groups has a base value. */
  lemma {:induction false} CellsOfKeys(df: Frame, ex: string, gs: seq<Group>)
    requires Valid(df) && ex in df.columns && WithinRows(df, gs)
    ensures forall i :: i in CellsOf(df, ex, gs) ==> exists k :: 0 <= k < |gs| && i in gs[k].rows && gs[k].base.Some?
  {
    if gs != [] {
      var u := gs[..|gs| - 1];
      var last := gs[|gs| - 1];
      CellsOfKeys(df, ex, u);
      var prev := CellsOf(df, ex, u);
      forall i | i in CellsOf(df, ex, gs) ensures exists k :: 0 <= k < |gs| && i in gs[k].rows && gs[k].base.Some? {
        if i in prev {
          var k :| 0 <= k < |u| && i in u[k].rows && u[k].base.Some?;
          assert gs[k] == u[k];
        } else {
          assert i in last.rows && last.base.Some?;
        }
      }
    }
  }

  /** Each row of a group with a base value gets its rate rebased to it. */
  lemma CellsOfValues(df: Frame, ex: string, gs: seq<Group>)
    requires Valid(df) && ex in df.columns && WithinRows(df, gs) && Disjoint(gs)
    ensures forall k, i :: 0 <= k < |gs| && i in gs[k].rows && gs[k].base.Some? ==>
              i in CellsOf(df, ex, gs) && i < |df.rows| && CellsOf(df, ex, gs)[i] == RebaseCell(Cell(df, i, ex), gs[k].base.value)
  {
    forall k, i | 0 <= k < |gs| && i in gs[k].rows && gs[k].base.Some?
      ensures i in CellsOf(df, ex, gs) && i < |df.rows| && CellsOf(df, ex, gs)[i] == RebaseCell(Cell(df, i, ex), gs[k].base.value)
    {
      CellsOfValueAt(df, ex, gs, k, i);
    }
  }

  /** Row `i` of group `k`, which has a base value, gets its rate rebased to it. */
  lemma {:induction false} CellsOfValueAt(df: Frame, ex: string, gs: seq<Group>, k: nat, i: nat)
    requires Valid(df) && ex in df.columns && WithinRows(df, gs) && Disjoint(gs)
    requires k < |gs| && i in gs[k].rows && gs[k].base.Some?
    ensures i in CellsOf(df, ex, gs) && i < |df.rows| && CellsOf(df, ex, gs)[i] == RebaseCell(Cell(df, i, ex), gs[k].base.value)
  {
    var u := gs[..|gs| - 1];
    var last := gs[|gs| - 1];
    assert i < |df.rows| by {
      var p :| 0 <= p < |gs[k].rows| && gs[k].rows[p] == i;
    }
    if k < |u| {
      assert forall k' :: 0 <= k' < |u| ==> u[k'] == gs[k'];
      CellsOfValueAt(df, ex, u, k, i);
      assert i !in last.rows;
    } else {
      assert gs[k] == last;
    }
  }

  /** The columns after `concat`: the deflator column joins the end when it is new and some group has it. */
  function AssembledColumns(df: Frame, dc: string, grows: bool): (cols: seq<string>)
    ensures cols == if dc in df.columns || !grows then df.columns else df.columns + [dc]
    ensures forall c :: c in df.columns ==> c in cols && IndexOf(cols, c) == IndexOf(df.columns, c)
    ensures dc in cols <==> dc in df.columns || grows
    ensures dc !in df.columns && grows ==> IndexOf(cols, dc) == |df.columns|
  {
    if dc in df.columns || !grows then df.columns
    else
      var cols := df.columns + [dc];
      forall c | c in df.columns ensures IndexOf(cols, c) == IndexOf(df.columns, c) {
        IndexOfAppend(df.columns, [dc], c);
      }
      IndexOfAppend(df.columns, [dc], dc);
      cols
  }

  /** The row of label `i` after `concat`: the deflator cell joins it, or a missing one when the column is new. */
  function AssembledRow(df: Frame, dc: string, cells: map<nat, Value>, grows: bool, i: nat): (row: Row)
    requires Valid(df) && i < |df.rows|
    ensures var cols := AssembledColumns(df, dc, grows);
            && |row| == |cols|
            && (forall c :: c in df.columns && c != dc ==> row[IndexOf(cols, c)] == Cell(df, i, c))
            && (dc in cols ==> row[IndexOf(cols, dc)] == if i in cells then cells[i] else if dc in df.columns then Cell(df, i, dc) else Missing)
  {
    var row := df.rows[i];
    if dc in df.columns then (if i in cells then row[IndexOf(df.columns, dc) := cells[i]] else row)
    else if grows then row + [if i in cells then cells[i] else Missing]
    else row
  }

  /** The grouped rows, ascending: what `groupby` keeps. */
  function Kept(df: Frame, grp: seq<string>): (ks: seq<nat>)
    requires Valid(df) && HasColumns(df, grp)
    ensures forall p :: 0 <= p < |ks| ==> ks[p] < |df.rows| && Keyed(df, grp, ks[p])
    ensures forall i :: 0 <= i < |df.rows| && Keyed(df, grp, i) ==> i in ks
    ensures forall p, q :: 0 <= p < q < |ks| ==> ks[p] < ks[q]
  {
    Marked(seq(|df.rows|, i requires 0 <= i < |df.rows| => Keyed(df, grp, i)))
  }

  /**
   * Lines 237-241: `concat` of the processed groups, then `sort_index`: the
   * grouped rows in their original order, with the deflator column added
   * when some group has one.
   */
  function Assemble(df: Frame, grp: seq<string>, dc: string, cells: map<nat, Value>): (g: Frame)
    requires Valid(df) && HasColumns(df, grp)
    ensures var kept := Kept(df, grp);
            && Valid(g) && |g.rows| == |kept|
            && g.columns == (if dc in df.columns || cells == map[] then df.columns else df.columns + [dc])
            && (forall q, c :: 0 <= q < |kept| && c in df.columns && c != dc ==> Cell(g, q, c) == Cell(df, kept[q], c))
            && (forall q :: 0 <= q < |kept| && dc in g.columns ==>
                  Cell(g, q, dc) == if kept[q] in cells then cells[kept[q]] else if dc in df.columns then Cell(df, kept[q], dc) else Missing)
  {
    var kept := Kept(df, grp);
    var grows := cells != map[];
    Frame(AssembledColumns(df, dc, grows), seq(|kept|, q requires 0 <= q < |kept| => AssembledRow(df, dc, cells, grows, kept[q])))
  }

  /** The keys of `df` yield distinct, disjoint groups within its rows. */
  lemma ProcessedGroups(df: Frame, measure: Option<string>, ex: string, yc: string, grp: seq<string>)
    requires Computable(df, measure, ex, yc, grp)
    ensures var gs := Processed(df, measure, ex, yc, grp, GroupKeys(df, grp, |df.rows|));
            WithinRows(df, gs) && Disjoint(gs)
  {
    var keys := GroupKeys(df, grp, |df.rows|);
    var gs := Processed(df, measure, ex, yc, grp, keys);
    forall k, k', i | 0 <= k < |gs| && 0 <= k' < |gs| && i in gs[k].rows && i in gs[k'].rows ensures k == k' {
      assert keys[k] == keys[k'];
    }
  }

  /** The cell of a row of group `k`: there exactly when the group has a base value. */
  lemma CellOfRow(df: Frame, ex: string, gs: seq<Group>, k: nat, i: nat)
    requires Valid(df) && ex in df.columns && WithinRows(df, gs) && Disjoint(gs)
    requires k < |gs| && i in gs[k].rows
    ensures i in CellsOf(df, ex, gs) <==> gs[k].base.Some?
    ensures gs[k].base.Some? ==> i < |df.rows| && CellsOf(df, ex, gs)[i] == RebaseCell(Cell(df, i, ex), gs[k].base.value)
  {
    CellsOfKeys(df, ex, gs);
    CellsOfValues(df, ex, gs);
  }

  /** The `k`-th processed group is the group of the `k`-th key. */
  lemma ProcessedAt(df: Frame, measure: Option<string>, ex: string, yc: string, grp: seq<string>, keys: seq<seq<Value>>, k: nat)
    requires Computable(df, measure, ex, yc, grp) && k < |keys|
    ensures Processed(df, measure, ex, yc, grp, keys)[k] ==
            Group(GroupOf(df, grp, keys[k]), GroupBase(GroupFrame(df, grp, keys[k]), measure, ex, yc))
  {
  }

  /** Processing one more group adds its rebased cells, when it has a base value. */
  lemma CellsOfStep(df: Frame, ex: string, gs: seq<Group>, k: nat)
    requires Valid(df) && ex in df.columns && WithinRows(df, gs) && k < |gs|
    ensures CellsOf(df, ex, gs[..k + 1]) ==
            match gs[k].base
            case None => CellsOf(df, ex, gs[..k])
            case Some(b) => CellsOf(df, ex, gs[..k]) + map i | i in gs[k].rows :: RebaseCell(Cell(df, i, ex), b)
  {
    assert gs[..k + 1][..k] == gs[..k];
    if gs[k].base.Some? {
      var b := gs[k].base.value;
      assert (map i | i in gs[k].rows && i < |df.rows| :: RebaseCell(Cell(df, i, ex), b)) ==
             (map i | i in gs[k].rows :: RebaseCell(Cell(df, i, ex), b));
    }
  }

  /**
   * `compute_exchange_deflator(df, base_year_measure, exchange, year, grouper)`,
   * as the groups it processes determine it: `ValueError` when there is no
   * group to concatenate.
   */
  function ExchangeDeflator(df: Frame, measure: Option<string>, ex: string, yc: string, grouper: Option<seq<string>>): (r: Outcome<Frame>)
    requires Computable(df, measure, ex, yc, grouper.GetOr(DefaultGrouper))
  {
    var grp := grouper.GetOr(DefaultGrouper);
    var keys := GroupKeys(df, grp, |df.rows|);
    var gs := Processed(df, measure, ex, yc, grp, keys);
    ProcessedGroups(df, measure, ex, yc, grp);
    if |keys| == 0 then Fail(Error(ValueError, "No objects to concatenate"))
    else Ok(Assemble(df, grp, DeflatorName(ex), CellsOf(df, ex, gs)))
  }

  /** `compute_exchange_deflator`: the groups' deflator cells, then one table, or `ValueError` when there is no group. */
  method ComputeExchangeDeflator(df: Frame, measure: Option<string>, ex: string, yc: string, grouper: Option<seq<string>>)
    returns (r: Outcome<Frame>)
    requires Computable(df, measure, ex, yc, grouper.GetOr(DefaultGrouper))
    ensures r == ExchangeDeflator(df, measure, ex, yc, grouper)
  {
    var grp := grouper.GetOr(DefaultGrouper);
    var keys := GroupKeys(df, grp, |df.rows|);
    var cells := CollectCells(df, measure, ex, yc, grp, keys);
    if |keys| == 0 {
      return Fail(Error(ValueError, "No objects to concatenate"));
    }
    r := Ok(Assemble(df, grp, DeflatorName(ex), cells));
  }

  /** The loop over the groups (lines 225-234), each adding its deflator cells by row label. */
  method CollectCells(df: Frame, measure: Option<string>, ex: string, yc: string, grp: seq<string>, keys: seq<seq<Value>>)
    returns (cells: map<nat, Value>)
    requires Computable(df, measure, ex, yc, grp)
    ensures cells == CellsOf(df, ex, Processed(df, measure, ex, yc, grp, keys))
  {
    ghost var gs := Processed(df, measure, ex, yc, grp, keys);
    cells := map[];
    for k := 0 to |keys|
      invariant cells == CellsOf(df, ex, gs[..k])
    {
      var rows := GroupOf(df, grp, keys[k]);
      var base := GroupBase(GroupFrame(df, grp, keys[k]), measure, ex, yc);
      CollectStep(df, measure, ex, yc, grp, keys, k);
      if base.Some? {
        cells := cells + map i | i in rows :: RebaseCell(Cell(df, i, ex), base.value);
      }
    }
    assert gs[..|keys|] == gs;
  }

  /** The `k`-th group adds the rebased cells of its rows, when it has a base value. */
  lemma CollectStep(df: Frame, measure: Option<string>, ex: string, yc: string, grp: seq<string>, keys: seq<seq<Value>>, k: nat)
    requires Computable(df, measure, ex, yc, grp) && k < |keys|
    ensures var gs := Processed(df, measure, ex, yc, grp, keys);
            var rows := GroupOf(df, grp, keys[k]);
            CellsOf(df, ex, gs[..k + 1]) ==
              match GroupBase(GroupFrame(df, grp, keys[k]), measure, ex, yc)
              case None => CellsOf(df, ex, gs[..k])
              case Some(b) => CellsOf(df, ex, gs[..k]) + map i | i in rows :: RebaseCell(Cell(df, i, ex), b)
  {
    var gs := Processed(df, measure, ex, yc, grp, keys);
    ProcessedAt(df, measure, ex, yc, grp, keys, k);
    assert WithinRows(df, gs);
    CellsOfStep(df, ex, gs, k);
  }

  /** Row `i`'s group has a base value exactly when the processed groups give it one. */
  lemma DeflatorOfGroup(df: Frame, measure: Option<string>, ex: string, yc: string, grp: seq<string>, i: nat) returns (k: nat)
    requires Computable(df, measure, ex, yc, grp) && i < |df.rows| && Keyed(df, grp, i)
    ensures var gs := Processed(df, measure, ex, yc, grp, GroupKeys(df, grp, |df.rows|));
            k < |gs| && i in gs[k].rows && gs[k].base == DeflatorOf(df, measure, ex, yc, grp, i)
  {
    var keys := GroupKeys(df, grp, |df.rows|);
    var gs := Processed(df, measure, ex, yc, grp, keys);
    k :| 0 <= k < |keys| && keys[k] == KeyAt(df, grp, i);
    assert gs[k] == Group(GroupOf(df, grp, keys[k]), GroupBase(GroupFrame(df, grp, keys[k]), measure, ex, yc));
    assert i in gs[k].rows;
    assert gs[k].base == DeflatorOf(df, measure, ex, yc, grp, i);
  }

  /** `compute_exchange_deflator` raises `ValueError` exactly when no row has a full group key. */
  lemma ExchangeDeflatorFails(df: Frame, measure: Option<string>, ex: string, yc: string, grouper: Option<seq<string>>)
    requires Computable(df, measure, ex, yc, grouper.GetOr(DefaultGrouper))
    ensures var r := ExchangeDeflator(df, measure, ex, yc, grouper);
            && (r.Fail? <==> forall i :: 0 <= i < |df.rows| ==> !Keyed(df, grouper.GetOr(DefaultGrouper), i))
            && (r.Fail? ==> r.error.cls == ValueError)
  {
  }

  /** Whether the cells give each grouped row the rebased rate of its group's base value, and only those rows. */
  predicate CellsMatch(df: Frame, measure: Option<string>, ex: string, yc: string, grp: seq<string>, cells: map<nat, Value>)
    requires Computable(df, measure, ex, yc, grp)
  {
    var kept := Kept(df, grp);
    forall q :: 0 <= q < |kept| ==>
      && (DeflatorOf(df, measure, ex, yc, grp, kept[q]).Some? ==>
            kept[q] in cells && cells[kept[q]] == RebaseCell(Cell(df, kept[q], ex), DeflatorOf(df, measure, ex, yc, grp, kept[q]).value))
      && (DeflatorOf(df, measure, ex, yc, grp, kept[q]).None? ==> kept[q] !in cells)
  }

  /** The processed groups' cells are the ones each grouped row's group gives it. */
  lemma ProcessedCellsMatch(df: Frame, measure: Option<string>, ex: string, yc: string, grp: seq<string>)
    requires Computable(df, measure, ex, yc, grp)
    ensures (ProcessedGroups(df, measure, ex, yc, grp);
             CellsMatch(df, measure, ex, yc, grp, CellsOf(df, ex, Processed(df, measure, ex, yc, grp, GroupKeys(df, grp, |df.rows|)))))
  {
    var keys := GroupKeys(df, grp, |df.rows|);
    var gs := Processed(df, measure, ex, yc, grp, keys);
    ProcessedGroups(df, measure, ex, yc, grp);
    var kept := Kept(df, grp);
    var cells := CellsOf(df, ex, gs);
    forall q | 0 <= q < |kept|
      ensures DeflatorOf(df, measure, ex, yc, grp, kept[q]).Some? ==>
                kept[q] in cells && cells[kept[q]] == RebaseCell(Cell(df, kept[q], ex), DeflatorOf(df, measure, ex, yc, grp, kept[q]).value)
      ensures DeflatorOf(df, measure, ex, yc, grp, kept[q]).None? ==> kept[q] !in cells
    {
      var k := DeflatorOfGroup(df, measure, ex, yc, grp, kept[q]);
      CellOfRow(df, ex, gs, k, kept[q]);
    }
  }

  /**
   * What `compute_exchange_deflator` promises of its result `g`: every
   * grouped row, in its original order, unchanged but for the deflator
   * column, which holds the rebased rate of the rows whose group has a base
   * value and is otherwise left as it was (missing when the column is new).
   */
  predicate Deflated(df: Frame, measure: Option<string>, ex: string, yc: string, grp: seq<string>, g: Frame)
    requires Computable(df, measure, ex, yc, grp)
  {
    var dc := DeflatorName(ex);
    var kept := Kept(df, grp);
    && Valid(g) && |g.rows| == |kept|
    && (forall c :: c in df.columns ==> c in g.columns)
    && (forall q, c :: 0 <= q < |kept| && c in df.columns && c != dc ==> Cell(g, q, c) == Cell(df, kept[q], c))
    && (forall q :: 0 <= q < |kept| && DeflatorOf(df, measure, ex, yc, grp, kept[q]).Some? ==>
          dc in g.columns &&
          Cell(g, q, dc) == RebaseCell(Cell(df, kept[q], ex), DeflatorOf(df, measure, ex, yc, grp, kept[q]).value))
    && (forall q :: 0 <= q < |kept| && DeflatorOf(df, measure, ex, yc, grp, kept[q]).None? && dc in g.columns ==>
          Cell(g, q, dc) == if dc in df.columns then Cell(df, kept[q], dc) else Missing)
  }

  /** Matching cells make the assembled frame the promised one. */
  lemma AssembleMatching(df: Frame, measure: Option<string>, ex: string, yc: string, grp: seq<string>, cells: map<nat, Value>)
    requires Computable(df, measure, ex, yc, grp) && CellsMatch(df, measure, ex, yc, grp, cells)
    ensures Deflated(df, measure, ex, yc, grp, Assemble(df, grp, DeflatorName(ex), cells))
  {
  }

  /** The result of `compute_exchange_deflator`, when it does not raise, is the promised frame. */
  lemma ExchangeDeflatorRows(df: Frame, measure: Option<string>, ex: string, yc: string, grouper: Option<seq<string>>)
    requires Computable(df, measure, ex, yc, grouper.GetOr(DefaultGrouper))
    ensures var r := ExchangeDeflator(df, measure, ex, yc, grouper);
            r.Ok? ==> Deflated(df, measure, ex, yc, grouper.GetOr(DefaultGrouper), r.value)
  {
    var grp := grouper.GetOr(DefaultGrouper);
    ProcessedCellsMatch(df, measure, ex, yc, grp);
    ProcessedGroups(df, measure, ex, yc, grp);
    AssembleMatching(df, measure, ex, yc, grp,
                     CellsOf(df, ex, Processed(df, measure, ex, yc, grp, GroupKeys(df, grp, |df.rows|))));
  }
}
