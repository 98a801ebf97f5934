/**
 * The helpers that align the caller's data with a reference table
 * (`pydeflate.utils`): number cleaning, the `pydeflate_year` key, the outer
 * merge with its `_merge` indicator, the matched/unmatched split, the DAC
 * fallback code and the aggregated missing-data message.
 */
module Utils {
  import opened Wrappers
  import opened Strings
  import opened Ordering
  import opened Values
  import opened Frames
  import opened Merging
  import opened Exceptions
  import C = Constants

  /* ---------------------------------------------------------------- clean_number */

  /** The characters the pattern `[^\d.]` does not remove. */
  predicate NumberChar(c: char) {
    '0' <= c <= '9' || c == '.'
  }

  /** `re.sub(r"[^\d.]", "", s)`: the digits and dots of `s`, in order. */
  function NumberChars(s: string): (r: string)
    ensures |r| <= |s|
    ensures forall k :: 0 <= k < |r| ==> NumberChar(r[k])
    ensures forall c :: c in r <==> c in s && NumberChar(c)
    ensures (forall k :: 0 <= k < |s| ==> NumberChar(s[k])) ==> r == s
    ensures (forall k :: 0 <= k < |s| ==> !NumberChar(s[k])) ==> r == []
  {
    if s == [] then []
    else if NumberChar(s[0]) then [s[0]] + NumberChars(s[1..])
    else NumberChars(s[1..])
  }

  /** Cleaning twice is cleaning once. */
  lemma NumberCharsIdempotent(s: string)
    ensures NumberChars(NumberChars(s)) == NumberChars(s)
  {
  }

  /** Cleaning distributes over concatenation: no character's fate depends on its neighbours. */
  lemma {:induction false} NumberCharsConcat(a: string, b: string)
    ensures NumberChars(a + b) == NumberChars(a) + NumberChars(b)
  {
    if a != [] {
      var ab := a + b;
      assert ab[0] == a[0] && ab[1..] == a[1..] + b;
      NumberCharsConcat(a[1..], b);
      assert NumberChars(ab) == (if NumberChar(a[0]) then [a[0]] else []) + NumberChars(ab[1..]);
      assert NumberChars(a) == (if NumberChar(a[0]) then [a[0]] else []) + NumberChars(a[1..]);
    } else {
      assert a + b == b;
    }
  }

  /**
   * `clean_number(number)`: a non-string is first rendered by `str`
   * (`toStr`); the cleaned text is empty, giving NaN, or is read by `float`
   * (`parseFloat`, `None` where `float` raises `ValueError`).
   */
  function CleanNumber(number: Value, toStr: Value -> string, parseFloat: string -> Option<real>): (r: Outcome<Value>)
    ensures var s := NumberChars(if number.Text? then number.s else toStr(number));
            && (r == Ok(Missing) <==> s == [])
            && (s != [] && parseFloat(s).Some? ==> r == Ok(Num(parseFloat(s).value)))
            && (s != [] && parseFloat(s).None? ==> r.Fail? && r.error.cls == ValueError)
  {
    var text := if number.Text? then number.s else toStr(number);
    var s := NumberChars(text);
    if s == [] then Ok(Missing)
    else match parseFloat(s)
      case Some(x) => Ok(Num(x))
      case None => Fail(Error(ValueError, "could not convert string to float: " + Repr(s)))
  }

  /** A text holding no digit and no dot cleans to NaN. */
  lemma CleanNumberNoDigits(s: string, toStr: Value -> string, parseFloat: string -> Option<real>)
    requires forall k :: 0 <= k < |s| ==> !NumberChar(s[k])
    ensures CleanNumber(Text(s), toStr, parseFloat) == Ok(Missing)
  {
  }

  /** A text that is already clean is read as it is. */
  lemma CleanNumberClean(s: string, toStr: Value -> string, parseFloat: string -> Option<real>)
    requires s != [] && forall k :: 0 <= k < |s| ==> NumberChar(s[k])
    ensures parseFloat(s).Some? ==> CleanNumber(Text(s), toStr, parseFloat) == Ok(Num(parseFloat(s).value))
    ensures parseFloat(s).None? ==> CleanNumber(Text(s), toStr, parseFloat).Fail?
  {
  }

  /* ---------------------------------------------------------- create_pydeflate_year */

  /** The format `create_pydeflate_year` passes to `pd.to_datetime` when none is given. */
  const DefaultYearFormat: string := "ISO8601"

  /** `pd.to_datetime(d[yc], format=fmt).dt.year`, row by row. */
  function YearsOf(d: Frame, yc: string, fmt: string, toYear: (string, Value) -> Value): (ys: seq<Value>)
    requires Valid(d) && yc in d.columns
    ensures |ys| == |d.rows|
    ensures forall i :: 0 <= i < |ys| ==> ys[i] == toYear(fmt, Cell(d, i, yc))
  {
    seq(|d.rows|, i requires 0 <= i < |d.rows| => toYear(fmt, Cell(d, i, yc)))
  }

  /**
   * `create_pydeflate_year(data, year_column, year_format)`: a copy of the
   * caller's frame with `pydeflate_year`, the year of `year_column` read in
   * the given format, ISO 8601 by default. Being a value, the caller's frame
   * is left as it was.
   */
  function CreatePydeflateYear(d: Frame, yc: string, fmt: Option<string>, toYear: (string, Value) -> Value): (g: Frame)
    requires Valid(d) && yc in d.columns
    ensures Valid(g) && |g.rows| == |d.rows| && C.Year in g.columns
    ensures g.columns == if C.Year in d.columns then d.columns else d.columns + [C.Year]
    ensures forall i :: 0 <= i < |g.rows| ==> Cell(g, i, C.Year) == toYear(fmt.GetOr(DefaultYearFormat), Cell(d, i, yc))
    ensures forall i, c :: 0 <= i < |g.rows| && c in d.columns && c != C.Year ==> Cell(g, i, c) == Cell(d, i, c)
  {
    Assign(d, C.Year, YearsOf(d, yc, fmt.GetOr(DefaultYearFormat), toYear))
  }

  /** Building the year column twice gives what building it once gives, when the year column is not the source. */
  lemma CreatePydeflateYearTwice(d: Frame, yc: string, fmt: Option<string>, toYear: (string, Value) -> Value)
    requires Valid(d) && yc in d.columns && yc != C.Year
    ensures CreatePydeflateYear(CreatePydeflateYear(d, yc, fmt, toYear), yc, fmt, toYear) == CreatePydeflateYear(d, yc, fmt, toYear)
  {
    var g := CreatePydeflateYear(d, yc, fmt, toYear);
    var h := CreatePydeflateYear(g, yc, fmt, toYear);
    var k := IndexOf(g.columns, C.Year);
    forall i | 0 <= i < |g.rows| ensures h.rows[i] == g.rows[i] {
      assert |h.rows[i]| == |g.rows[i]|;
      forall q | 0 <= q < |g.columns| ensures h.rows[i][q] == g.rows[i][q] {
        var c := g.columns[q];
        if c == C.Year {
          assert Cell(h, i, c) == Cell(g, i, c);
          IndexOfUnique(g.columns, c, IndexOf(g.columns, c));
        }
      }
    }
  }

  /* -------------------------------------------------------- flag_missing_pydeflate_data */

  /** The order `sorted` puts cells in. */
  function ValueOrder(): (Value, Value) -> bool {
    (a: Value, b: Value) => ValueLt(a, b)
  }

  lemma ValueOrderIsStrictTotalOrder()
    ensures StrictTotalOrder(ValueOrder())
  {
    forall a: Value, b: Value, c: Value ensures
      && !ValueOrder()(a, a)
      && (ValueOrder()(a, b) && ValueOrder()(b, c) ==> ValueOrder()(a, c))
      && (a != b ==> ValueOrder()(a, b) || ValueOrder()(b, a))
    {
      ValueLtIsStrictTotalOrder(a, b, c);
    }
  }

  /** The entity cells of the first `n` rows that are not missing (`groupby` drops missing keys). */
  function EntitiesBelow(f: Frame, ec: string, n: nat): (es: seq<Value>)
    requires Valid(f) && ec in f.columns && n <= |f.rows|
    ensures forall k :: 0 <= k < |es| ==> !es[k].Missing?
    ensures forall i :: 0 <= i < n && !Cell(f, i, ec).Missing? ==> Cell(f, i, ec) in es
    ensures forall v :: v in es ==> exists i :: 0 <= i < n && Cell(f, i, ec) == v
  {
    if n == 0 then []
    else
      var v := Cell(f, n - 1, ec);
      EntitiesBelow(f, ec, n - 1) + if v.Missing? then [] else [v]
  }

  /** The year cells of the first `n` rows of entity `e`. */
  function YearsBelow(f: Frame, ec: string, yc: string, e: Value, n: nat): (ys: seq<Value>)
    requires Valid(f) && ec in f.columns && yc in f.columns && n <= |f.rows|
    ensures forall i :: 0 <= i < n && Cell(f, i, ec) == e ==> Cell(f, i, yc) in ys
    ensures forall v :: v in ys ==> exists i :: 0 <= i < n && Cell(f, i, ec) == e && Cell(f, i, yc) == v
  {
    if n == 0 then []
    else
      YearsBelow(f, ec, yc, e, n - 1) + if Cell(f, n - 1, ec) == e then [Cell(f, n - 1, yc)] else []
  }

  /** The groups of `groupby(entity_column)`, in key order. */
  function MissingEntities(f: Frame, ec: string): (es: seq<Value>)
    requires Valid(f) && ec in f.columns
  {
    SortDistinct(ValueOrder(), EntitiesBelow(f, ec, |f.rows|))
  }

  /** `sorted` distinct years of one entity (`drop_duplicates` then `sorted(x)`). */
  function MissingYears(f: Frame, ec: string, yc: string, e: Value): (ys: seq<Value>)
    requires Valid(f) && ec in f.columns && yc in f.columns
  {
    SortDistinct(ValueOrder(), YearsBelow(f, ec, yc, e, |f.rows|))
  }

  /** The groups are the distinct entities present, each once, increasing. */
  lemma MissingEntitiesCorrect(f: Frame, ec: string)
    requires Valid(f) && ec in f.columns
    ensures StrictlySorted(ValueOrder(), MissingEntities(f, ec))
    ensures forall i :: 0 <= i < |f.rows| && !Cell(f, i, ec).Missing? ==> Cell(f, i, ec) in MissingEntities(f, ec)
    ensures forall v :: v in MissingEntities(f, ec) ==> !v.Missing? && exists i :: 0 <= i < |f.rows| && Cell(f, i, ec) == v
  {
    ValueOrderIsStrictTotalOrder();
    var es := EntitiesBelow(f, ec, |f.rows|);
    SortDistinctCorrect(ValueOrder(), es);
    forall v | v in MissingEntities(f, ec) ensures v in es {
      assert v in Elems(MissingEntities(f, ec));
    }
    forall i | 0 <= i < |f.rows| && !Cell(f, i, ec).Missing? ensures Cell(f, i, ec) in MissingEntities(f, ec) {
      assert Cell(f, i, ec) in Elems(es);
    }
  }

  /** The years listed for an entity are its distinct years, each once, increasing. */
  lemma MissingYearsCorrect(f: Frame, ec: string, yc: string, e: Value)
    requires Valid(f) && ec in f.columns && yc in f.columns
    ensures StrictlySorted(ValueOrder(), MissingYears(f, ec, yc, e))
    ensures forall i :: 0 <= i < |f.rows| && Cell(f, i, ec) == e ==> Cell(f, i, yc) in MissingYears(f, ec, yc, e)
    ensures forall v :: v in MissingYears(f, ec, yc, e) ==>
              exists i :: 0 <= i < |f.rows| && Cell(f, i, ec) == e && Cell(f, i, yc) == v
  {
    ValueOrderIsStrictTotalOrder();
    var ys := YearsBelow(f, ec, yc, e, |f.rows|);
    SortDistinctCorrect(ValueOrder(), ys);
    forall v | v in MissingYears(f, ec, yc, e) ensures v in ys {
      assert v in Elems(MissingYears(f, ec, yc, e));
    }
    forall i | 0 <= i < |f.rows| && Cell(f, i, ec) == e ensures Cell(f, i, yc) in MissingYears(f, ec, yc, e) {
      assert Cell(f, i, yc) in Elems(ys);
    }
  }

  /** `str` of each cell. */
  function Shows(vs: seq<Value>): (ss: seq<string>)
    ensures |ss| == |vs| && forall k :: 0 <= k < |vs| ==> ss[k] == Show(vs[k])
  {
    seq(|vs|, k requires 0 <= k < |vs| => Show(vs[k]))
  }

  /** `f"{entity}: {years}"` */
  function MissingLine(f: Frame, ec: string, yc: string, e: Value): string
    requires Valid(f) && ec in f.columns && yc in f.columns
  {
    Show(e) + ": " + Strings.Join(", ", Shows(MissingYears(f, ec, yc, e)))
  }

  /** One line per group, in group order. */
  function MissingLines(f: Frame, ec: string, yc: string): (ls: seq<string>)
    requires Valid(f) && ec in f.columns && yc in f.columns
    ensures |ls| == |MissingEntities(f, ec)|
    ensures forall k :: 0 <= k < |ls| ==> ls[k] == MissingLine(f, ec, yc, MissingEntities(f, ec)[k])
  {
    var es := MissingEntities(f, ec);
    seq(|es|, k requires 0 <= k < |es| => MissingLine(f, ec, yc, es[k]))
  }

  /** The heading of the logged message. */
  function MissingHeader(usingImplied: bool): string {
    if usingImplied then "Using DAC members' rates (given missing data) for:" else "Missing exchange data for:"
  }

  /** What `flag_missing_pydeflate_data` reads without a `KeyError`: nothing when the frame is empty. */
  predicate Flaggable(f: Frame, ec: string, yc: string) {
    Valid(f) && (Empty(f) || (ec in f.columns && yc in f.columns))
  }

  /**
   * `flag_missing_pydeflate_data(unmatched, entity_column, year_column, using_implied)`:
   * the message it logs, `None` when it returns without logging.
   */
  function FlagMissing(f: Frame, ec: string, yc: string, usingImplied: bool): (msg: Option<string>)
    requires Flaggable(f, ec, yc)
    ensures Empty(f) <==> msg.None?
    ensures msg.Some? ==> StartsWith(msg.value, MissingHeader(usingImplied) + "\n")
  {
    if Empty(f) then None
    else Some(MissingHeader(usingImplied) + "\n" + Strings.Join("\n", MissingLines(f, ec, yc)))
  }

  /**
   * A non-empty frame logs the heading, then one line per distinct entity,
   * increasing, each with that entity's distinct years, increasing, joined by ", ".
   */
  lemma FlagMissingLists(f: Frame, ec: string, yc: string, usingImplied: bool)
    requires Flaggable(f, ec, yc) && !Empty(f)
    ensures var es := MissingEntities(f, ec);
            var ls := MissingLines(f, ec, yc);
            && FlagMissing(f, ec, yc, usingImplied) == Some(MissingHeader(usingImplied) + "\n" + Strings.Join("\n", ls))
            && StrictlySorted(ValueOrder(), es)
            && (forall i :: 0 <= i < |f.rows| && !Cell(f, i, ec).Missing? ==> Cell(f, i, ec) in es)
            && (forall v :: v in es ==> !v.Missing? && exists i :: 0 <= i < |f.rows| && Cell(f, i, ec) == v)
            && |ls| == |es|
            && (forall k :: 0 <= k < |es| ==>
                  var ys := MissingYears(f, ec, yc, es[k]);
                  && ls[k] == Show(es[k]) + ": " + Strings.Join(", ", Shows(ys))
                  && StrictlySorted(ValueOrder(), ys)
                  && forall i :: 0 <= i < |f.rows| && Cell(f, i, ec) == es[k] ==> Cell(f, i, yc) in ys)
  {
    MissingEntitiesCorrect(f, ec);
    var es := MissingEntities(f, ec);
    forall k | 0 <= k < |es| ensures StrictlySorted(ValueOrder(), MissingYears(f, ec, yc, es[k]))
      && forall i :: 0 <= i < |f.rows| && Cell(f, i, ec) == es[k] ==> Cell(f, i, yc) in MissingYears(f, ec, yc, es[k])
    {
      MissingYearsCorrect(f, ec, yc, es[k]);
    }
  }

  /* ------------------------------------------------------------ matched / unmatched */

  /** The indicator column `merge(indicator=True)` adds. */
  const Indicator: string := "_merge"

  /** The row test "the `_merge` cell passes `test`". */
  function TagTest(f: Frame, test: Value -> bool): Row -> bool
    requires Indicator in f.columns
  {
    var k := IndexOf(f.columns, Indicator);
    (x: Row) => |x| > k && test(x[k])
  }

  /** The positions of the rows whose `_merge` cell passes `test`, ascending. */
  function TagPositions(f: Frame, test: Value -> bool): (ps: seq<nat>)
    requires Valid(f) && Indicator in f.columns
    ensures forall q :: 0 <= q < |ps| ==> ps[q] < |f.rows| && test(Cell(f, ps[q], Indicator))
    ensures forall m :: 0 <= m < |f.rows| && test(Cell(f, m, Indicator)) ==> m in ps
    ensures forall q, q' :: 0 <= q < q' < |ps| ==> ps[q] < ps[q']
  {
    var ps := Positions(f.rows, TagTest(f, test));
    assert forall m :: 0 <= m < |f.rows| ==> TagTest(f, test)(f.rows[m]) == test(Cell(f, m, Indicator));
    assert forall m :: 0 <= m < |f.rows| && test(Cell(f, m, Indicator)) ==> m in ps by {
      forall m | 0 <= m < |f.rows| && test(Cell(f, m, Indicator)) ensures m in ps {
        PositionsComplete(f.rows, TagTest(f, test), m);
      }
    }
    ps
  }

  /** `df.loc[test(df["_merge"])]`: those rows, in order, with every column. */
  function SelectTagged(f: Frame, test: Value -> bool): (g: Frame)
    requires Valid(f) && Indicator in f.columns
    ensures Valid(g) && g.columns == f.columns
    ensures |g.rows| == |TagPositions(f, test)|
    ensures forall q, c :: 0 <= q < |g.rows| && c in g.columns ==> Cell(g, q, c) == Cell(f, TagPositions(f, test)[q], c)
  {
    WherePositions(f.rows, TagTest(f, test));
    FilterRows(f, TagTest(f, test))
  }

  /** The labels the pattern `^(?!pydeflate_)(?!.*_pydeflate$)` keeps. */
  predicate UserLabel(c: string) {
    !StartsWith(c, C.Prefix) && !EndsWith(c, "_pydeflate")
  }

  predicate IsLeftOnly(v: Value) { v == Text("left_only") }

  predicate NotRightOnly(v: Value) { v != Text("right_only") }

  /**
   * `get_unmatched_pydeflate_data(merged)`: the `left_only` rows, in order,
   * without the reference table's columns.
   */
  function GetUnmatched(merged: Frame): (g: Frame)
    requires Valid(merged) && Indicator in merged.columns
    ensures Valid(g)
    ensures forall c :: c in g.columns <==> c in merged.columns && UserLabel(c)
    ensures var ps := TagPositions(merged, IsLeftOnly);
            && |g.rows| == |ps|
            && forall q, c :: 0 <= q < |g.rows| && c in g.columns ==> Cell(g, q, c) == Cell(merged, ps[q], c)
  {
    KeepColumns(SelectTagged(merged, IsLeftOnly), UserLabel)
  }

  /**
   * `get_matched_pydeflate_data(merged)`: every row that is not `right_only`,
   * in order, without the indicator; `reset_index` renumbers them from 0.
   */
  function GetMatched(merged: Frame): (g: Frame)
    requires Valid(merged) && Indicator in merged.columns
    ensures Valid(g) && Indicator !in g.columns
    ensures forall c :: c in g.columns <==> c in merged.columns && c != Indicator
    ensures var ps := TagPositions(merged, NotRightOnly);
            && |g.rows| == |ps|
            && forall q, c :: 0 <= q < |g.rows| && c in g.columns ==> Cell(g, q, c) == Cell(merged, ps[q], c)
  {
    DropColumns(SelectTagged(merged, NotRightOnly), [Indicator])
  }

  /** Every unmatched row is also a matched one: `left_only` is not `right_only`. */
  lemma UnmatchedWithinMatched(merged: Frame)
    requires Valid(merged) && Indicator in merged.columns
    ensures forall q :: 0 <= q < |TagPositions(merged, IsLeftOnly)| ==>
              TagPositions(merged, IsLeftOnly)[q] in TagPositions(merged, NotRightOnly)
    ensures |TagPositions(merged, IsLeftOnly)| <= |TagPositions(merged, NotRightOnly)|
  {
    var a, b := TagPositions(merged, IsLeftOnly), TagPositions(merged, NotRightOnly);
    SortedSubsetLength(a, b);
  }

  /** A strictly increasing sequence inside another one is no longer than it. */
  lemma {:induction false} SortedSubsetLength(a: seq<nat>, b: seq<nat>)
    requires forall q, q' :: 0 <= q < q' < |a| ==> a[q] < a[q']
    requires forall q, q' :: 0 <= q < q' < |b| ==> b[q] < b[q']
    requires forall q :: 0 <= q < |a| ==> a[q] in b
    ensures |a| <= |b|
  {
    var sa := set q | 0 <= q < |a| :: a[q];
    var sb := set q | 0 <= q < |b| :: b[q];
    assert sa <= sb;
    DistinctCard(a);
    DistinctCard(b);
    assert |sa| <= |sb| by { SubsetCard(sa, sb); }
  }

  lemma SubsetCard(x: set<nat>, y: set<nat>)
    requires x <= y
    ensures |x| <= |y|
  {
    assert y == x + (y - x);
  }

  /** A strictly increasing sequence has as many distinct elements as entries. */
  lemma {:induction false} DistinctCard(a: seq<nat>)
    requires forall q, q' :: 0 <= q < q' < |a| ==> a[q] < a[q']
    ensures |set q | 0 <= q < |a| :: a[q]| == |a|
  {
    if a != [] {
      var init := a[..|a| - 1];
      DistinctCard(init);
      var si := set q | 0 <= q < |init| :: init[q];
      var s := set q | 0 <= q < |a| :: a[q];
      assert s == si + {a[|a| - 1]};
      assert a[|a| - 1] !in si;
    }
  }

  /* ----------------------------------------------------------- _use_implied_dac_rates */

  /** The merge key column `temp_<entity_column>`. */
  function TempColumn(ec: string): (t: string)
    ensures StartsWith(t, "temp_") && t != ec && t != C.Year && t != Indicator
  {
    var t := "temp_" + ec;
    assert t[..5] == "temp_" && t[0] == 't';
    assert |t| > |ec|;
    assert C.Year[0] == 'p' && Indicator[0] == '_';
    t
  }

  /** `v.isin(vs)`: some cell of `vs` matches, missing matching missing. */
  predicate IsIn(v: Value, vs: seq<Value>) {
    exists k :: 0 <= k < |vs| && KeyEq(v, vs[k])
  }

  /** The code that stands for the DAC totals: 20001 with source codes, "DAC" otherwise. */
  function DacFallback(sourceCodes: bool): Value {
    if sourceCodes then Int(20001) else Text(C.Dac)
  }

  /** `pydeflate_data[ix[-1]].unique()`: the entity keys of the reference table, as a membership set. */
  function ReferenceKeys(r: Frame, ix: seq<string>): (ks: seq<Value>)
    requires Valid(r) && |ix| > 0 && ix[|ix| - 1] in r.columns
    ensures |ks| == |r.rows|
  {
    Column(r, ix[|ix| - 1])
  }

  /** The rows of `d` whose `c` cell is not among the keys. */
  function Unkeyed(d: Frame, c: string, keys: seq<Value>): (mask: seq<bool>)
    requires Valid(d) && c in d.columns
    ensures |mask| == |d.rows|
    ensures forall i :: 0 <= i < |d.rows| ==> mask[i] == !IsIn(Cell(d, i, c), keys)
  {
    seq(|d.rows|, i requires 0 <= i < |d.rows| => !IsIn(Cell(d, i, c), keys))
  }

  /**
   * Lines 65-70: every row whose `temp_<entity>` is not a reference key
   * gets the DAC code in that column.
   */
  function ImpliedDac(d: Frame, ec: string, keys: seq<Value>, sourceCodes: bool): (g: Frame)
    requires Valid(d) && TempColumn(ec) in d.columns
    ensures Valid(g) && g.columns == d.columns && |g.rows| == |d.rows|
    ensures forall i :: 0 <= i < |g.rows| ==>
              Cell(g, i, TempColumn(ec)) == if IsIn(Cell(d, i, TempColumn(ec)), keys) then Cell(d, i, TempColumn(ec)) else DacFallback(sourceCodes)
    ensures forall i, c :: 0 <= i < |g.rows| && c in d.columns && c != TempColumn(ec) ==> Cell(g, i, c) == Cell(d, i, c)
  {
    var t := TempColumn(ec);
    Update(d, t, Unkeyed(d, t, keys), seq(|d.rows|, _ => DacFallback(sourceCodes)))
  }

  /** After the substitution every merge key is a reference key or the DAC code. */
  lemma ImpliedDacKeys(d: Frame, ec: string, keys: seq<Value>, sourceCodes: bool)
    requires Valid(d) && TempColumn(ec) in d.columns
    ensures var g := ImpliedDac(d, ec, keys, sourceCodes);
            forall i :: 0 <= i < |g.rows| ==> IsIn(Cell(g, i, TempColumn(ec)), keys) || Cell(g, i, TempColumn(ec)) == DacFallback(sourceCodes)
  {
  }

  /** Replacing a column by its own cells changes nothing. */
  lemma AssignSame(f: Frame, c: string, vals: seq<Value>)
    requires Valid(f) && c in f.columns && |vals| == |f.rows|
    requires forall i :: 0 <= i < |f.rows| ==> vals[i] == Cell(f, i, c)
    ensures Assign(f, c, vals) == f
  {
    var g := Assign(f, c, vals);
    var k := IndexOf(f.columns, c);
    forall i | 0 <= i < |f.rows| ensures g.rows[i] == f.rows[i] {
      assert g.rows[i] == f.rows[i][k := vals[i]];
    }
  }

  /** The substitution is idempotent: a second pass finds nothing left to replace. */
  lemma ImpliedDacIdempotent(d: Frame, ec: string, keys: seq<Value>, sourceCodes: bool)
    requires Valid(d) && TempColumn(ec) in d.columns
    ensures ImpliedDac(ImpliedDac(d, ec, keys, sourceCodes), ec, keys, sourceCodes) == ImpliedDac(d, ec, keys, sourceCodes)
  {
    var t := TempColumn(ec);
    var g := ImpliedDac(d, ec, keys, sourceCodes);
    var mask := Unkeyed(g, t, keys);
    var fill := seq(|g.rows|, _ => DacFallback(sourceCodes));
    var vals := seq(|g.rows|, i requires 0 <= i < |g.rows| => if mask[i] then fill[i] else if t in g.columns then Cell(g, i, t) else Missing);
    assert ImpliedDac(g, ec, keys, sourceCodes) == Assign(g, t, vals);
    AssignSame(g, t, vals);
  }

  /** The rows `flag_missing_pydeflate_data` reports: those whose entity is not a reference key. */
  function UnkeyedRows(d: Frame, ec: string, keys: seq<Value>): (g: Frame)
    requires Valid(d) && ec in d.columns
    ensures Valid(g) && g.columns == d.columns
    ensures forall x :: x in g.rows <==> x in d.rows && !IsIn(x[IndexOf(d.columns, ec)], keys)
  {
    FilterRows(d, UnkeyedTest(IndexOf(d.columns, ec), keys))
  }

  /** The row test "the cell at `k` is not a key". */
  function UnkeyedTest(k: nat, keys: seq<Value>): Row -> bool {
    (x: Row) => |x| > k && !IsIn(x[k], keys)
  }

  /** What `_use_implied_dac_rates` reads without a `KeyError`. */
  predicate DacReadable(d: Frame, r: Frame, ix: seq<string>, ec: string) {
    && Valid(d) && Valid(r) && ec in d.columns && TempColumn(ec) in d.columns
    && |ix| > 0 && ix[|ix| - 1] in r.columns
  }

  /**
   * `_use_implied_dac_rates(data, pydeflate_data, ix, entity_column, source_codes)`:
   * substitutes the DAC code in the caller's frame, in place, and returns
   * the message it logs about the entities concerned.
   */
  method UseImpliedDacRates(data: Table, r: Frame, ix: seq<string>, ec: string, sourceCodes: bool)
    returns (log: Option<string>)
    requires DacReadable(data.frame, r, ix, ec)
    requires Flaggable(UnkeyedRows(data.frame, ec, ReferenceKeys(r, ix)), ec, C.Year)
    modifies data
    ensures data.frame == ImpliedDac(old(data.frame), ec, ReferenceKeys(r, ix), sourceCodes)
    ensures (UnkeyedRowsSame(old(data.frame), data.frame, ec, ReferenceKeys(r, ix));
             log == FlagMissing(UnkeyedRows(data.frame, ec, ReferenceKeys(r, ix)), ec, C.Year, true))
  {
    var keys := ReferenceKeys(r, ix);
    var t := TempColumn(ec);
    var before := data.frame;
    data.SetWhere(t, Unkeyed(data.frame, t, keys), seq(|data.frame.rows|, _ => DacFallback(sourceCodes)));
    UnkeyedRowsSame(before, data.frame, ec, keys);
    log := FlagMissing(UnkeyedRows(data.frame, ec, keys), ec, C.Year, true);
  }

  /** Frames that agree on every column but the merge key report the same rows' entities and years. */
  lemma UnkeyedRowsSame(d: Frame, g: Frame, ec: string, keys: seq<Value>)
    requires Valid(d) && Valid(g) && ec in d.columns && g.columns == d.columns && |g.rows| == |d.rows|
    requires forall i :: 0 <= i < |d.rows| ==> Cell(g, i, ec) == Cell(d, i, ec)
    ensures Empty(UnkeyedRows(g, ec, keys)) == Empty(UnkeyedRows(d, ec, keys))
  {
    var k := IndexOf(d.columns, ec);
    var p := UnkeyedTest(k, keys);
    assert forall i :: 0 <= i < |d.rows| ==> p(d.rows[i]) == p(g.rows[i]) by {
      forall i | 0 <= i < |d.rows| ensures p(d.rows[i]) == p(g.rows[i]) {
        assert d.rows[i][k] == Cell(d, i, ec) && g.rows[i][k] == Cell(g, i, ec);
      }
    }
    PositionsAgree(d.rows, g.rows, p);
    assert |Where(d.rows, p)| == |Where(g.rows, p)| by {
      WherePositions(d.rows, p);
      WherePositions(g.rows, p);
    }
  }

  /** Rows that pass a test at the same places are selected at the same places. */
  lemma {:induction false} PositionsAgree(a: seq<Row>, b: seq<Row>, p: Row -> bool)
    requires |a| == |b| && forall i :: 0 <= i < |a| ==> p(a[i]) == p(b[i])
    ensures Positions(a, p) == Positions(b, p)
  {
    if a != [] {
      PositionsAgree(a[..|a| - 1], b[..|b| - 1], p);
    }
  }

  /* ------------------------------------------------------- merge_user_and_pydeflate_data */

  /** The `merge` call of lines 105-111. */
  function UserJoin(ec: string, ix: seq<string>): Join {
    Join([C.Year, TempColumn(ec)], ix, OuterJoin, "", "_pydeflate", true)
  }

  /** The caller's frame as it enters the merge: line 94, then the DAC substitution when asked. */
  function Prepared(d: Frame, r: Frame, ix: seq<string>, ec: string, sourceCodes: bool, dac: bool): (g: Frame)
    requires Valid(d) && Valid(r) && ec in d.columns && |ix| > 0 && ix[|ix| - 1] in r.columns
    ensures Valid(g) && |g.rows| == |d.rows| && TempColumn(ec) in g.columns
    ensures g.columns == if TempColumn(ec) in d.columns then d.columns else d.columns + [TempColumn(ec)]
    ensures forall i, c :: 0 <= i < |g.rows| && c in d.columns && c != TempColumn(ec) ==> Cell(g, i, c) == Cell(d, i, c)
    ensures forall i :: 0 <= i < |g.rows| ==>
              Cell(g, i, TempColumn(ec)) ==
                if dac && !IsIn(Cell(d, i, ec), ReferenceKeys(r, ix)) then DacFallback(sourceCodes) else Cell(d, i, ec)
  {
    var d1 := Assign(d, TempColumn(ec), Column(d, ec));
    if dac then ImpliedDac(d1, ec, ReferenceKeys(r, ix), sourceCodes) else d1
  }

  /** What `merge_user_and_pydeflate_data` reads without pandas raising. */
  predicate Mergeable(d: Frame, r: Frame, ec: string, ix: seq<string>) {
    && Valid(d) && Valid(r) && ec in d.columns && C.Year in d.columns
    && |ix| == 2 && HasColumns(r, ix)
    && Indicator !in d.columns && Indicator !in r.columns
  }

  /** The merged frame without the key column. */
  function MergedUser(d: Frame, r: Frame, ec: string, ix: seq<string>, sourceCodes: bool, dac: bool): (g: Frame)
    requires Mergeable(d, r, ec, ix)
    ensures Valid(g) && TempColumn(ec) !in g.columns
  {
    var p := Prepared(d, r, ix, ec, sourceCodes, dac);
    DropColumns(Merge(p, r, UserJoin(ec, ix)), [TempColumn(ec)])
  }

  /**
   * `merge_user_and_pydeflate_data(data, pydeflate_data, entity_column, ix, source_codes, dac)`:
   * adds the key column to the caller's frame in place (and substitutes the
   * DAC code when `dac`), then returns the outer merge without that column,
   * with the message the substitution logs.
   */
  method MergeUserAndPydeflateData(data: Table, r: Frame, ec: string, ix: seq<string>, sourceCodes: bool, dac: bool)
    returns (out: Frame, log: Option<string>)
    requires Mergeable(data.frame, r, ec, ix)
    modifies data
    ensures data.frame == Prepared(old(data.frame), r, ix, ec, sourceCodes, dac)
    ensures out == MergedUser(old(data.frame), r, ec, ix, sourceCodes, dac)
    ensures log == if dac then FlagMissing(UnkeyedRows(data.frame, ec, ReferenceKeys(r, ix)), ec, C.Year, true) else None
  {
    var d0 := data.frame;
    data.SetColumn(TempColumn(ec), Column(data.frame, ec));
    log := None;
    if dac {
      assert Flaggable(UnkeyedRows(data.frame, ec, ReferenceKeys(r, ix)), ec, C.Year);
      log := UseImpliedDacRates(data, r, ix, ec, sourceCodes);
    }
    out := DropColumns(Merge(data.frame, r, UserJoin(ec, ix)), [TempColumn(ec)]);
  }

  /** The three values of the indicator. */
  predicate MergeTag(v: Value) {
    v == Text("both") || v == Text("left_only") || v == Text("right_only")
  }

  /** No data label of the merge is `_merge` when neither side has one: `_pydeflate` labels are longer. */
  lemma UserDataColumns(p: Frame, r: Frame, ec: string, ix: seq<string>)
    requires |ix| == 2 && Indicator !in p.columns && Indicator !in r.columns
    ensures Indicator !in DataColumns(p, r, UserJoin(ec, ix))
  {
    var j := UserJoin(ec, ix);
    var ov := Overlap(p, r, j);
    var kept := RightKept(r, j);
    SuffixedEmpty(p.columns, ov);
    var right := Suffixed(kept, ov, j.rightSuffix);
    forall k | 0 <= k < |right| ensures right[k] != Indicator {
      assert kept[k] in kept;
      if kept[k] in ov {
        assert |right[k]| == |kept[k]| + 10;
      }
    }
    assert DataColumns(p, r, j) == p.columns + right;
  }

  /** The `_merge` cell of every row of the merge, and the rows the caller's rows give come first. */
  lemma UserMergeTags(p: Frame, r: Frame, ec: string, ix: seq<string>)
    requires Joinable(p, r, UserJoin(ec, ix)) && |ix| == 2 && Indicator !in p.columns && Indicator !in r.columns
    ensures var g := Merge(p, r, UserJoin(ec, ix));
            && Indicator in g.columns && |p.rows| <= |g.rows|
            && (forall i :: 0 <= i < |g.rows| ==> MergeTag(Cell(g, i, Indicator)))
            && (forall i :: 0 <= i < |p.rows| ==> NotRightOnly(Cell(g, i, Indicator)))
  {
    var j := UserJoin(ec, ix);
    UserDataColumns(p, r, ec, ix);
    MergeIndicatorCells(p, r, j);
    LeftDrivenCovers(p, r, j, |p.rows|);
  }

  /**
   * Every row of the result is tagged `both`, `left_only` or `right_only`,
   * and the first rows, one at least per caller row, are not `right_only`.
   */
  lemma MergedUserTags(d: Frame, r: Frame, ec: string, ix: seq<string>, sourceCodes: bool, dac: bool)
    requires Mergeable(d, r, ec, ix)
    ensures var g := MergedUser(d, r, ec, ix, sourceCodes, dac);
            && Indicator in g.columns && |d.rows| <= |g.rows|
            && (forall i :: 0 <= i < |g.rows| ==> MergeTag(Cell(g, i, Indicator)))
            && (forall i :: 0 <= i < |d.rows| ==> NotRightOnly(Cell(g, i, Indicator)))
  {
    var p := Prepared(d, r, ix, ec, sourceCodes, dac);
    assert Indicator !in p.columns;
    UserMergeTags(p, r, ec, ix);
    DroppedTags(Merge(p, r, UserJoin(ec, ix)), TempColumn(ec), |p.rows|);
  }

  /** Dropping a column other than the indicator keeps every tag. */
  lemma DroppedTags(m: Frame, t: string, n: nat)
    requires Valid(m) && Indicator in m.columns && t != Indicator && n <= |m.rows|
    requires forall i :: 0 <= i < |m.rows| ==> MergeTag(Cell(m, i, Indicator))
    requires forall i :: 0 <= i < n ==> NotRightOnly(Cell(m, i, Indicator))
    ensures var g := DropColumns(m, [t]);
            && Indicator in g.columns && n <= |g.rows|
            && (forall i :: 0 <= i < |g.rows| ==> MergeTag(Cell(g, i, Indicator)))
            && (forall i :: 0 <= i < n ==> NotRightOnly(Cell(g, i, Indicator)))
  {
  }

  /** Every caller column but the key survives the merge under its own label. */
  lemma MergedUserColumns(d: Frame, r: Frame, ec: string, ix: seq<string>, sourceCodes: bool, dac: bool)
    requires Mergeable(d, r, ec, ix)
    ensures forall c :: c in d.columns && c != TempColumn(ec) ==> c in MergedUser(d, r, ec, ix, sourceCodes, dac).columns
  {
    var p := Prepared(d, r, ix, ec, sourceCodes, dac);
    forall c | c in d.columns && c != TempColumn(ec) ensures c in MergedColumns(p, r, UserJoin(ec, ix)) {
      MergedLeftUnsuffixed(p, r, UserJoin(ec, ix), c);
    }
  }

  /** `get_matched_pydeflate_data` of the merge keeps at least one row per caller row. */
  lemma MatchedKeepsCallerRows(d: Frame, r: Frame, ec: string, ix: seq<string>, sourceCodes: bool, dac: bool)
    requires Mergeable(d, r, ec, ix)
    ensures (MergedUserTags(d, r, ec, ix, sourceCodes, dac);
             |GetMatched(MergedUser(d, r, ec, ix, sourceCodes, dac)).rows| >= |d.rows|)
  {
    MergedUserTags(d, r, ec, ix, sourceCodes, dac);
    MatchedAtLeast(MergedUser(d, r, ec, ix, sourceCodes, dac), |d.rows|);
  }

  /** Rows that are not `right_only` are kept by `get_matched_pydeflate_data`. */
  lemma MatchedAtLeast(g: Frame, n: nat)
    requires Valid(g) && Indicator in g.columns && n <= |g.rows|
    requires forall i :: 0 <= i < n ==> NotRightOnly(Cell(g, i, Indicator))
    ensures |GetMatched(g).rows| >= n
  {
    var ps := TagPositions(g, NotRightOnly);
    var a := seq(n, i requires 0 <= i < n => i as nat);
    assert forall q :: 0 <= q < |a| ==> a[q] in ps;
    SortedSubsetLength(a, ps);
  }
}
