/**
 * The deflator (`Deflator`): fetches a price or exchange deflator series
 * from its source and rebases it so that every entity's base-year value is
 * 100.
 */
module Deflators {
  import opened Wrappers
  import opened Strings
  import opened Values
  import opened Frames
  import opened Merging
  import opened Exceptions
  import C = Constants

  /** The temporary label of the base-year values. */
  const BaseYearValue: string := "base_year_value"

  /** `Source._idx` */
  const Idx: seq<string> := C.StandardIndex

  /** The rebase join keys: the index without the year. */
  const Keys: seq<string> := [C.EntityCode, C.Iso3]

  /** `_ensure_deflator_suffix` */
  function EnsureDeflatorSuffix(c: string): (r: string)
    ensures EndsWith(r, "_D")
    ensures EndsWith(c, "_D") ==> r == c
    ensures !EndsWith(c, "_D") ==> r == c + "_D"
  {
    if EndsWith(c, "_D") then c else c + "_D"
  }

  lemma EnsureDeflatorSuffixIdempotent(c: string)
    ensures EnsureDeflatorSuffix(EnsureDeflatorSuffix(c)) == EnsureDeflatorSuffix(c)
  {
  }

  /** No index label ends in `_D`. */
  lemma IndexLabelsLackSuffix(c: string)
    requires EndsWith(c, "_D")
    ensures c !in Idx && c != BaseYearValue
  {
    assert !EndsWith(C.Year, "_D") && !EndsWith(C.EntityCode, "_D") && !EndsWith(C.Iso3, "_D");
    assert !EndsWith(BaseYearValue, "_D");
  }

  /** Labels that are not index labels. */
  function NonIndex(cols: seq<string>): (r: seq<string>)
    ensures forall c :: c in r <==> c in cols && c !in Idx
  {
    Keep(cols, c => c !in Idx)
  }

  /** `_get_deflator_value_column`: the one label outside the index. */
  function ValueColumn(f: Frame): (r: Outcome<string>)
    ensures r.Ok? <==> exists c :: c in f.columns && c !in Idx && forall d :: d in f.columns && d !in Idx ==> d == c
    ensures r.Ok? ==> r.value in f.columns && r.value !in Idx
    ensures r.Ok? ==> forall d :: d in f.columns && d !in Idx ==> d == r.value
    ensures r.Fail? ==> r.error == Error(ValueError, "Invalid deflator data format.")
  {
    var vs := NonIndex(f.columns);
    SingleNonIndex(f.columns);
    if |vs| > 0 && forall k :: 0 <= k < |vs| ==> vs[k] == vs[0] then
      assert vs[0] in vs;
      Ok(vs[0])
    else
      Fail(Error(ValueError, "Invalid deflator data format."))
  }

  /** One label outside the index, possibly repeated, is what `ValueColumn` tests for. */
  lemma SingleNonIndex(cols: seq<string>)
    ensures var vs := NonIndex(cols);
            (exists c :: c in cols && c !in Idx && forall d :: d in cols && d !in Idx ==> d == c) ==>
              |vs| > 0 && forall k :: 0 <= k < |vs| ==> vs[k] == vs[0]
  {
    var vs := NonIndex(cols);
    if exists c :: c in cols && c !in Idx && forall d :: d in cols && d !in Idx ==> d == c {
      var c :| c in cols && c !in Idx && forall d :: d in cols && d !in Idx ==> d == c;
      assert c in vs;
      forall k | 0 <= k < |vs| ensures vs[k] == c { assert vs[k] in vs; }
    }
  }

  /** The deflator data carries the index labels. */
  predicate Indexed(f: Frame) {
    Valid(f) && C.Year in f.columns && C.EntityCode in f.columns && C.Iso3 in f.columns
  }

  /** `df["pydeflate_year"] == base_year`, on one row. */
  function AtBaseYear(f: Frame, y: int): Row -> bool
    requires C.Year in f.columns
  {
    var k := IndexOf(f.columns, C.Year);
    (x: Row) => |x| > k && Eq(x[k], Int(y))
  }

  predicate IsBaseRow(f: Frame, y: int, m: nat)
    requires Valid(f) && C.Year in f.columns
  {
    m < |f.rows| && Eq(Cell(f, m, C.Year), Int(y))
  }

  lemma AtBaseYearIff(f: Frame, y: int, m: nat)
    requires Valid(f) && C.Year in f.columns && m < |f.rows|
    ensures AtBaseYear(f, y)(f.rows[m]) <==> IsBaseRow(f, y, m)
  {
  }

  /** The base-year rows, with the value label renamed `base_year_value`. */
  function BaseRows(f: Frame, vc: string, y: int): (b: Frame)
    requires Indexed(f) && vc in f.columns
    ensures b.columns == Rename(f.columns, vc, BaseYearValue)
    ensures |b.rows| == |Positions(f.rows, AtBaseYear(f, y))|
    ensures forall q :: 0 <= q < |b.rows| ==> b.rows[q] == f.rows[Positions(f.rows, AtBaseYear(f, y))[q]]
    ensures Valid(b)
  {
    WherePositions(f.rows, AtBaseYear(f, y));
    Frame(Rename(f.columns, vc, BaseYearValue), Where(f.rows, AtBaseYear(f, y)))
  }

  /**
   * The base-year rows, with the value label renamed `base_year_value` and
   * the year dropped (`_extract_base_year_values` before its check).
   */
  function BaseFrame(f: Frame, vc: string, y: int): (b: Frame)
    requires Indexed(f) && vc in f.columns && vc != C.Year && BaseYearValue !in f.columns
    ensures Valid(b)
    ensures forall c :: c in b.columns <==> c == BaseYearValue || (c in f.columns && c != vc && c != C.Year)
    ensures |b.rows| == |Positions(f.rows, AtBaseYear(f, y))|
  {
    RenameMembers(f.columns, vc, BaseYearValue);
    DropColumns(BaseRows(f, vc, y), [C.Year])
  }

  /** The data row behind base row `q` has the base year. */
  lemma BaseFrameRow(f: Frame, vc: string, y: int, q: nat)
    requires Indexed(f) && vc in f.columns && vc != C.Year && BaseYearValue !in f.columns
    requires q < |BaseFrame(f, vc, y).rows|
    ensures IsBaseRow(f, y, Positions(f.rows, AtBaseYear(f, y))[q])
  {
    AtBaseYearIff(f, y, Positions(f.rows, AtBaseYear(f, y))[q]);
  }

  /** Base row `q` holds the cells of the `q`-th base-year row of the data. */
  lemma BaseFrameCells(f: Frame, vc: string, y: int, q: nat)
    requires Indexed(f) && vc in f.columns && vc != C.Year && BaseYearValue !in f.columns
    requires q < |BaseFrame(f, vc, y).rows|
    ensures var m := Positions(f.rows, AtBaseYear(f, y))[q];
            var b := BaseFrame(f, vc, y);
            && Cell(b, q, BaseYearValue) == Cell(f, m, vc)
            && forall c :: c in f.columns && c != vc && c != C.Year ==> c in b.columns && Cell(b, q, c) == Cell(f, m, c)
  {
    var m := Positions(f.rows, AtBaseYear(f, y))[q];
    RenameCells(f, vc, BaseYearValue, BaseRows(f, vc, y), q, m);
  }

  /** Some row has the base year exactly when `BaseFrame` has a row. */
  lemma BaseRowsExist(f: Frame, y: int)
    requires Valid(f) && C.Year in f.columns
    ensures |Positions(f.rows, AtBaseYear(f, y))| == 0 <==> forall m :: 0 <= m < |f.rows| ==> !IsBaseRow(f, y, m)
  {
    var ps := Positions(f.rows, AtBaseYear(f, y));
    if |ps| > 0 {
      AtBaseYearIff(f, y, ps[0]);
    }
    forall m | 0 <= m < |f.rows| && IsBaseRow(f, y, m) ensures |ps| > 0 {
      AtBaseYearIff(f, y, m);
      PositionsComplete(f.rows, AtBaseYear(f, y), m);
    }
  }

  /** `_extract_base_year_values`: fails when no row has the base year. */
  function ExtractBaseYearValues(f: Frame, vc: string, y: int): (r: Outcome<Frame>)
    requires Indexed(f) && vc in f.columns && vc != C.Year && BaseYearValue !in f.columns
    ensures r.Fail? <==> forall m :: 0 <= m < |f.rows| ==> !IsBaseRow(f, y, m)
    ensures r.Fail? ==> r.error == Error(ValueError, "No data found for base year " + IntToString(y) + ".")
    ensures r.Ok? ==> r.value == BaseFrame(f, vc, y)
  {
    var b := BaseFrame(f, vc, y);
    BaseRowsExist(f, y);
    assert BaseYearValue in b.columns;
    if Empty(b) then Fail(Error(ValueError, "No data found for base year " + IntToString(y) + "."))
    else Ok(b)
  }

  /** `merge(base_year_values, on=[entity_code, iso3], how="left")` */
  const RebaseJoin: Join := Join(Keys, Keys, LeftJoin, "_x", "_y", false)

  /** The preconditions under which pandas does not raise a `KeyError` in the merge. */
  predicate Rebasable(f: Frame, vc: string) {
    Indexed(f) && vc in f.columns && vc !in Idx && BaseYearValue !in f.columns
  }

  /** `vc` is the only label outside the index. */
  predicate OnlyValue(f: Frame, vc: string) {
    forall d :: d in f.columns && d !in Idx ==> d == vc
  }

  /** The labels `BaseFrame` has: the data's, with the value renamed and the year dropped. */
  ghost predicate BaseLabels(f: Frame, vc: string, base: Frame) {
    forall c :: c in base.columns <==> c == BaseYearValue || (c in f.columns && c != vc && c != C.Year)
  }

  /**
   * `base` holds, at its row `q`, the keys and the value of the base-year
   * row `ps[q]` of `f`, and `ps` lists every base-year row once, in order.
   */
  ghost predicate BaseOf(f: Frame, vc: string, y: int, base: Frame, ps: seq<nat>)
    requires Rebasable(f, vc)
  {
    && Valid(base) && BaseLabels(f, vc, base) && |ps| == |base.rows|
    && (forall q :: 0 <= q < |ps| ==> ps[q] < |f.rows| && IsBaseRow(f, y, ps[q]))
    && (forall q, q' :: 0 <= q < q' < |ps| ==> ps[q] < ps[q'])
    && (forall m :: 0 <= m < |f.rows| && IsBaseRow(f, y, m) ==> m in ps)
    && forall q :: 0 <= q < |ps| ==>
         && Cell(base, q, BaseYearValue) == Cell(f, ps[q], vc)
         && Cell(base, q, C.EntityCode) == Cell(f, ps[q], C.EntityCode)
         && Cell(base, q, C.Iso3) == Cell(f, ps[q], C.Iso3)
  }

  /** `BaseFrame` is the base-year table of the data. */
  lemma BaseFrameIsBaseOf(f: Frame, vc: string, y: int)
    requires Rebasable(f, vc)
    ensures BaseOf(f, vc, y, BaseFrame(f, vc, y), Positions(f.rows, AtBaseYear(f, y)))
  {
    var base := BaseFrame(f, vc, y);
    var ps := Positions(f.rows, AtBaseYear(f, y));
    forall q | 0 <= q < |ps|
      ensures ps[q] < |f.rows| && IsBaseRow(f, y, ps[q])
      ensures Cell(base, q, BaseYearValue) == Cell(f, ps[q], vc)
      ensures Cell(base, q, C.EntityCode) == Cell(f, ps[q], C.EntityCode)
      ensures Cell(base, q, C.Iso3) == Cell(f, ps[q], C.Iso3)
    {
      BaseFrameRow(f, vc, y, q);
      BaseFrameCells(f, vc, y, q);
    }
    forall m | 0 <= m < |f.rows| && IsBaseRow(f, y, m) ensures m in ps {
      AtBaseYearIff(f, y, m);
      PositionsComplete(f.rows, AtBaseYear(f, y), m);
    }
  }

  /** The shape the rebase merge has: the base table adds only `base_year_value`. */
  lemma RebaseShape(f: Frame, vc: string, base: Frame)
    requires Rebasable(f, vc) && OnlyValue(f, vc) && Valid(base) && BaseLabels(f, vc, base)
    ensures Joinable(f, base, RebaseJoin)
    ensures forall c :: c in RightKept(base, RebaseJoin) <==> c == BaseYearValue
    ensures Overlap(f, base, RebaseJoin) == {}
    ensures vc in MergedColumns(f, base, RebaseJoin) && BaseYearValue in MergedColumns(f, base, RebaseJoin)
  {
    var j := RebaseJoin;
    assert Shared(j) == {C.EntityCode, C.Iso3} by {
      assert j.leftOn[0] == j.rightOn[0] == C.EntityCode;
      assert j.leftOn[1] == j.rightOn[1] == C.Iso3;
    }
    assert HasColumns(base, j.rightOn);
    forall c ensures c in RightKept(base, j) <==> c == BaseYearValue {
      if c in base.columns && c != BaseYearValue {
        assert c in f.columns && c != vc && c != C.Year;
        assert c in Idx;
      }
    }
    assert Overlap(f, base, j) == {};
    MergedLeftLabel(f, base, j, vc);
    MergedRightLabel(f, base, j, BaseYearValue);
  }

  /** `round(100 * data[value_column] / data["base_year_value"], 6)`, row by row. */
  function RebasedValues(m: Frame, vc: string): (vals: seq<Value>)
    requires Valid(m) && vc in m.columns && BaseYearValue in m.columns
    ensures |vals| == |m.rows|
  {
    seq(|m.rows|, i requires 0 <= i < |m.rows| => RebaseCell(Cell(m, i, vc), Cell(m, i, BaseYearValue)))
  }

  /** The merge with a base table and the rebased column, without `base_year_value`. */
  function RebasedOn(f: Frame, vc: string, base: Frame): (g: Frame)
    requires Rebasable(f, vc) && OnlyValue(f, vc) && Valid(base) && BaseLabels(f, vc, base)
  {
    RebaseShape(f, vc, base);
    var merged := Merge(f, base, RebaseJoin);
    DropColumns(Assign(merged, EnsureDeflatorSuffix(vc), RebasedValues(merged, vc)), [BaseYearValue])
  }

  /** The rebase on the data's own base-year values. */
  function Rebased(f: Frame, vc: string, y: int): Frame
    requires Rebasable(f, vc) && OnlyValue(f, vc)
  {
    RebasedOn(f, vc, BaseFrame(f, vc, y))
  }

  /** `rebase_deflator` on the deflator data. */
  function RebaseDeflator(f: Frame, y: int): (r: Outcome<Frame>)
    requires Valid(f)
    requires !Empty(f) && ValueColumn(f).Ok? ==> Rebasable(f, ValueColumn(f).value)
    ensures Empty(f) ==> r == Fail(Error(ValueError, "No deflator data found."))
    ensures !Empty(f) && ValueColumn(f).Fail? ==> r == Fail(Error(ValueError, "Invalid deflator data format."))
    ensures !Empty(f) && ValueColumn(f).Ok? && (forall m :: 0 <= m < |f.rows| ==> !IsBaseRow(f, y, m)) ==>
              r == Fail(Error(ValueError, "No data found for base year " + IntToString(y) + "."))
    ensures r.Ok? <==> !Empty(f) && ValueColumn(f).Ok? && exists m :: 0 <= m < |f.rows| && IsBaseRow(f, y, m)
  {
    if Empty(f) then Fail(Error(ValueError, "No deflator data found."))
    else
      match ValueColumn(f)
      case Fail(e) => Fail(e)
      case Ok(vc) =>
        match ExtractBaseYearValues(f, vc, y)
        case Fail(e) => Fail(e)
        case Ok(_) => Ok(Rebased(f, vc, y))
  }

  /** No two base-year rows share their entity code and ISO3 code. */
  predicate BaseKeysDistinct(f: Frame, y: int)
    requires Indexed(f)
  {
    forall m1, m2 :: 0 <= m1 < |f.rows| && 0 <= m2 < |f.rows| && IsBaseRow(f, y, m1) && IsBaseRow(f, y, m2) && m1 != m2 ==> !SameEntity(f, m1, m2)
  }

  /** Rows `a` and `b` have equal entity and ISO3 codes, as the merge compares them. */
  predicate SameEntity(f: Frame, a: nat, b: nat)
    requires Indexed(f) && a < |f.rows| && b < |f.rows|
  {
    KeyEq(Cell(f, a, C.EntityCode), Cell(f, b, C.EntityCode)) && KeyEq(Cell(f, a, C.Iso3), Cell(f, b, C.Iso3))
  }

  /** The first base-year row below `n` of the same entity as row `i`. */
  function BaseRowOf(f: Frame, y: int, i: nat, n: nat): (r: Option<nat>)
    requires Indexed(f) && i < |f.rows| && n <= |f.rows|
    ensures r.Some? ==> r.value < n && IsBaseRow(f, y, r.value) && SameEntity(f, i, r.value)
  {
    if n == 0 then None
    else
      var prev := BaseRowOf(f, y, i, n - 1);
      if prev.Some? then prev
      else if IsBaseRow(f, y, n - 1) && SameEntity(f, i, n - 1) then Some(n - 1)
      else None
  }

  /** A base-year row of row `i`'s entity below `n` means one is found. */
  lemma {:induction false} BaseRowFound(f: Frame, y: int, i: nat, n: nat, m: nat)
    requires Indexed(f) && i < |f.rows| && n <= |f.rows| && m < n
    requires IsBaseRow(f, y, m) && SameEntity(f, i, m)
    ensures BaseRowOf(f, y, i, n).Some?
  {
    if m < n - 1 {
      BaseRowFound(f, y, i, n - 1, m);
    }
  }

  /** The reference rebase of row `i`: its value over its entity's base-year value, rounded. */
  function ReferenceRebase(f: Frame, vc: string, y: int, i: nat): Value
    requires Indexed(f) && vc in f.columns && i < |f.rows|
  {
    var b := BaseRowOf(f, y, i, |f.rows|);
    RebaseCell(Cell(f, i, vc), if b.Some? then Cell(f, b.value, vc) else Missing)
  }

  /** The merge key of base row `q` is the entity of data row `ps[q]`. */
  lemma BaseKey(f: Frame, vc: string, y: int, base: Frame, ps: seq<nat>, q: nat)
    requires Rebasable(f, vc) && OnlyValue(f, vc) && BaseOf(f, vc, y, base, ps) && q < |base.rows|
    ensures (RebaseShape(f, vc, base);
             RightKey(f, base, RebaseJoin, q) == [Cell(f, ps[q], C.EntityCode), Cell(f, ps[q], C.Iso3)])
  {
    RebaseShape(f, vc, base);
    RightKeyPair(f, base, RebaseJoin, q);
  }

  /** The merge key of data row `i` is its entity. */
  lemma DataKey(f: Frame, vc: string, base: Frame, i: nat)
    requires Rebasable(f, vc) && OnlyValue(f, vc) && Valid(base) && BaseLabels(f, vc, base) && i < |f.rows|
    ensures (RebaseShape(f, vc, base);
             LeftKey(f, base, RebaseJoin, i) == [Cell(f, i, C.EntityCode), Cell(f, i, C.Iso3)])
  {
    RebaseShape(f, vc, base);
    LeftKeyPair(f, base, RebaseJoin, i);
  }

  /** Data row `i` matches base row `q` exactly when it has the entity of data row `ps[q]`. */
  lemma KeyMatch(f: Frame, vc: string, y: int, base: Frame, ps: seq<nat>, i: nat, q: nat)
    requires Rebasable(f, vc) && OnlyValue(f, vc) && BaseOf(f, vc, y, base, ps)
    requires i < |f.rows| && q < |base.rows|
    ensures (RebaseShape(f, vc, base);
             SameKey(LeftKey(f, base, RebaseJoin, i), RightKey(f, base, RebaseJoin, q)) <==> SameEntity(f, i, ps[q]))
  {
    RebaseShape(f, vc, base);
    DataKey(f, vc, base, i);
    BaseKey(f, vc, y, base, ps, q);
    PairKeys(Cell(f, i, C.EntityCode), Cell(f, i, C.Iso3), Cell(f, ps[q], C.EntityCode), Cell(f, ps[q], C.Iso3));
  }

  /** With distinct base keys the base table's keys are distinct too. */
  lemma RebaseKeysDistinct(f: Frame, vc: string, y: int, base: Frame, ps: seq<nat>)
    requires Rebasable(f, vc) && OnlyValue(f, vc) && BaseOf(f, vc, y, base, ps) && BaseKeysDistinct(f, y)
    ensures (RebaseShape(f, vc, base); RightKeysDistinct(f, base, RebaseJoin))
  {
    RebaseShape(f, vc, base);
    forall m1, m2 | 0 <= m1 < m2 < |base.rows|
      ensures !SameKey(RightKey(f, base, RebaseJoin, m1), RightKey(f, base, RebaseJoin, m2))
    {
      BaseKey(f, vc, y, base, ps, m1);
      BaseKey(f, vc, y, base, ps, m2);
      assert ps[m1] != ps[m2];
      PairKeys(Cell(f, ps[m1], C.EntityCode), Cell(f, ps[m1], C.Iso3), Cell(f, ps[m2], C.EntityCode), Cell(f, ps[m2], C.Iso3));
      assert !SameEntity(f, ps[m1], ps[m2]);
    }
  }

  /** Base-year rows of one entity are the same row, when base keys are distinct. */
  lemma SameBaseRow(f: Frame, y: int, i: nat, a: nat, b: nat)
    requires Indexed(f) && BaseKeysDistinct(f, y) && i < |f.rows| && a < |f.rows| && b < |f.rows|
    requires IsBaseRow(f, y, a) && IsBaseRow(f, y, b) && SameEntity(f, i, a) && SameEntity(f, i, b)
    ensures a == b
  {
    KeyEqIsEquivalence(Cell(f, i, C.EntityCode), Cell(f, a, C.EntityCode), Cell(f, b, C.EntityCode));
    KeyEqIsEquivalence(Cell(f, i, C.Iso3), Cell(f, a, C.Iso3), Cell(f, b, C.Iso3));
  }

  /** Row `i` of the merge has a partner exactly when its entity has a base-year row, and takes that row's value. */
  lemma RebasePartner(f: Frame, vc: string, y: int, base: Frame, ps: seq<nat>, i: nat)
    requires Rebasable(f, vc) && OnlyValue(f, vc) && BaseOf(f, vc, y, base, ps) && BaseKeysDistinct(f, y)
    requires i < |f.rows|
    ensures (RebaseShape(f, vc, base); RebaseKeysDistinct(f, vc, y, base, ps);
             var b := BaseRowOf(f, y, i, |f.rows|);
             && (HasPartner(f, base, RebaseJoin, i) <==> b.Some?)
             && (b.Some? ==> Cell(base, Partner(f, base, RebaseJoin, i), BaseYearValue) == Cell(f, b.value, vc)))
  {
    RebaseShape(f, vc, base);
    RebaseKeysDistinct(f, vc, y, base, ps);
    var j := RebaseJoin;
    var b := BaseRowOf(f, y, i, |f.rows|);
    HasPartnerIff(f, base, j, i);
    if HasPartner(f, base, j, i) {
      var q := Partner(f, base, j, i);
      KeyMatch(f, vc, y, base, ps, i, q);
      BaseRowFound(f, y, i, |f.rows|, ps[q]);
      SameBaseRow(f, y, i, b.value, ps[q]);
    } else if b.Some? {
      var m := b.value;
      assert m in ps;
      var q :| 0 <= q < |ps| && ps[q] == m;
      KeyMatch(f, vc, y, base, ps, i, q);
      assert false;
    }
  }

  /** The merge's labels are the data's and `base_year_value`. */
  lemma RebaseMergeLabels(f: Frame, vc: string, base: Frame)
    requires Rebasable(f, vc) && OnlyValue(f, vc) && Valid(base) && BaseLabels(f, vc, base)
    ensures (RebaseShape(f, vc, base);
             forall c :: c in MergedColumns(f, base, RebaseJoin) <==> c in f.columns || c == BaseYearValue)
  {
    RebaseShape(f, vc, base);
    var j := RebaseJoin;
    var ov := Overlap(f, base, j);
    SuffixedNone(f.columns, j.leftSuffix);
    SuffixedNone(RightKept(base, j), j.rightSuffix);
  }

  /** The merge keeps the data rows one for one; the labels are the data's and `base_year_value`. */
  lemma RebaseMerge(f: Frame, vc: string, y: int, base: Frame, ps: seq<nat>)
    requires Rebasable(f, vc) && OnlyValue(f, vc) && BaseOf(f, vc, y, base, ps) && BaseKeysDistinct(f, y)
    ensures (RebaseShape(f, vc, base);
             var merged := Merge(f, base, RebaseJoin);
             && |merged.rows| == |f.rows|
             && forall c :: c in merged.columns <==> c in f.columns || c == BaseYearValue)
  {
    RebaseShape(f, vc, base);
    RebaseKeysDistinct(f, vc, y, base, ps);
    LeftJoinCount(f, base, RebaseJoin);
    RebaseMergeLabels(f, vc, base);
  }

  /** The deflator column of a rebased row holds its reference rebase. */
  lemma RebasedOutCell(f: Frame, vc: string, y: int, base: Frame, ps: seq<nat>, i: nat)
    requires Rebasable(f, vc) && OnlyValue(f, vc) && BaseOf(f, vc, y, base, ps) && BaseKeysDistinct(f, y)
    requires i < |f.rows|
    ensures var g := RebasedOn(f, vc, base);
            && Valid(g) && i < |g.rows| && EnsureDeflatorSuffix(vc) in g.columns
            && Cell(g, i, EnsureDeflatorSuffix(vc)) == ReferenceRebase(f, vc, y, i)
  {
    RebaseShape(f, vc, base);
    RebaseKeysDistinct(f, vc, y, base, ps);
    RebaseMerge(f, vc, y, base, ps);
    var j := RebaseJoin;
    assert EnsureDeflatorSuffix(vc) != BaseYearValue by { IndexLabelsLackSuffix(EnsureDeflatorSuffix(vc)); }
    LeftJoinLeftCell(f, base, j, i, vc);
    LeftJoinRightCell(f, base, j, i, BaseYearValue);
    RebasePartner(f, vc, y, base, ps, i);
    RebaseCellValues(Cell(f, i, vc));
  }

  /** Every other data label of a rebased row keeps its cell. */
  lemma RebasedOtherCells(f: Frame, vc: string, y: int, base: Frame, ps: seq<nat>, i: nat)
    requires Rebasable(f, vc) && OnlyValue(f, vc) && BaseOf(f, vc, y, base, ps) && BaseKeysDistinct(f, y)
    requires i < |f.rows|
    ensures var g := RebasedOn(f, vc, base);
            && Valid(g) && i < |g.rows|
            && forall c :: c in f.columns && c != EnsureDeflatorSuffix(vc) ==> c in g.columns && Cell(g, i, c) == Cell(f, i, c)
  {
    RebaseShape(f, vc, base);
    RebaseKeysDistinct(f, vc, y, base, ps);
    RebaseMerge(f, vc, y, base, ps);
    var j := RebaseJoin;
    forall c | c in f.columns ensures Cell(Merge(f, base, j), i, c) == Cell(f, i, c) {
      LeftJoinLeftCell(f, base, j, i, c);
    }
  }

  /** The labels of the rebase: the data's and the deflator column. */
  lemma RebasedLabels(f: Frame, vc: string, y: int, base: Frame, ps: seq<nat>)
    requires Rebasable(f, vc) && OnlyValue(f, vc) && BaseOf(f, vc, y, base, ps) && BaseKeysDistinct(f, y)
    ensures var g := RebasedOn(f, vc, base);
            && Valid(g) && |g.rows| == |f.rows|
            && forall c :: c in g.columns <==> c in f.columns || c == EnsureDeflatorSuffix(vc)
  {
    RebaseMerge(f, vc, y, base, ps);
    assert EnsureDeflatorSuffix(vc) != BaseYearValue by { IndexLabelsLackSuffix(EnsureDeflatorSuffix(vc)); }
  }

  /**
   * The rebase, row by row: every row is kept in order, every original label
   * keeps its cell except the deflator column, which holds the reference
   * rebase of the row.
   */
  lemma RebaseDeflatorRows(f: Frame, y: int)
    requires Valid(f) && !Empty(f) && ValueColumn(f).Ok? && Rebasable(f, ValueColumn(f).value)
    requires RebaseDeflator(f, y).Ok? && BaseKeysDistinct(f, y)
    ensures var g := RebaseDeflator(f, y).value;
            var vc := ValueColumn(f).value;
            var out := EnsureDeflatorSuffix(vc);
            && Valid(g) && |g.rows| == |f.rows|
            && (forall c :: c in g.columns <==> c in f.columns || c == out)
            && forall i :: 0 <= i < |f.rows| ==>
                 && Cell(g, i, out) == ReferenceRebase(f, vc, y, i)
                 && forall c :: c in f.columns && c != out ==> Cell(g, i, c) == Cell(f, i, c)
  {
    var vc := ValueColumn(f).value;
    var base := BaseFrame(f, vc, y);
    var ps := Positions(f.rows, AtBaseYear(f, y));
    BaseFrameIsBaseOf(f, vc, y);
    assert RebaseDeflator(f, y).value == RebasedOn(f, vc, base);
    RebasedLabels(f, vc, y, base, ps);
    forall i | 0 <= i < |f.rows|
      ensures var g := RebasedOn(f, vc, base);
              var out := EnsureDeflatorSuffix(vc);
              && Cell(g, i, out) == ReferenceRebase(f, vc, y, i)
              && forall c :: c in f.columns && c != out ==> Cell(g, i, c) == Cell(f, i, c)
    {
      RebasedOutCell(f, vc, y, base, ps, i);
      RebasedOtherCells(f, vc, y, base, ps, i);
    }
  }

  /** Under distinct base keys, every base-year row with a non-zero value rebases to exactly 100. */
  lemma BaseYearIsHundred(f: Frame, y: int, i: nat)
    requires Valid(f) && !Empty(f) && ValueColumn(f).Ok? && Rebasable(f, ValueColumn(f).value)
    requires RebaseDeflator(f, y).Ok? && BaseKeysDistinct(f, y)
    requires i < |f.rows| && IsBaseRow(f, y, i)
    requires IsNumeric(Cell(f, i, ValueColumn(f).value)) && Real(Cell(f, i, ValueColumn(f).value)) != 0.0
    ensures (RebaseDeflatorRows(f, y);
             Cell(RebaseDeflator(f, y).value, i, EnsureDeflatorSuffix(ValueColumn(f).value)) == Num(100.0))
  {
    RebaseDeflatorRows(f, y);
    ReferenceRebaseAtBase(f, ValueColumn(f).value, y, i);
  }

  /** The reference rebasing of a base-year row, the only one of its entity, is 100. */
  lemma ReferenceRebaseAtBase(f: Frame, vc: string, y: int, i: nat)
    requires Indexed(f) && vc in f.columns && BaseKeysDistinct(f, y)
    requires i < |f.rows| && IsBaseRow(f, y, i)
    requires IsNumeric(Cell(f, i, vc)) && Real(Cell(f, i, vc)) != 0.0
    ensures ReferenceRebase(f, vc, y, i) == Num(100.0)
  {
    var b := BaseRowOf(f, y, i, |f.rows|);
    KeyEqIsEquivalence(Cell(f, i, C.EntityCode), Cell(f, i, C.EntityCode), Cell(f, i, C.EntityCode));
    KeyEqIsEquivalence(Cell(f, i, C.Iso3), Cell(f, i, C.Iso3), Cell(f, i, C.Iso3));
    assert SameEntity(f, i, i);
    BaseRowFound(f, y, i, |f.rows|, i);
    assert b.value == i;
    RebaseCellValues(Cell(f, i, vc));
  }

  /** The deflator types `__post_init__` accepts. */
  const Price: string := "price"
  const ExchangeType: string := "exchange"

  /**
   * `__post_init__` on the data the source gives: `priceData` is what
   * `source.price_deflator(kind=price_kind)` returns, `exchangeData` what
   * `source.deflator()` returns.
   */
  function Initialization(deflatorType: string, priceKind: Option<string>, baseYear: int,
                          priceData: Outcome<Frame>, exchangeData: Frame): (r: Outcome<Frame>)
    requires Fetchable(deflatorType, priceKind, priceData, exchangeData)
    ensures deflatorType == Price && priceKind.None? ==>
              r == Fail(Error(ValueError, "`price_kind` must be specified when `deflator_type` is 'price'."))
    ensures deflatorType == ExchangeType && priceKind.Some? ==>
              r == Fail(Error(ValueError, "`price_kind` should be None when `deflator_type` is 'exchange'."))
    ensures deflatorType != Price && deflatorType != ExchangeType ==>
              r == Fail(Error(ValueError, "Invalid deflator type: " + deflatorType))
    ensures deflatorType == Price && priceKind.Some? && priceData.Fail? ==> r == Fail(priceData.error)
    ensures deflatorType == Price && priceKind.Some? && priceData.Ok? ==> r == RebaseDeflator(priceData.value, baseYear)
    ensures deflatorType == ExchangeType && priceKind.None? ==> r == RebaseDeflator(exchangeData, baseYear)
  {
    if deflatorType == Price then
      if priceKind.None? then Fail(Error(ValueError, "`price_kind` must be specified when `deflator_type` is 'price'."))
      else if priceData.Fail? then Fail(priceData.error)
      else RebaseDeflator(priceData.value, baseYear)
    else if deflatorType == ExchangeType then
      if priceKind.Some? then Fail(Error(ValueError, "`price_kind` should be None when `deflator_type` is 'exchange'."))
      else RebaseDeflator(exchangeData, baseYear)
    else Fail(Error(ValueError, "Invalid deflator type: " + deflatorType))
  }

  /** What `rebase_deflator` needs of a frame to run without a `KeyError`. */
  predicate RebaseReady(f: Frame) {
    Valid(f) && (!Empty(f) && ValueColumn(f).Ok? ==> Rebasable(f, ValueColumn(f).value))
  }

  /** The fetched frame the chosen branch rebases is ready to rebase. */
  predicate Fetchable(deflatorType: string, priceKind: Option<string>, priceData: Outcome<Frame>, exchangeData: Frame) {
    && (deflatorType == Price && priceKind.Some? && priceData.Ok? ==> RebaseReady(priceData.value))
    && (deflatorType == ExchangeType && priceKind.None? ==> RebaseReady(exchangeData))
  }

  /**
   * What the `source` field of a deflator holds, by name: a `Source`, or an
   * `Exchange` together with the source it reads its rates from.
   */
  datatype Provider = SourceOf(name: string) | ExchangeOf(name: string, source: Provider)

  class Deflator {
    var source: Provider
    var deflatorData: Frame
    const deflatorType: string
    const priceKind: Option<string>
    const baseYear: int

    /** The dataclass fields; `deflator_data` starts as an empty frame. */
    constructor (source: Provider, deflatorType: string, priceKind: Option<string>, baseYear: int)
      ensures this.source == source && deflatorData == Frame([], [])
      ensures this.deflatorType == deflatorType && this.priceKind == priceKind && this.baseYear == baseYear
    {
      this.source := source;
      deflatorData := Frame([], []);
      this.deflatorType := deflatorType;
      this.priceKind := priceKind;
      this.baseYear := baseYear;
    }

    /**
     * `__post_init__`: fetches the series, then rebases it in place. In the
     * exchange branch the field `source` is replaced by the exchange's own
     * source, before the rebase.
     */
    method PostInit(priceData: Outcome<Frame>, exchangeData: Frame) returns (err: Option<Error>)
      requires Fetchable(deflatorType, priceKind, priceData, exchangeData)
      requires deflatorType == ExchangeType && priceKind.None? ==> source.ExchangeOf?
      modifies this
      ensures if deflatorType == ExchangeType && priceKind.None? then source == old(source).source
              else source == old(source)
      ensures var r := Initialization(deflatorType, priceKind, baseYear, priceData, exchangeData);
              (r.Ok? ==> err.None? && deflatorData == r.value) && (r.Fail? ==> err == Some(r.error))
      ensures var r := Initialization(deflatorType, priceKind, baseYear, priceData, exchangeData);
              r.Fail? ==>
                if deflatorType == Price && priceKind.Some? && priceData.Ok? then deflatorData == priceData.value
                else if deflatorType == ExchangeType && priceKind.None? then deflatorData == exchangeData
                else deflatorData == old(deflatorData)
    {
      if deflatorType == Price {
        if priceKind.None? {
          return Some(Error(ValueError, "`price_kind` must be specified when `deflator_type` is 'price'."));
        }
        if priceData.Fail? {
          return Some(priceData.error);
        }
        deflatorData := priceData.value;
      } else if deflatorType == ExchangeType {
        if priceKind.Some? {
          return Some(Error(ValueError, "`price_kind` should be None when `deflator_type` is 'exchange'."));
        }
        deflatorData := exchangeData;
        source := source.source;
      } else {
        return Some(Error(ValueError, "Invalid deflator type: " + deflatorType));
      }
      err := RebaseInPlace();
    }

    /** `rebase_deflator`: on error the data is left as it was. */
    method RebaseInPlace() returns (err: Option<Error>)
      requires RebaseReady(deflatorData)
      modifies this`deflatorData
      ensures var r := RebaseDeflator(old(deflatorData), baseYear);
              if r.Ok? then err.None? && deflatorData == r.value
              else err == Some(r.error) && deflatorData == old(deflatorData)
    {
      var r := RebaseDeflator(deflatorData, baseYear);
      if r.Fail? {
        return Some(r.error);
      }
      deflatorData := r.value;
      return None;
    }
  }
}
