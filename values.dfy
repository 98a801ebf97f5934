/**
 * Cell values of a data frame and the numpy arithmetic the core applies to them.
 *
 * `Missing` stands for every missing marker pandas uses (`NaN`, `None`, `pd.NA`).
 * Floating point is modelled by exact reals; infinities are kept because numpy
 * division by zero produces them, and signed zero is not distinguished.
 */
module Values {
  import opened Strings

  datatype Value =
    | Missing
    | Int(i: int)
    | Num(x: real)
    | Inf(neg: bool)
    | Text(s: string)

  /** A finite number, integer or float. */
  predicate IsNumeric(v: Value) {
    v.Int? || v.Num?
  }

  function Real(v: Value): real
    requires IsNumeric(v)
  {
    if v.Int? then v.i as real else v.x
  }

  /** `pd.isna` */
  predicate IsNa(v: Value) {
    v.Missing?
  }

  /** `Series.fillna(d)` on one cell. */
  function FillNa(v: Value, d: Value): (r: Value)
    ensures !IsNa(v) ==> r == v
    ensures IsNa(v) ==> r == d
  {
    if v.Missing? then d else v
  }

  /** numpy multiplication, including the infinity rules (inf * 0 is NaN). */
  function Mul(a: Value, b: Value): (r: Value)
    ensures a.Int? && b.Int? ==> r == Int(a.i * b.i)
    ensures IsNumeric(a) && IsNumeric(b) && !(a.Int? && b.Int?) ==> r == Num(Real(a) * Real(b))
    ensures a.Missing? || b.Missing? || a.Text? || b.Text? ==> r.Missing?
  {
    if a.Int? && b.Int? then Int(a.i * b.i)
    else if IsNumeric(a) && IsNumeric(b) then Num(Real(a) * Real(b))
    else if a.Inf? && b.Inf? then Inf(a.neg != b.neg)
    else if a.Inf? && IsNumeric(b) then (if Real(b) == 0.0 then Missing else Inf(a.neg != (Real(b) < 0.0)))
    else if IsNumeric(a) && b.Inf? then (if Real(a) == 0.0 then Missing else Inf(b.neg != (Real(a) < 0.0)))
    else Missing
  }

  /**
   * numpy true division: finite / non-zero is the quotient; x / 0 is an
   * infinity of x's sign; 0 / 0 and inf / inf are NaN; finite / inf is 0.
   */
  function Div(a: Value, b: Value): (r: Value)
    ensures IsNumeric(a) && IsNumeric(b) && Real(b) != 0.0 ==> r == Num(Real(a) / Real(b))
    ensures IsNumeric(a) && IsNumeric(b) && Real(b) == 0.0 ==>
              (if Real(a) == 0.0 then r.Missing? else r == Inf(Real(a) < 0.0))
    ensures a.Missing? || b.Missing? || a.Text? || b.Text? ==> r.Missing?
  {
    if IsNumeric(a) && IsNumeric(b) then
      if Real(b) != 0.0 then Num(Real(a) / Real(b))
      else if Real(a) == 0.0 then Missing
      else Inf(Real(a) < 0.0)
    else if a.Inf? && b.Inf? then Missing
    else if a.Inf? && IsNumeric(b) then Inf(a.neg != (Real(b) < 0.0))
    else if IsNumeric(a) && b.Inf? then Num(0.0)
    else Missing
  }

  /** `100 * v / v` is exactly 100 for any non-zero finite `v`. */
  lemma HundredTimesOverSelf(v: Value)
    requires IsNumeric(v) && Real(v) != 0.0
    ensures Div(Mul(Int(100), v), v) == Num(100.0)
  {
    var p := Mul(Int(100), v);
    assert IsNumeric(p) && Real(p) == 100.0 * Real(v);
    MulDivCancel(100.0, Real(v));
  }

  /** A non-zero finite value divided by itself is exactly 1. */
  lemma DivSelf(v: Value)
    requires IsNumeric(v) && Real(v) != 0.0
    ensures Div(v, v) == Num(1.0)
  {
    MulDivCancel(1.0, Real(v));
  }

  /**
   * A rounding precision `10^d`, for `round(_, d)`. The core rounds to 2, 5
   * and 6 decimals, so the precisions are the constants below.
   */
  predicate IsPrecision(s: real) {
    s >= 1.0
  }

  const TwoDecimals: real := 100.0
  const FiveDecimals: real := 100000.0
  const SixDecimals: real := 1000000.0

  /** Rounds to the nearest integer, a tie going to the even neighbour. */
  function RoundToInt(y: real): (n: int)
    ensures -0.5 <= n as real - y <= 0.5
  {
    var f := y.Floor;
    if y - f as real < 0.5 then f
    else if y - f as real > 0.5 then f + 1
    else if f % 2 == 0 then f
    else f + 1
  }

  lemma RoundToIntOfInt(k: int)
    ensures RoundToInt(k as real) == k
  {
  }

  /**
   * numpy's `round(x, d)` with `s = 10^d`: round half to even at the `d`-th
   * decimal, taken here in exact arithmetic.
   */
  function RoundHalfEven(x: real, s: real): real
    requires IsPrecision(s)
  {
    RoundToInt(x * s) as real / s
  }

  lemma RoundHalfEvenDef(x: real, s: real)
    requires IsPrecision(s)
    ensures RoundHalfEven(x, s) == RoundToInt(x * s) as real / s
  {
  }

  lemma MulDivCancel(x: real, s: real)
    requires s != 0.0
    ensures (x * s) / s == x && (x / s) * s == x
  {
  }

  lemma DivSub(a: real, b: real, s: real)
    requires s != 0.0
    ensures a / s - b / s == (a - b) / s
  {
  }

  lemma DivMono(a: real, b: real, s: real)
    requires s > 0.0 && a <= b
    ensures a / s <= b / s
  {
  }

  /** Rounding moves a value by at most half a unit of the last kept decimal. */
  lemma RoundHalfEvenClose(x: real, s: real)
    requires IsPrecision(s)
    ensures -0.5 / s <= RoundHalfEven(x, s) - x <= 0.5 / s
  {
    var y := x * s;
    var n := RoundToInt(y) as real;
    assert -0.5 <= n - y <= 0.5;
    MulDivCancel(x, s);
    assert x == y / s;
    RoundHalfEvenDef(x, s);
    assert RoundHalfEven(x, s) == n / s;
    DivSub(n, y, s);
    assert RoundHalfEven(x, s) - x == (n - y) / s;
    DivMono(-0.5, n - y, s);
    DivMono(n - y, 0.5, s);
  }

  /** Values already on the grid of `d` decimals are left alone. */
  lemma RoundHalfEvenOnGrid(k: int, s: real)
    requires IsPrecision(s)
    ensures RoundHalfEven(k as real / s, s) == k as real / s
  {
    var x := k as real / s;
    RoundHalfEvenDef(x, s);
    MulDivCancel(k as real, s);
    assert x * s == k as real;
    RoundToIntOfInt(k);
    assert RoundToInt(x * s) == k;
  }

  /** Whole numbers survive rounding at a precision `10^d`, an integer. */
  lemma RoundHalfEvenInteger(k: int, p: int)
    requires p >= 1
    ensures RoundHalfEven(k as real, p as real) == k as real
  {
    var s := p as real;
    assert (k * p) as real == k as real * s;
    MulDivCancel(k as real, s);
    assert (k * p) as real / s == k as real;
    RoundHalfEvenOnGrid(k * p, s);
  }

  /** Rounding twice at the same precision is rounding once. */
  lemma RoundHalfEvenIdempotent(x: real, s: real)
    requires IsPrecision(s)
    ensures RoundHalfEven(RoundHalfEven(x, s), s) == RoundHalfEven(x, s)
  {
    RoundHalfEvenOnGrid(RoundToInt(x * s), s);
  }

  /** `Series.round(d)` on one cell: integers, infinities, text and missing stay as they are. */
  function Round(v: Value, s: real): (r: Value)
    requires IsPrecision(s)
    ensures v.Num? ==> r.Num? && -0.5 / s <= r.x - v.x <= 0.5 / s
    ensures !v.Num? ==> r == v
  {
    if v.Num? then
      RoundHalfEvenClose(v.x, s);
      Num(RoundHalfEven(v.x, s))
    else v
  }

  lemma RoundHundred(p: int)
    requires p >= 1
    ensures Round(Num(100.0), p as real) == Num(100.0)
  {
    RoundHalfEvenInteger(100, p);
  }

  lemma RoundIdempotent(v: Value, s: real)
    requires IsPrecision(s)
    ensures Round(Round(v, s), s) == Round(v, s)
  {
    if v.Num? { RoundHalfEvenIdempotent(v.x, s); }
  }

  /** `round(100 * v / base, 6)`, the rebasing of an index to 100 at its base. */
  function RebaseCell(v: Value, base: Value): Value {
    Round(Div(Mul(Int(100), v), base), SixDecimals)
  }

  /** A row rebased against itself gives 100; a missing base gives a missing value. */
  lemma RebaseCellValues(v: Value)
    ensures IsNumeric(v) && Real(v) != 0.0 ==> RebaseCell(v, v) == Num(100.0)
    ensures RebaseCell(v, Missing) == Missing
  {
    if IsNumeric(v) && Real(v) != 0.0 {
      HundredTimesOverSelf(v);
      RoundHundred(1000000);
    }
  }

  /** Element-wise `==` of pandas: missing compares unequal to everything, itself included. */
  predicate Eq(a: Value, b: Value) {
    && !a.Missing? && !b.Missing?
    && if IsNumeric(a) && IsNumeric(b) then Real(a) == Real(b) else a == b
  }

  /** Join-key equality of `DataFrame.merge` and `isin`: like `Eq`, but missing matches missing. */
  predicate KeyEq(a: Value, b: Value) {
    (a.Missing? && b.Missing?) || Eq(a, b)
  }

  lemma KeyEqIsEquivalence(a: Value, b: Value, c: Value)
    ensures KeyEq(a, a)
    ensures KeyEq(a, b) ==> KeyEq(b, a)
    ensures KeyEq(a, b) && KeyEq(b, c) ==> KeyEq(a, c)
  {
  }

  /** Element-wise `>=` against a number; missing or text compares false. */
  predicate GeNum(a: Value, bound: real) {
    (IsNumeric(a) && Real(a) >= bound) || a == Inf(false)
  }

  /** Element-wise `<` against a number; missing or text compares false. */
  predicate LtNum(a: Value, bound: real) {
    (IsNumeric(a) && Real(a) < bound) || a == Inf(true)
  }

  lemma GeLtExclusive(a: Value, bound: real)
    ensures !(GeNum(a, bound) && LtNum(a, bound))
    ensures !a.Missing? && !a.Text? ==> GeNum(a, bound) || LtNum(a, bound)
  {
  }

  /** Rank of a value's kind in `ValueLt`. */
  function Rank(v: Value): nat {
    match v
    case Missing => 0
    case Inf(neg) => if neg then 1 else 3
    case Text(_) => 4
    case _ => 2
  }

  /**
   * A strict total order on values, used where Python sorts: numbers by
   * magnitude (an integer before an equal float), text lexicographically.
   * Python refuses to compare mixed kinds; here the kinds are ranked instead.
   */
  predicate ValueLt(a: Value, b: Value) {
    if Rank(a) != Rank(b) then Rank(a) < Rank(b)
    else if a.Text? then LexLt(a.s, b.s)
    else if IsNumeric(a) then Real(a) < Real(b) || (Real(a) == Real(b) && a.Int? && b.Num?)
    else false
  }

  lemma ValueLtIsStrictTotalOrder(a: Value, b: Value, c: Value)
    ensures !ValueLt(a, a)
    ensures ValueLt(a, b) && ValueLt(b, c) ==> ValueLt(a, c)
    ensures a != b ==> ValueLt(a, b) || ValueLt(b, a)
  {
    if a.Text? { LexLtIrreflexive(a.s); }
    if a.Text? && b.Text? && c.Text? && LexLt(a.s, b.s) && LexLt(b.s, c.s) {
      LexLtTransitive(a.s, b.s, c.s);
    }
    if a.Text? && b.Text? && a != b { LexLtTotal(a.s, b.s); }
  }

  /** `str(v)` for the values the core prints (entity names and codes, years). */
  function Show(v: Value): string {
    match v
    case Missing => "nan"
    case Int(i) => IntToString(i)
    case Num(x) => IntToString(x.Floor) + (if x == x.Floor as real then ".0" else "...")
    case Inf(neg) => if neg then "-inf" else "inf"
    case Text(s) => s
  }
}
