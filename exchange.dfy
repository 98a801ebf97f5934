/**
 * The exchange-rate table (`Exchange`): the rates a source reads are
 * relabelled, pivoted to the requested source and target currencies, and
 * applied to a caller's data.
 *
 * A rate is local currency units per unit of the pivot currency, as the
 * sources publish it against the US dollar.
 */
module Exchanges {
  import opened Wrappers
  import opened Strings
  import opened Values
  import opened Frames
  import opened Merging
  import C = Constants

  /** The labels `__post_init__` keeps of the reader's frame, in this order. */
  const ReadLabels: seq<string> := ["year", "entity_code", "pydeflate_iso3", "EXCHANGE", "EXCHANGE_D"]

  /** The same labels once they carry the `pydeflate_` prefix. */
  const Labels: seq<string> := [C.Year, C.EntityCode, C.Iso3, C.Exchange, C.ExchangeD]

  /** The label the pivot currency's own rate gets in `_convert_exchange`'s merge. */
  const ExchangeTo: string := "pydeflate_EXCHANGE_to"

  lemma ReadLabelsPrefixed()
    ensures forall k :: 0 <= k < |ReadLabels| ==> AddPrefix(C.Prefix, ReadLabels[k]) == Labels[k]
  {
    PrefixedFresh("year", C.Year);
    PrefixedFresh("entity_code", C.EntityCode);
    assert AddPrefix(C.Prefix, "pydeflate_iso3") == C.Iso3 by {
      assert StartsWith("pydeflate_iso3", C.Prefix) by { assert "pydeflate_iso3"[..10] == C.Prefix; }
    }
    PrefixedFresh("EXCHANGE", C.Exchange);
    PrefixedFresh("EXCHANGE_D", C.ExchangeD);
  }

  /** A label not starting with `p` gets the whole prefix. */
  lemma PrefixedFresh(s: string, t: string)
    requires |s| > 0 && s[0] != 'p' && t == C.Prefix + s
    ensures AddPrefix(C.Prefix, s) == t
  {
    assert !StartsWith(s, C.Prefix) by {
      if |C.Prefix| <= |s| { assert s[..|C.Prefix|][0] == s[0]; }
    }
  }

  lemma LabelsDistinct()
    ensures forall a, b :: 0 <= a < b < |Labels| ==> Labels[a] != Labels[b]
    ensures forall k :: 0 <= k < |Labels| ==> Labels[k] != ExchangeTo
  {
    assert C.Year[10] != C.Iso3[10];
  }

  /** The reader's labels, prefixed: each read label lands on its prefixed name, at its place. */
  lemma PrefixedReadLabels(cols: seq<string>)
    requires forall c :: c in cols ==> c in ReadLabels
    ensures forall c :: c in PrefixAll(C.Prefix, cols) ==> c in Labels
    ensures forall k :: 0 <= k < |Labels| ==> (Labels[k] in PrefixAll(C.Prefix, cols) <==> ReadLabels[k] in cols)
    ensures forall k :: 0 <= k < |Labels| && ReadLabels[k] in cols ==>
              IndexOf(PrefixAll(C.Prefix, cols), Labels[k]) == IndexOf(cols, ReadLabels[k])
  {
    ReadLabelsPrefixed();
    LabelsDistinct();
    var r := PrefixAll(C.Prefix, cols);
    forall a, b | a in cols && b in cols && AddPrefix(C.Prefix, a) == AddPrefix(C.Prefix, b) ensures a == b {
      var ka :| 0 <= ka < |ReadLabels| && ReadLabels[ka] == a;
      var kb :| 0 <= kb < |ReadLabels| && ReadLabels[kb] == b;
      assert Labels[ka] == Labels[kb];
    }
    forall c | c in r ensures c in Labels {
      var q :| 0 <= q < |r| && r[q] == c;
      assert cols[q] in cols;
      var k :| 0 <= k < |ReadLabels| && ReadLabels[k] == cols[q];
      assert c == Labels[k];
    }
    forall k | 0 <= k < |Labels| ensures Labels[k] in r <==> ReadLabels[k] in cols {
      if Labels[k] in r {
        var q :| 0 <= q < |r| && r[q] == Labels[k];
        assert cols[q] in cols;
        var k' :| 0 <= k' < |ReadLabels| && ReadLabels[k'] == cols[q];
        assert Labels[k'] == Labels[k];
      }
      if ReadLabels[k] in cols {
        IndexOfPrefixAll(C.Prefix, cols, ReadLabels[k]);
      }
    }
    forall k | 0 <= k < |Labels| && ReadLabels[k] in cols
      ensures IndexOf(r, Labels[k]) == IndexOf(cols, ReadLabels[k])
    {
      IndexOfPrefixAll(C.Prefix, cols, ReadLabels[k]);
    }
  }

  /**
   * The first two statements of `__post_init__`: the reader's frame reduced
   * to the read labels it has, each relabelled with the prefix.
   */
  function Loaded(raw: Frame): (f: Frame)
    requires Valid(raw)
    ensures Valid(f) && |f.rows| == |raw.rows|
    ensures forall c :: c in f.columns ==> c in Labels
    ensures forall k :: 0 <= k < |Labels| ==> (Labels[k] in f.columns <==> ReadLabels[k] in raw.columns)
    ensures forall i, k :: 0 <= i < |f.rows| && 0 <= k < |Labels| && ReadLabels[k] in raw.columns ==>
              Labels[k] in f.columns && Cell(f, i, Labels[k]) == Cell(raw, i, ReadLabels[k])
  {
    var g := FilterColumns(raw, ReadLabels);
    PrefixedReadLabels(g.columns);
    Frame(PrefixAll(C.Prefix, g.columns), g.rows)
  }

  /** `replace({"EMU": "EUR"})` on one cell. */
  function EmuAsEur(v: Value): (r: Value)
    ensures r != Text("EMU")
    ensures v != Text("EMU") ==> r == v
  {
    if v == Text("EMU") then Text("EUR") else v
  }

  /** The World Bank fix: the euro area's code `EMU` becomes `EUR`. */
  function EmuToEur(f: Frame): (g: Frame)
    requires Valid(f) && C.Iso3 in f.columns
    ensures Valid(g) && g.columns == f.columns && |g.rows| == |f.rows|
    ensures forall i :: 0 <= i < |g.rows| ==> Cell(g, i, C.Iso3) != Text("EMU")
    ensures forall i :: 0 <= i < |g.rows| && Cell(f, i, C.Iso3) != Text("EMU") ==> Cell(g, i, C.Iso3) == Cell(f, i, C.Iso3)
    ensures forall i :: 0 <= i < |g.rows| && Cell(f, i, C.Iso3) == Text("EMU") ==> Cell(g, i, C.Iso3) == Text("EUR")
    ensures forall i, c :: 0 <= i < |g.rows| && c in f.columns && c != C.Iso3 ==> Cell(g, i, c) == Cell(f, i, c)
  {
    Assign(f, C.Iso3, seq(|f.rows|, i requires 0 <= i < |f.rows| => EmuAsEur(Cell(f, i, C.Iso3))))
  }

  /** Applying the fix twice is applying it once. */
  lemma EmuToEurIdempotent(f: Frame)
    requires Valid(f) && C.Iso3 in f.columns
    ensures EmuToEur(EmuToEur(f)) == EmuToEur(f)
  {
    var g := EmuToEur(f);
    var h := EmuToEur(g);
    var k := IndexOf(f.columns, C.Iso3);
    forall i | 0 <= i < |g.rows| ensures h.rows[i] == g.rows[i] {
      assert h.rows[i] == g.rows[i][k := EmuAsEur(g.rows[i][k])];
    }
  }

  /** `pydeflate_EXCHANGE = 1` and `pydeflate_EXCHANGE_D = 1`, when source and target agree. */
  function UnitRates(f: Frame): (g: Frame)
    requires Valid(f)
    ensures Valid(g) && |g.rows| == |f.rows|
    ensures forall c :: c in g.columns <==> c in f.columns || c == C.Exchange || c == C.ExchangeD
    ensures forall i :: 0 <= i < |g.rows| ==> Cell(g, i, C.Exchange) == Int(1) && Cell(g, i, C.ExchangeD) == Int(1)
    ensures forall i, c :: 0 <= i < |g.rows| && c in f.columns && c != C.Exchange && c != C.ExchangeD ==>
              Cell(g, i, c) == Cell(f, i, c)
  {
    var ones := seq(|f.rows|, _ => Int(1));
    Assign(Assign(f, C.Exchange, ones), C.ExchangeD, ones)
  }

  /** `pydeflate_EXCHANGE = 1 / pydeflate_EXCHANGE`, for the local-currency target. */
  function Invert(f: Frame): (g: Frame)
    requires Valid(f) && C.Exchange in f.columns
    ensures Valid(g) && g.columns == f.columns && |g.rows| == |f.rows|
    ensures forall i :: 0 <= i < |g.rows| ==> Cell(g, i, C.Exchange) == Div(Int(1), Cell(f, i, C.Exchange))
    ensures forall i, c :: 0 <= i < |g.rows| && c in f.columns && c != C.Exchange ==> Cell(g, i, c) == Cell(f, i, c)
  {
    Assign(f, C.Exchange, seq(|f.rows|, i requires 0 <= i < |f.rows| => Div(Int(1), Cell(f, i, C.Exchange))))
  }

  /** `1 / (1 / v)` is `v` again for every finite number, zero included (through an infinity). */
  lemma ReciprocalTwice(v: Value)
    ensures IsNumeric(v) ==> IsNumeric(Div(Int(1), Div(Int(1), v))) && Real(Div(Int(1), Div(Int(1), v))) == Real(v)
    ensures v.Missing? ==> Div(Int(1), Div(Int(1), v)).Missing?
  {
    if IsNumeric(v) && Real(v) != 0.0 {
      var w := Div(Int(1), v);
      assert w == Num(1.0 / Real(v));
      assert 1.0 / (1.0 / Real(v)) == Real(v);
    }
  }

  /** Inverting twice gives back every rate that is a finite number, and keeps other labels. */
  lemma InvertTwice(f: Frame)
    requires Valid(f) && C.Exchange in f.columns
    ensures var g := Invert(Invert(f));
            && g.columns == f.columns && |g.rows| == |f.rows|
            && (forall i :: 0 <= i < |f.rows| && IsNumeric(Cell(f, i, C.Exchange)) ==>
                  IsNumeric(Cell(g, i, C.Exchange)) && Real(Cell(g, i, C.Exchange)) == Real(Cell(f, i, C.Exchange)))
            && (forall i, c :: 0 <= i < |f.rows| && c in f.columns && c != C.Exchange ==> Cell(g, i, c) == Cell(f, i, c))
  {
    forall i | 0 <= i < |f.rows| {
      ReciprocalTwice(Cell(f, i, C.Exchange));
    }
  }

  // ---------------------------------------------------------------------
  // `_convert_exchange`: the pivot to another currency
  // ---------------------------------------------------------------------

  /** What `_convert_exchange` reads without a `KeyError`, and the label its merge adds is free. */
  predicate Convertible(f: Frame) {
    Valid(f) && C.Year in f.columns && C.Iso3 in f.columns && C.Exchange in f.columns && ExchangeTo !in f.columns
  }

  /** `df["pydeflate_iso3"] == to_currency`, on one row. */
  function CurrencyMask(f: Frame, to: string): Row -> bool
    requires C.Iso3 in f.columns
  {
    var k := IndexOf(f.columns, C.Iso3);
    (x: Row) => |x| > k && Eq(x[k], Text(to))
  }

  /** Row `n` is a row of the currency `to`. */
  predicate IsCurrencyRow(f: Frame, to: string, n: nat)
    requires Valid(f) && C.Iso3 in f.columns
  {
    n < |f.rows| && Eq(Cell(f, n, C.Iso3), Text(to))
  }

  /** Rows `i` and `n` have years the merge matches. */
  predicate SameYear(f: Frame, i: nat, n: nat)
    requires Valid(f) && C.Year in f.columns && i < |f.rows| && n < |f.rows|
  {
    KeyEq(Cell(f, i, C.Year), Cell(f, n, C.Year))
  }

  /** `currency.filter(["pydeflate_year", "pydeflate_EXCHANGE"])`: the currency's years and rates. */
  function CurrencyRates(f: Frame, to: string): (r: Frame)
    requires Convertible(f)
  {
    FilterColumns(FilterRows(f, CurrencyMask(f, to)), [C.Year, C.Exchange])
  }

  /** `merge(…, on="pydeflate_year", suffixes=("", "_to"))` */
  const ConvertJoin: Join := Join([C.Year], [C.Year], InnerJoin, "", "_to", false)

  /**
   * `r` holds, at its row `q`, the year and the rate of the currency row
   * `ps[q]` of `f`, and `ps` lists every currency row once, in order.
   */
  ghost predicate RatesOf(f: Frame, to: string, r: Frame, ps: seq<nat>)
    requires Convertible(f)
  {
    && Valid(r) && r.columns == [C.Year, C.Exchange] && |ps| == |r.rows|
    && (forall q :: 0 <= q < |ps| ==> ps[q] < |f.rows| && IsCurrencyRow(f, to, ps[q]))
    && (forall q, q' :: 0 <= q < q' < |ps| ==> ps[q] < ps[q'])
    && (forall n :: 0 <= n < |f.rows| && IsCurrencyRow(f, to, n) ==> n in ps)
    && forall q :: 0 <= q < |ps| ==>
         Cell(r, q, C.Year) == Cell(f, ps[q], C.Year) && Cell(r, q, C.Exchange) == Cell(f, ps[q], C.Exchange)
  }

  /** The mask holds on row `n` exactly when it is a row of the currency. */
  lemma CurrencyMaskRow(f: Frame, to: string, n: nat)
    requires Convertible(f) && n < |f.rows|
    ensures CurrencyMask(f, to)(f.rows[n]) <==> IsCurrencyRow(f, to, n)
  {
  }

  /** Row `q` of the rate table is the year and rate of the `q`-th currency row. */
  lemma CurrencyRateRow(f: Frame, to: string, q: nat)
    requires Convertible(f) && q < |Positions(f.rows, CurrencyMask(f, to))|
    ensures var ps := Positions(f.rows, CurrencyMask(f, to));
            var r := CurrencyRates(f, to);
            && q < |r.rows| && r.columns == [C.Year, C.Exchange]
            && IsCurrencyRow(f, to, ps[q])
            && Cell(r, q, C.Year) == Cell(f, ps[q], C.Year) && Cell(r, q, C.Exchange) == Cell(f, ps[q], C.Exchange)
  {
    var mask := CurrencyMask(f, to);
    var h := FilterRows(f, mask);
    var ps := Positions(f.rows, mask);
    WherePositions(f.rows, mask);
    FilterColumnsAll(h, [C.Year, C.Exchange]);
    assert h.rows[q] == f.rows[ps[q]];
    CurrencyMaskRow(f, to, ps[q]);
  }

  /** `CurrencyRates` is the rate table of the currency's rows. */
  lemma CurrencyRatesOf(f: Frame, to: string)
    requires Convertible(f)
    ensures RatesOf(f, to, CurrencyRates(f, to), Positions(f.rows, CurrencyMask(f, to)))
  {
    var mask := CurrencyMask(f, to);
    var r := CurrencyRates(f, to);
    var ps := Positions(f.rows, mask);
    WherePositions(f.rows, mask);
    FilterColumnsAll(FilterRows(f, mask), [C.Year, C.Exchange]);
    forall q | 0 <= q < |ps|
      ensures IsCurrencyRow(f, to, ps[q])
      ensures Cell(r, q, C.Year) == Cell(f, ps[q], C.Year) && Cell(r, q, C.Exchange) == Cell(f, ps[q], C.Exchange)
    {
      CurrencyRateRow(f, to, q);
    }
    forall n | 0 <= n < |f.rows| && IsCurrencyRow(f, to, n) ensures n in ps {
      CurrencyMaskRow(f, to, n);
      PositionsComplete(f.rows, mask, n);
    }
  }

  /** The pivot merge finds its key on both sides. */
  lemma ConvertJoinable(f: Frame, r: Frame)
    requires Convertible(f) && Valid(r) && r.columns == [C.Year, C.Exchange]
    ensures Joinable(f, r, ConvertJoin)
  {
  }

  /** The shape of the pivot merge: the left labels, then the currency's rate as `pydeflate_EXCHANGE_to`. */
  lemma ConvertShape(f: Frame, r: Frame)
    requires Convertible(f) && Valid(r) && r.columns == [C.Year, C.Exchange]
    ensures Joinable(f, r, ConvertJoin)
    ensures MergedColumns(f, r, ConvertJoin) == f.columns + [ExchangeTo]
    ensures forall lrow: Row, rrow: Row :: |lrow| == |f.columns| && |rrow| == 2 ==>
              Combined(f, r, ConvertJoin, lrow, rrow) == lrow + [rrow[1]]
  {
    var j := ConvertJoin;
    assert Shared(j) == {C.Year} by {
      assert j.leftOn[0] == j.rightOn[0] == C.Year;
    }
    assert Keep(r.columns, NotShared(j)) == [C.Exchange] by {
      assert !NotShared(j)(r.columns[0]) && NotShared(j)(r.columns[1]);
      assert r.columns[1..] == [C.Exchange];
      assert Keep([C.Exchange], NotShared(j)) == [C.Exchange] + Keep([], NotShared(j));
    }
    assert Overlap(f, r, j) == {C.Exchange};
    SuffixedEmpty(f.columns, Overlap(f, r, j));
    var s := Suffixed([C.Exchange], {C.Exchange}, "_to");
    assert s[0] == C.Exchange + "_to" == ExchangeTo;
    assert s == [ExchangeTo];
    assert IndexOf(r.columns, C.Exchange) == 1;
    forall lrow: Row, rrow: Row | |lrow| == |f.columns| && |rrow| == 2
      ensures Combined(f, r, j, lrow, rrow) == lrow + [rrow[1]]
    {
      assert RightPart(r, j, rrow) == [rrow[1]];
    }
  }

  /** The pivot against a rate table: each rate divided by the matching year's rate of the table. */
  function ConvertOn(f: Frame, r: Frame): (g: Frame)
    requires Convertible(f) && Valid(r) && r.columns == [C.Year, C.Exchange]
    ensures Convertible(g)
    ensures forall c :: c in g.columns <==> c in f.columns
  {
    ConvertShape(f, r);
    RatesDivided(Merge(f, r, ConvertJoin))
  }

  /** The merged rate divided by the target's rate of that year, the target's column dropped. */
  function RatesDivided(merged: Frame): (g: Frame)
    requires Valid(merged) && C.Exchange in merged.columns && ExchangeTo in merged.columns
    ensures Valid(g) && |g.rows| == |merged.rows|
    ensures forall c :: c in g.columns <==> c in merged.columns && c != ExchangeTo
  {
    var vals := seq(|merged.rows|, k requires 0 <= k < |merged.rows| =>
                    Div(Cell(merged, k, C.Exchange), Cell(merged, k, ExchangeTo)));
    DropColumns(Assign(merged, C.Exchange, vals), [ExchangeTo])
  }

  /** `_convert_exchange(df, to_currency)` */
  function ConvertExchange(f: Frame, to: string): (g: Frame)
    requires Convertible(f)
    ensures Convertible(g)
    ensures forall c :: c in g.columns <==> c in f.columns
  {
    CurrencyRatesOf(f, to);
    ConvertOn(f, CurrencyRates(f, to))
  }

  /** Row `k` of `g` is row `i` of `f` with its rate divided by `rate`; every other label is kept. */
  ghost predicate RowConverted(f: Frame, g: Frame, k: nat, i: nat, rate: Value)
    requires Convertible(f) && Convertible(g) && i < |f.rows|
  {
    && k < |g.rows|
    && Cell(g, k, C.Exchange) == Div(Cell(f, i, C.Exchange), rate)
    && forall c :: c in f.columns && c != C.Exchange ==> c in g.columns && Cell(g, k, c) == Cell(f, i, c)
  }

  /** A merged row joining row `i` with rate row `m` becomes row `i` divided by that rate. */
  lemma ConvertedRowOf(f: Frame, r: Frame, k: nat, i: nat, m: nat)
    requires Convertible(f) && Valid(r) && r.columns == [C.Year, C.Exchange] && i < |f.rows| && m < |r.rows|
    requires (ConvertShape(f, r);
              k < |Merge(f, r, ConvertJoin).rows| &&
              Merge(f, r, ConvertJoin).rows[k] == Combined(f, r, ConvertJoin, f.rows[i], r.rows[m]))
    ensures RowConverted(f, ConvertOn(f, r), k, i, Cell(r, m, C.Exchange))
  {
    ConvertShape(f, r);
    var merged := Merge(f, r, ConvertJoin);
    var row := merged.rows[k];
    assert row == f.rows[i] + [r.rows[m][1]];
    forall c | c in f.columns ensures Cell(merged, k, c) == Cell(f, i, c) {
      IndexOfAppendLeft(f.columns, [ExchangeTo], c);
    }
    IndexOfAppendRight(f.columns, [ExchangeTo], ExchangeTo);
    assert Cell(merged, k, ExchangeTo) == Cell(r, m, C.Exchange);
  }

  /** Every pivoted row is some row divided by the rate of a same-year row of the currency. */
  ghost predicate ConvertedFrom(f: Frame, to: string, g: Frame, k: nat)
    requires Convertible(f) && Convertible(g)
  {
    exists i, n :: 0 <= i < |f.rows| && 0 <= n < |f.rows| && IsCurrencyRow(f, to, n) && SameYear(f, i, n) &&
      RowConverted(f, g, k, i, Cell(f, n, C.Exchange))
  }

  lemma ConvertOnFrom(f: Frame, to: string, r: Frame, ps: seq<nat>)
    requires Convertible(f) && RatesOf(f, to, r, ps)
    ensures forall k :: 0 <= k < |ConvertOn(f, r).rows| ==> ConvertedFrom(f, to, ConvertOn(f, r), k)
  {
    forall k | 0 <= k < |ConvertOn(f, r).rows| ensures ConvertedFrom(f, to, ConvertOn(f, r), k) {
      ConvertedAt(f, to, r, ps, k);
    }
  }

  /** Row `k` of the pivot comes from a joined pair of rows. */
  lemma ConvertedAt(f: Frame, to: string, r: Frame, ps: seq<nat>, k: nat)
    requires Convertible(f) && RatesOf(f, to, r, ps) && k < |ConvertOn(f, r).rows|
    ensures ConvertedFrom(f, to, ConvertOn(f, r), k)
  {
    ConvertShape(f, r);
    var j := ConvertJoin;
    var merged := Merge(f, r, j);
    assert k < |merged.rows|;
    InnerJoinCombines(f, r, j);
    assert JoinedRow(f, r, j, merged.rows[k]);
    var i, m :| 0 <= i < |f.rows| && 0 <= m < |r.rows| &&
      SameKey(LeftKey(f, r, j, i), RightKey(f, r, j, m)) && merged.rows[k] == Combined(f, r, j, f.rows[i], r.rows[m]);
    JoinedRowConverted(f, to, r, ps, k, i, m);
  }

  /** One joined row of the pivot merge, as `ConvertedFrom` states it. */
  lemma JoinedRowConverted(f: Frame, to: string, r: Frame, ps: seq<nat>, k: nat, i: nat, m: nat)
    requires Convertible(f) && RatesOf(f, to, r, ps) && i < |f.rows| && m < |r.rows|
    requires (ConvertShape(f, r);
              && SameKey(LeftKey(f, r, ConvertJoin, i), RightKey(f, r, ConvertJoin, m))
              && k < |Merge(f, r, ConvertJoin).rows|
              && Merge(f, r, ConvertJoin).rows[k] == Combined(f, r, ConvertJoin, f.rows[i], r.rows[m]))
    ensures ConvertedFrom(f, to, ConvertOn(f, r), k)
  {
    ConvertShape(f, r);
    ConvertedRowOf(f, r, k, i, m);
    ConvertKeyMatch(f, to, r, ps, i, m);
    var n := ps[m];
    assert IsCurrencyRow(f, to, n) && SameYear(f, i, n);
  }

  /**
   * The pivot, row by row: every row of the result is a row of `f` whose
   * rate is divided by the rate a row of `to_currency` has in the same year;
   * every other label keeps that row's cell.
   */
  lemma ConvertFrom(f: Frame, to: string)
    requires Convertible(f)
    ensures forall k :: 0 <= k < |ConvertExchange(f, to).rows| ==> ConvertedFrom(f, to, ConvertExchange(f, to), k)
  {
    CurrencyRatesOf(f, to);
    ConvertOnFrom(f, to, CurrencyRates(f, to), Positions(f.rows, CurrencyMask(f, to)));
  }

  /** No two rows of the currency share a year, as the merge compares years. */
  predicate OnePerYear(f: Frame, to: string)
    requires Convertible(f)
  {
    forall n1, n2 ::
      (0 <= n1 < |f.rows| && 0 <= n2 < |f.rows| && n1 != n2 && IsCurrencyRow(f, to, n1) && IsCurrencyRow(f, to, n2))
      ==> !SameYear(f, n1, n2)
  }

  /** The first row of the currency below `n` in the year of row `i`. */
  function RateRow(f: Frame, to: string, i: nat, n: nat): (r: Option<nat>)
    requires Convertible(f) && i < |f.rows| && n <= |f.rows|
    ensures r.Some? ==> r.value < n && IsCurrencyRow(f, to, r.value) && SameYear(f, i, r.value)
  {
    if n == 0 then None
    else
      var prev := RateRow(f, to, i, n - 1);
      if prev.Some? then prev
      else if IsCurrencyRow(f, to, n - 1) && SameYear(f, i, n - 1) then Some(n - 1)
      else None
  }

  /** A currency row in the year of row `i` below `n` means a rate row is found. */
  lemma {:induction false} RateRowFound(f: Frame, to: string, i: nat, n: nat, m: nat)
    requires Convertible(f) && i < |f.rows| && n <= |f.rows| && m < n
    requires IsCurrencyRow(f, to, m) && SameYear(f, i, m)
    ensures RateRow(f, to, i, n).Some?
  {
    if m < n - 1 {
      RateRowFound(f, to, i, n - 1, m);
    }
  }

  /** The rows below `n` whose year has a rate of the currency, ascending. */
  function Priced(f: Frame, to: string, n: nat): (ps: seq<nat>)
    requires Convertible(f) && n <= |f.rows|
    ensures forall p :: 0 <= p < |ps| ==> ps[p] < n && RateRow(f, to, ps[p], |f.rows|).Some?
    ensures forall i :: 0 <= i < n && RateRow(f, to, i, |f.rows|).Some? ==> i in ps
    ensures forall p, q :: 0 <= p < q < |ps| ==> ps[p] < ps[q]
  {
    if n == 0 then []
    else
      var prev := Priced(f, to, n - 1);
      if RateRow(f, to, n - 1, |f.rows|).Some? then prev + [n - 1] else prev
  }

  /** Row `i` meets rate row `q` in the merge exactly when it has the year of currency row `ps[q]`. */
  lemma ConvertKeyMatch(f: Frame, to: string, r: Frame, ps: seq<nat>, i: nat, q: nat)
    requires Convertible(f) && RatesOf(f, to, r, ps) && i < |f.rows| && q < |r.rows|
    ensures (ConvertShape(f, r);
             SameKey(LeftKey(f, r, ConvertJoin, i), RightKey(f, r, ConvertJoin, q)) <==> SameYear(f, i, ps[q]))
  {
    ConvertShape(f, r);
    assert LeftKey(f, r, ConvertJoin, i) == [Cell(f, i, C.Year)];
    assert RightKey(f, r, ConvertJoin, q) == [Cell(r, q, C.Year)];
    SingleKeys(Cell(f, i, C.Year), Cell(r, q, C.Year));
  }

  /** The key of rate row `q` is the year of currency row `ps[q]`. */
  lemma RateKey(f: Frame, to: string, r: Frame, ps: seq<nat>, q: nat)
    requires Convertible(f) && RatesOf(f, to, r, ps) && q < |r.rows|
    ensures (ConvertShape(f, r); RightKey(f, r, ConvertJoin, q) == [Cell(f, ps[q], C.Year)])
  {
    ConvertShape(f, r);
    assert RightKey(f, r, ConvertJoin, q) == [Cell(r, q, C.Year)];
  }

  /** One rate per year makes the rate table's keys distinct. */
  lemma ConvertKeysDistinct(f: Frame, to: string, r: Frame, ps: seq<nat>)
    requires Convertible(f) && RatesOf(f, to, r, ps) && OnePerYear(f, to)
    ensures (ConvertShape(f, r); RightKeysDistinct(f, r, ConvertJoin))
  {
    ConvertShape(f, r);
    forall m1, m2 | 0 <= m1 < m2 < |r.rows|
      ensures !SameKey(RightKey(f, r, ConvertJoin, m1), RightKey(f, r, ConvertJoin, m2))
    {
      RateKey(f, to, r, ps, m1);
      RateKey(f, to, r, ps, m2);
      SingleKeys(Cell(f, ps[m1], C.Year), Cell(f, ps[m2], C.Year));
      assert !SameYear(f, ps[m1], ps[m2]);
    }
  }

  /** Two currency rows in the year of row `i` are one row, with one rate per year. */
  lemma SameRateRow(f: Frame, to: string, i: nat, a: nat, b: nat)
    requires Convertible(f) && OnePerYear(f, to) && i < |f.rows| && a < |f.rows| && b < |f.rows|
    requires IsCurrencyRow(f, to, a) && IsCurrencyRow(f, to, b) && SameYear(f, i, a) && SameYear(f, i, b)
    ensures a == b
  {
    KeyEqIsEquivalence(Cell(f, i, C.Year), Cell(f, a, C.Year), Cell(f, b, C.Year));
    KeyEqIsEquivalence(Cell(f, a, C.Year), Cell(f, i, C.Year), Cell(f, b, C.Year));
  }

  /** Row `i` finds a partner exactly when its year has a rate, and the partner holds that rate. */
  lemma ConvertPartner(f: Frame, to: string, r: Frame, ps: seq<nat>, i: nat)
    requires Convertible(f) && RatesOf(f, to, r, ps) && OnePerYear(f, to) && i < |f.rows|
    ensures (ConvertShape(f, r); ConvertKeysDistinct(f, to, r, ps);
             var n := RateRow(f, to, i, |f.rows|);
             && (HasPartner(f, r, ConvertJoin, i) <==> n.Some?)
             && (n.Some? ==> Cell(r, Partner(f, r, ConvertJoin, i), C.Exchange) == Cell(f, n.value, C.Exchange)))
  {
    ConvertShape(f, r);
    ConvertKeysDistinct(f, to, r, ps);
    var j := ConvertJoin;
    var n := RateRow(f, to, i, |f.rows|);
    HasPartnerIff(f, r, j, i);
    if HasPartner(f, r, j, i) {
      var q := Partner(f, r, j, i);
      ConvertKeyMatch(f, to, r, ps, i, q);
      RateRowFound(f, to, i, |f.rows|, ps[q]);
      SameRateRow(f, to, i, n.value, ps[q]);
    } else if n.Some? {
      var m := n.value;
      assert m in ps;
      var q :| 0 <= q < |ps| && ps[q] == m;
      ConvertKeyMatch(f, to, r, ps, i, q);
      assert false;
    }
  }

  /** Row `i` finds a partner exactly when its year has a rate. */
  lemma ConvertHasPartner(f: Frame, to: string, r: Frame, ps: seq<nat>, i: nat)
    requires Convertible(f) && RatesOf(f, to, r, ps) && OnePerYear(f, to) && i < |f.rows|
    ensures (ConvertJoinable(f, r); HasPartner(f, r, ConvertJoin, i) <==> RateRow(f, to, i, |f.rows|).Some?)
  {
    ConvertPartner(f, to, r, ps, i);
  }

  /** One more row keeps the partnered rows equal to the priced rows. */
  lemma PricedStep(f: Frame, to: string, r: Frame, n: nat)
    requires Convertible(f) && Joinable(f, r, ConvertJoin) && 0 < n <= |f.rows|
    requires PartneredBelow(f, r, ConvertJoin, n - 1) == Priced(f, to, n - 1)
    requires HasPartner(f, r, ConvertJoin, n - 1) <==> RateRow(f, to, n - 1, |f.rows|).Some?
    ensures PartneredBelow(f, r, ConvertJoin, n) == Priced(f, to, n)
  {
    PartneredBelowSnoc(f, r, ConvertJoin, n);
  }

  /** When every row below `n` finds a partner exactly when it is priced, the two lists agree. */
  lemma {:induction false} PartneredPriced(f: Frame, to: string, r: Frame, n: nat)
    requires Convertible(f) && Joinable(f, r, ConvertJoin) && n <= |f.rows|
    requires forall i :: 0 <= i < n ==> (HasPartner(f, r, ConvertJoin, i) <==> RateRow(f, to, i, |f.rows|).Some?)
    ensures PartneredBelow(f, r, ConvertJoin, n) == Priced(f, to, n)
  {
    if n > 0 {
      PartneredPriced(f, to, r, n - 1);
      var k := n - 1;
      assert HasPartner(f, r, ConvertJoin, k) <==> RateRow(f, to, k, |f.rows|).Some?;
      PricedStep(f, to, r, n);
    }
  }

  /** The rows that find a partner are the priced rows. */
  lemma PricedPartnered(f: Frame, to: string, r: Frame, ps: seq<nat>, n: nat)
    requires Convertible(f) && RatesOf(f, to, r, ps) && OnePerYear(f, to) && n <= |f.rows|
    ensures (ConvertJoinable(f, r); PartneredBelow(f, r, ConvertJoin, n) == Priced(f, to, n))
  {
    ConvertJoinable(f, r);
    forall i | 0 <= i < n
      ensures HasPartner(f, r, ConvertJoin, i) <==> RateRow(f, to, i, |f.rows|).Some?
    {
      ConvertHasPartner(f, to, r, ps, i);
    }
    PartneredPriced(f, to, r, n);
  }

  /** Row `p` of the pivot against a rate table is the `p`-th priced row, divided by its year's rate. */
  lemma ConvertOnRow(f: Frame, to: string, r: Frame, ps: seq<nat>, p: nat)
    requires Convertible(f) && RatesOf(f, to, r, ps) && OnePerYear(f, to)
    requires p < |Priced(f, to, |f.rows|)|
    ensures var i := Priced(f, to, |f.rows|)[p];
            RowConverted(f, ConvertOn(f, r), p, i, Cell(f, RateRow(f, to, i, |f.rows|).value, C.Exchange))
  {
    ConvertShape(f, r);
    ConvertKeysDistinct(f, to, r, ps);
    PricedPartnered(f, to, r, ps, |f.rows|);
    var j := ConvertJoin;
    var i := Priced(f, to, |f.rows|)[p];
    InnerJoinRowAt(f, r, j, p);
    ConvertPartner(f, to, r, ps, i);
    ConvertedRowOf(f, r, p, i, Partner(f, r, j, i));
  }

  lemma ConvertOnRows(f: Frame, to: string, r: Frame, ps: seq<nat>)
    requires Convertible(f) && RatesOf(f, to, r, ps) && OnePerYear(f, to)
    ensures |ConvertOn(f, r).rows| == |Priced(f, to, |f.rows|)|
    ensures forall p :: 0 <= p < |Priced(f, to, |f.rows|)| ==>
              var i := Priced(f, to, |f.rows|)[p];
              RowConverted(f, ConvertOn(f, r), p, i, Cell(f, RateRow(f, to, i, |f.rows|).value, C.Exchange))
  {
    ConvertShape(f, r);
    ConvertKeysDistinct(f, to, r, ps);
    PricedPartnered(f, to, r, ps, |f.rows|);
    InnerJoinRows(f, r, ConvertJoin);
    forall p | 0 <= p < |Priced(f, to, |f.rows|)|
      ensures var i := Priced(f, to, |f.rows|)[p];
              RowConverted(f, ConvertOn(f, r), p, i, Cell(f, RateRow(f, to, i, |f.rows|).value, C.Exchange))
    {
      ConvertOnRow(f, to, r, ps, p);
    }
  }

  /**
   * The pivot, exactly, when the currency has one rate per year: the rows
   * whose year has a rate of `to_currency` are kept, in order, each rate
   * divided by that year's rate; rows of other years are dropped.
   */
  lemma ConvertRows(f: Frame, to: string)
    requires Convertible(f) && OnePerYear(f, to)
    ensures |ConvertExchange(f, to).rows| == |Priced(f, to, |f.rows|)|
    ensures forall p :: 0 <= p < |Priced(f, to, |f.rows|)| ==>
              var i := Priced(f, to, |f.rows|)[p];
              RowConverted(f, ConvertExchange(f, to), p, i, Cell(f, RateRow(f, to, i, |f.rows|).value, C.Exchange))
  {
    CurrencyRatesOf(f, to);
    ConvertOnRows(f, to, CurrencyRates(f, to), Positions(f.rows, CurrencyMask(f, to)));
  }

  /** A row of the currency itself is priced by its own rate. */
  lemma CurrencyRowPriced(f: Frame, to: string, i: nat)
    requires Convertible(f) && OnePerYear(f, to) && i < |f.rows| && IsCurrencyRow(f, to, i)
    ensures RateRow(f, to, i, |f.rows|) == Some(i)
  {
    KeyEqIsEquivalence(Cell(f, i, C.Year), Cell(f, i, C.Year), Cell(f, i, C.Year));
    RateRowFound(f, to, i, |f.rows|, i);
    var n := RateRow(f, to, i, |f.rows|);
    SameRateRow(f, to, i, n.value, i);
  }

  /** After the pivot, every row of the currency itself has rate 1 (when its rate is a non-zero number). */
  lemma ConvertSelf(f: Frame, to: string, p: nat)
    requires Convertible(f) && OnePerYear(f, to) && p < |Priced(f, to, |f.rows|)|
    requires var i := Priced(f, to, |f.rows|)[p];
             IsCurrencyRow(f, to, i) && IsNumeric(Cell(f, i, C.Exchange)) && Real(Cell(f, i, C.Exchange)) != 0.0
    ensures (ConvertRows(f, to); Cell(ConvertExchange(f, to), p, C.Exchange) == Num(1.0))
  {
    ConvertRows(f, to);
    var i := Priced(f, to, |f.rows|)[p];
    CurrencyRowPriced(f, to, i);
    var v := Cell(f, i, C.Exchange);
    assert RowConverted(f, ConvertExchange(f, to), p, i, v);
    DivSelf(v);
  }

  /** Every row of the currency is kept by the pivot. */
  lemma CurrencyRowsKept(f: Frame, to: string, i: nat)
    requires Convertible(f) && OnePerYear(f, to) && i < |f.rows| && IsCurrencyRow(f, to, i)
    ensures i in Priced(f, to, |f.rows|)
  {
    CurrencyRowPriced(f, to, i);
  }

  // ---------------------------------------------------------------------
  // `__post_init__`: the steps in order
  // ---------------------------------------------------------------------

  /** Which labels the loaded frame has, read off the reader's labels. */
  lemma LoadedLabels(raw: Frame)
    requires Valid(raw)
    ensures var f := Loaded(raw);
            && (C.Year in f.columns <==> "year" in raw.columns)
            && (C.Iso3 in f.columns <==> "pydeflate_iso3" in raw.columns)
            && (C.Exchange in f.columns <==> "EXCHANGE" in raw.columns)
            && ExchangeTo !in f.columns
  {
    LabelsDistinct();
    var f := Loaded(raw);
    assert Labels[0] == C.Year && ReadLabels[0] == "year";
    assert Labels[2] == C.Iso3 && ReadLabels[2] == "pydeflate_iso3";
    assert Labels[3] == C.Exchange && ReadLabels[3] == "EXCHANGE";
  }

  /**
   * The labels `__post_init__` reads for the `name`, source `s` and target
   * `t` it was given, without which it raises `KeyError`: the ISO3 code for
   * the World Bank fix, year and ISO3 code for a pivot, and the rate for a
   * pivot or the inversion unless `s == t` set it to 1.
   */
  predicate Loadable(name: string, s: string, t: string, raw: Frame) {
    && Valid(raw)
    && (name == C.WorldBank ==> "pydeflate_iso3" in raw.columns)
    && ((s != C.Lcu || (t != C.UsaCode && t != C.Lcu)) ==> "year" in raw.columns && "pydeflate_iso3" in raw.columns)
    && ((s != C.Lcu || t != C.UsaCode) && s != t ==> "EXCHANGE" in raw.columns)
  }

  /** Lines 32-46: the loaded frame, with the World Bank's euro code fixed. */
  function Prepared(name: string, raw: Frame): (f: Frame)
    requires Valid(raw) && (name == C.WorldBank ==> "pydeflate_iso3" in raw.columns)
    ensures Valid(f) && f.columns == Loaded(raw).columns && |f.rows| == |raw.rows|
    ensures name == C.WorldBank ==> forall i :: 0 <= i < |f.rows| ==> Cell(f, i, C.Iso3) != Text("EMU")
    ensures name != C.WorldBank ==> f == Loaded(raw)
  {
    LoadedLabels(raw);
    if name == C.WorldBank then EmuToEur(Loaded(raw)) else Loaded(raw)
  }

  /** Lines 49-51: unit rates when source and target agree. */
  function Unified(f: Frame, s: string, t: string): (g: Frame)
    requires Valid(f)
    ensures Valid(g) && |g.rows| == |f.rows|
    ensures forall c :: c in g.columns <==> c in f.columns || (s == t && (c == C.Exchange || c == C.ExchangeD))
    ensures s != t ==> g == f
  {
    if s == t then UnitRates(f) else f
  }

  /** What the pivots of lines 54-63 read. */
  predicate Pivotable(f: Frame, s: string, t: string) {
    Valid(f) && ((s != C.Lcu || (t != C.UsaCode && t != C.Lcu)) ==> Convertible(f))
  }

  /** Lines 54-63: the pivot to the source currency, then to the target currency. */
  function Pivoted(f: Frame, s: string, t: string): (g: Frame)
    requires Pivotable(f, s, t)
    ensures Valid(g) && forall c :: c in g.columns <==> c in f.columns
    ensures s == C.Lcu && (t == C.UsaCode || t == C.Lcu) ==> g == f
  {
    var f2 := if s != C.Lcu then ConvertExchange(f, s) else f;
    if t != C.UsaCode && t != C.Lcu then ConvertExchange(f2, t) else f2
  }

  /** Which of the labels the pivots read the prepared frame has. */
  lemma PreparedLabels(name: string, raw: Frame)
    requires Valid(raw) && (name == C.WorldBank ==> "pydeflate_iso3" in raw.columns)
    ensures var f := Prepared(name, raw);
            && (C.Year in f.columns <==> "year" in raw.columns)
            && (C.Iso3 in f.columns <==> "pydeflate_iso3" in raw.columns)
            && (C.Exchange in f.columns <==> "EXCHANGE" in raw.columns)
            && ExchangeTo !in f.columns
  {
    LoadedLabels(raw);
  }

  /** `__post_init__`'s steps compose: each finds the labels the next reads. */
  lemma InitializedSteps(name: string, s: string, t: string, raw: Frame)
    requires Loadable(name, s, t, raw)
    ensures var f1 := Unified(Prepared(name, raw), s, t);
            && Pivotable(f1, s, t)
            && (t == C.Lcu ==> C.Exchange in Pivoted(f1, s, t).columns)
  {
    PreparedLabels(name, raw);
    var f0 := Prepared(name, raw);
    var f1 := Unified(f0, s, t);
    assert C.Year in f1.columns <==> C.Year in f0.columns;
    assert C.Iso3 in f1.columns <==> C.Iso3 in f0.columns;
    assert ExchangeTo !in f1.columns;
    assert C.Exchange in f1.columns <==> s == t || C.Exchange in f0.columns;
  }

  /** The table `__post_init__` leaves in `exchange_data`. */
  function Initialized(name: string, s: string, t: string, raw: Frame): (f: Frame)
    requires Loadable(name, s, t, raw)
    ensures Valid(f)
    ensures forall c :: c in f.columns <==>
              c in Loaded(raw).columns || (s == t && (c == C.Exchange || c == C.ExchangeD))
  {
    InitializedSteps(name, s, t, raw);
    var f3 := Pivoted(Unified(Prepared(name, raw), s, t), s, t);
    if t == C.Lcu then Invert(f3) else f3
  }

  /** No ISO3 code is `EMU`. */
  ghost predicate NoEmu(f: Frame) {
    Valid(f) && C.Iso3 in f.columns && forall i :: 0 <= i < |f.rows| ==> Cell(f, i, C.Iso3) != Text("EMU")
  }

  /** A label other than the rate holds, in a row converted from `f`, the cell of some row of `f`. */
  lemma CellFrom(f: Frame, to: string, g: Frame, k: nat, c: string)
    requires Convertible(f) && Convertible(g) && k < |g.rows| && ConvertedFrom(f, to, g, k)
    requires c in f.columns && c != C.Exchange
    ensures c in g.columns && exists i :: 0 <= i < |f.rows| && Cell(g, k, c) == Cell(f, i, c)
  {
    var i, n :| 0 <= i < |f.rows| && 0 <= n < |f.rows| && IsCurrencyRow(f, to, n) && SameYear(f, i, n) &&
                RowConverted(f, g, k, i, Cell(f, n, C.Exchange));
    assert Cell(g, k, c) == Cell(f, i, c);
  }

  /** The pivot copies ISO3 codes from the rows it keeps, so it brings no `EMU` back. */
  lemma ConvertKeepsNoEmu(f: Frame, to: string)
    requires Convertible(f) && NoEmu(f)
    ensures NoEmu(ConvertExchange(f, to))
  {
    var g := ConvertExchange(f, to);
    ConvertFrom(f, to);
    forall k | 0 <= k < |g.rows| ensures Cell(g, k, C.Iso3) != Text("EMU") {
      CellFrom(f, to, g, k, C.Iso3);
    }
  }

  lemma PivotedKeepsNoEmu(f: Frame, s: string, t: string)
    requires Pivotable(f, s, t) && NoEmu(f)
    ensures NoEmu(Pivoted(f, s, t))
  {
    var f2 := if s != C.Lcu then ConvertExchange(f, s) else f;
    if s != C.Lcu { ConvertKeepsNoEmu(f, s); }
    if t != C.UsaCode && t != C.Lcu { ConvertKeepsNoEmu(f2, t); }
  }

  /** Unit rates leave the ISO3 codes alone. */
  lemma UnifiedKeepsNoEmu(f: Frame, s: string, t: string)
    requires NoEmu(f)
    ensures NoEmu(Unified(f, s, t))
  {
    var g := Unified(f, s, t);
    forall i | 0 <= i < |g.rows| ensures Cell(g, i, C.Iso3) == Cell(f, i, C.Iso3) {
    }
  }

  /** The inversion leaves the ISO3 codes alone. */
  lemma InvertKeepsNoEmu(f: Frame)
    requires NoEmu(f) && C.Exchange in f.columns
    ensures NoEmu(Invert(f))
  {
  }

  /** For the World Bank the table never holds the code `EMU`: every euro-area row reads `EUR`. */
  lemma InitializedNoEmu(s: string, t: string, raw: Frame)
    requires Loadable(C.WorldBank, s, t, raw)
    ensures var f := Initialized(C.WorldBank, s, t, raw);
            forall i :: 0 <= i < |f.rows| ==> Cell(f, i, C.Iso3) != Text("EMU")
  {
    InitializedSteps(C.WorldBank, s, t, raw);
    PreparedLabels(C.WorldBank, raw);
    var f0 := Prepared(C.WorldBank, raw);
    assert NoEmu(f0);
    UnifiedKeepsNoEmu(f0, s, t);
    var f1 := Unified(f0, s, t);
    PivotedKeepsNoEmu(f1, s, t);
    if t == C.Lcu {
      InvertKeepsNoEmu(Pivoted(f1, s, t));
    }
  }

  /** Every rate is the number 1, and every deflator-side rate the integer 1. */
  ghost predicate UnitRated(f: Frame) {
    && Valid(f) && C.Exchange in f.columns && C.ExchangeD in f.columns
    && forall i :: 0 <= i < |f.rows| ==>
         IsNumeric(Cell(f, i, C.Exchange)) && Real(Cell(f, i, C.Exchange)) == 1.0 && Cell(f, i, C.ExchangeD) == Int(1)
  }

  /** A row converted from a frame of unit rates has unit rates. */
  lemma UnitFrom(f: Frame, to: string, g: Frame, k: nat)
    requires Convertible(f) && UnitRated(f) && Convertible(g) && k < |g.rows| && ConvertedFrom(f, to, g, k)
    ensures C.ExchangeD in g.columns && Cell(g, k, C.Exchange) == Num(1.0) && Cell(g, k, C.ExchangeD) == Int(1)
  {
    var i, n :| 0 <= i < |f.rows| && 0 <= n < |f.rows| && IsCurrencyRow(f, to, n) && SameYear(f, i, n) &&
                RowConverted(f, g, k, i, Cell(f, n, C.Exchange));
    assert Cell(g, k, C.ExchangeD) == Cell(f, i, C.ExchangeD);
  }

  /** Dividing rates of 1 by rates of 1 leaves rates of 1. */
  lemma ConvertKeepsUnit(f: Frame, to: string)
    requires Convertible(f) && UnitRated(f)
    ensures UnitRated(ConvertExchange(f, to))
  {
    var g := ConvertExchange(f, to);
    ConvertFrom(f, to);
    forall k | 0 <= k < |g.rows|
      ensures IsNumeric(Cell(g, k, C.Exchange)) && Real(Cell(g, k, C.Exchange)) == 1.0 && Cell(g, k, C.ExchangeD) == Int(1)
    {
      UnitFrom(f, to, g, k);
    }
  }

  lemma PivotedKeepsUnit(f: Frame, s: string, t: string)
    requires Pivotable(f, s, t) && UnitRated(f)
    ensures UnitRated(Pivoted(f, s, t))
  {
    var f2 := if s != C.Lcu then ConvertExchange(f, s) else f;
    if s != C.Lcu { ConvertKeepsUnit(f, s); }
    if t != C.UsaCode && t != C.Lcu { ConvertKeepsUnit(f2, t); }
  }

  /** The reciprocal of a rate of 1 is 1. */
  lemma InvertKeepsUnit(f: Frame)
    requires UnitRated(f)
    ensures UnitRated(Invert(f))
  {
    var g := Invert(f);
    forall i | 0 <= i < |g.rows| ensures Cell(g, i, C.Exchange) == Num(1.0) {
      assert Cell(g, i, C.Exchange) == Div(Int(1), Cell(f, i, C.Exchange));
    }
  }

  /** Lines 49-51 set every rate to 1 when source and target agree. */
  lemma UnifiedUnit(f: Frame, s: string)
    requires Valid(f)
    ensures UnitRated(Unified(f, s, s))
  {
  }

  /** When source and target agree every rate is 1, whichever pivots and inversion follow. */
  lemma InitializedSameCurrency(name: string, s: string, raw: Frame)
    requires Loadable(name, s, s, raw)
    ensures UnitRated(Initialized(name, s, s, raw))
  {
    InitializedSteps(name, s, s, raw);
    var f1 := Unified(Prepared(name, raw), s, s);
    UnifiedUnit(Prepared(name, raw), s);
    PivotedKeepsUnit(f1, s, s);
    if s == C.Lcu {
      InvertKeepsUnit(Pivoted(f1, s, s));
    }
  }

  /**
   * From local currency to a target other than the dollar: rows of years the
   * target has a rate for are kept in order, each rate divided by the
   * target's rate of that year (local units per unit of the target).
   */
  lemma InitializedToTarget(name: string, t: string, raw: Frame)
    requires Loadable(name, C.Lcu, t, raw) && t != C.UsaCode && t != C.Lcu
    requires (LoadedLabels(raw); OnePerYear(Prepared(name, raw), t))
    ensures var f0 := Prepared(name, raw);
            var f := Initialized(name, C.Lcu, t, raw);
            var ps := Priced(f0, t, |f0.rows|);
            && |f.rows| == |ps|
            && forall p :: 0 <= p < |ps| ==>
                 RowConverted(f0, f, p, ps[p], Cell(f0, RateRow(f0, t, ps[p], |f0.rows|).value, C.Exchange))
  {
    LoadedLabels(raw);
    var f0 := Prepared(name, raw);
    assert Unified(f0, C.Lcu, t) == f0;
    assert Initialized(name, C.Lcu, t, raw) == ConvertExchange(f0, t);
    ConvertRows(f0, t);
  }

  /**
   * From a currency to local currency units: rows of years the source has a
   * rate for are kept in order, each rate the reciprocal of the pivot's, that
   * is units of the source per local unit.
   */
  lemma InitializedToLcu(name: string, s: string, raw: Frame)
    requires Loadable(name, s, C.Lcu, raw) && s != C.Lcu
    requires (LoadedLabels(raw); OnePerYear(Prepared(name, raw), s))
    ensures var f0 := Prepared(name, raw);
            var f := Initialized(name, s, C.Lcu, raw);
            var ps := Priced(f0, s, |f0.rows|);
            && |f.rows| == |ps|
            && forall p :: 0 <= p < |ps| ==>
                 Cell(f, p, C.Exchange) ==
                   Div(Int(1), Div(Cell(f0, ps[p], C.Exchange), Cell(f0, RateRow(f0, s, ps[p], |f0.rows|).value, C.Exchange)))
  {
    LoadedLabels(raw);
    var f0 := Prepared(name, raw);
    assert Unified(f0, s, C.Lcu) == f0;
    var g := ConvertExchange(f0, s);
    assert Pivoted(f0, s, C.Lcu) == g;
    assert Initialized(name, s, C.Lcu, raw) == Invert(g);
    ConvertRows(f0, s);
    var ps := Priced(f0, s, |f0.rows|);
    forall p | 0 <= p < |ps|
      ensures Cell(Invert(g), p, C.Exchange) ==
                Div(Int(1), Div(Cell(f0, ps[p], C.Exchange), Cell(f0, RateRow(f0, s, ps[p], |f0.rows|).value, C.Exchange)))
    {
      assert RowConverted(f0, g, p, ps[p], Cell(f0, RateRow(f0, s, ps[p], |f0.rows|).value, C.Exchange));
    }
  }

  // ---------------------------------------------------------------------
  // `exchange`: applying the rates to a caller's data
  // ---------------------------------------------------------------------

  /** The labels `exchange` takes of the rate table. */
  const ExchangeCols: seq<string> := [C.Year, C.EntityCode, C.Iso3, C.Exchange]

  /** The rate-table label entities are matched on: the source's own codes, or ISO3. */
  function EntityKey(useSourceCodes: bool): (k: string)
    ensures k in ExchangeCols && StartsWith(k, C.Prefix) && k != C.Year && k != C.Exchange
  {
    assert C.EntityCode[..10] == C.Prefix && C.Iso3[..10] == C.Prefix;
    assert C.EntityCode[10] != C.Year[10] && C.EntityCode[10] != C.Exchange[10];
    assert C.Iso3[10] != C.Year[10] && C.Iso3[10] != C.Exchange[10];
    if useSourceCodes then C.EntityCode else C.Iso3
  }

  /** `merge(…, how="left", left_on=[year, entity_column], right_on=[year, key])` */
  function ApplyJoin(ec: string, useSourceCodes: bool): Join {
    Join([C.Year, ec], [C.Year, EntityKey(useSourceCodes)], LeftJoin, "_x", "_y", false)
  }

  /**
   * Lines 125-127: the caller's frame gets `pydeflate_year`, the year of its
   * `year_column` as `parseYear` reads it.
   */
  /** `pd.to_datetime(data[year_column], format=year_format).dt.year`, row by row. */
  function ParsedYears(d: Frame, yc: string, parseYear: Value -> Value): (ys: seq<Value>)
    requires Valid(d) && yc in d.columns
    ensures |ys| == |d.rows|
  {
    seq(|d.rows|, i requires 0 <= i < |d.rows| => parseYear(Cell(d, i, yc)))
  }

  function WithYear(d: Frame, yc: string, parseYear: Value -> Value): (g: Frame)
    requires Valid(d) && yc in d.columns
    ensures Valid(g) && |g.rows| == |d.rows| && C.Year in g.columns
    ensures g.columns == if C.Year in d.columns then d.columns else d.columns + [C.Year]
    ensures forall i :: 0 <= i < |g.rows| ==> Cell(g, i, C.Year) == parseYear(Cell(d, i, yc))
    ensures forall i, c :: 0 <= i < |g.rows| && c in d.columns && c != C.Year ==> Cell(g, i, c) == Cell(d, i, c)
  {
    Assign(d, C.Year, ParsedYears(d, yc, parseYear))
  }

  /** What lines 138-151 read without a `KeyError`. */
  predicate Exchangeable(d1: Frame, x: Frame, vc: string, ec: string, useSourceCodes: bool) {
    && Valid(d1) && Valid(x)
    && var r := FilterColumns(x, ExchangeCols);
       var j := ApplyJoin(ec, useSourceCodes);
       Joinable(d1, r, j) && vc in MergedColumns(d1, r, j) && C.Exchange in MergedColumns(d1, r, j)
  }

  /** `filter(regex="^(?!pydeflate_)")`: the labels without the prefix. */
  function Unprefixed(): string -> bool {
    c => !StartsWith(c, C.Prefix)
  }

  /** Lines 138-154 against a rate table `r`. */
  /** `data[value_column] / data["pydeflate_EXCHANGE"]`, row by row. */
  function RatedValues(m: Frame, vc: string): (vals: seq<Value>)
    requires Valid(m) && vc in m.columns && C.Exchange in m.columns
    ensures |vals| == |m.rows|
  {
    seq(|m.rows|, k requires 0 <= k < |m.rows| => Div(Cell(m, k, vc), Cell(m, k, C.Exchange)))
  }

  function ExchangedOn(d1: Frame, r: Frame, vc: string, ec: string, useSourceCodes: bool): (g: Frame)
    requires Valid(d1) && Valid(r)
    requires var j := ApplyJoin(ec, useSourceCodes);
             Joinable(d1, r, j) && vc in MergedColumns(d1, r, j) && C.Exchange in MergedColumns(d1, r, j)
    ensures Valid(g) && |g.rows| == |Merge(d1, r, ApplyJoin(ec, useSourceCodes)).rows|
    ensures forall c :: c in g.columns ==> !StartsWith(c, C.Prefix)
  {
    var merged := Merge(d1, r, ApplyJoin(ec, useSourceCodes));
    KeepColumns(Assign(merged, vc, RatedValues(merged, vc)), Unprefixed())
  }

  /** Lines 129-154: the value column divided by the matching rate, the helper labels dropped. */
  function Exchanged(d1: Frame, x: Frame, vc: string, ec: string, useSourceCodes: bool): (g: Frame)
    requires Exchangeable(d1, x, vc, ec, useSourceCodes)
    ensures Valid(g) && forall c :: c in g.columns ==> !StartsWith(c, C.Prefix)
  {
    ExchangedOn(d1, FilterColumns(x, ExchangeCols), vc, ec, useSourceCodes)
  }

  /** A rate table carrying the year, the entity key and the rate. */
  predicate Priceable(x: Frame, useSourceCodes: bool) {
    Valid(x) && C.Year in x.columns && EntityKey(useSourceCodes) in x.columns && C.Exchange in x.columns
  }

  /** The first row of `x` below `n` with year `y` and entity `e`, as the merge compares keys. */
  function MatchRow(x: Frame, key: string, y: Value, e: Value, n: nat): (m: Option<nat>)
    requires Valid(x) && C.Year in x.columns && key in x.columns && n <= |x.rows|
    ensures m.Some? ==> m.value < n && KeyEq(y, Cell(x, m.value, C.Year)) && KeyEq(e, Cell(x, m.value, key))
    ensures m.None? <==> forall k :: 0 <= k < n ==> !(KeyEq(y, Cell(x, k, C.Year)) && KeyEq(e, Cell(x, k, key)))
  {
    if n == 0 then None
    else
      var prev := MatchRow(x, key, y, e, n - 1);
      if prev.Some? then prev
      else if KeyEq(y, Cell(x, n - 1, C.Year)) && KeyEq(e, Cell(x, n - 1, key)) then Some(n - 1)
      else None
  }

  /** The rate of year `y` and entity `e`: the matching row's, or missing when no row matches. */
  function RateFor(x: Frame, key: string, y: Value, e: Value): Value
    requires Valid(x) && C.Year in x.columns && key in x.columns && C.Exchange in x.columns
  {
    var m := MatchRow(x, key, y, e, |x.rows|);
    if m.Some? then Cell(x, m.value, C.Exchange) else Missing
  }

  /** No two rows of the rate table share a year and an entity. */
  predicate RatesDistinct(x: Frame, key: string)
    requires Valid(x) && C.Year in x.columns && key in x.columns
  {
    forall m1, m2 :: 0 <= m1 < m2 < |x.rows| ==>
      !(KeyEq(Cell(x, m1, C.Year), Cell(x, m2, C.Year)) && KeyEq(Cell(x, m1, key), Cell(x, m2, key)))
  }

  /** The caller's frame: no label carries the prefix, and the three named labels exist. */
  predicate Plain(d: Frame, vc: string, ec: string, yc: string) {
    && Valid(d) && vc in d.columns && ec in d.columns && yc in d.columns
    && forall c :: c in d.columns ==> !StartsWith(c, C.Prefix)
  }

  /** `r` is the rate table `x` reduced to some of the exchange labels, row for row. */
  ghost predicate RateTableOf(x: Frame, r: Frame) {
    && Valid(x) && Valid(r) && |r.rows| == |x.rows|
    && (forall c :: c in r.columns <==> c in x.columns && c in ExchangeCols)
    && forall m, c :: 0 <= m < |r.rows| && c in r.columns ==> Cell(r, m, c) == Cell(x, m, c)
  }

  lemma FilteredRateTable(x: Frame)
    requires Valid(x)
    ensures RateTableOf(x, FilterColumns(x, ExchangeCols))
  {
  }

  /** Every label of the reduced rate table carries the prefix. */
  lemma RateLabelsPrefixed(x: Frame, r: Frame)
    requires RateTableOf(x, r)
    ensures forall c :: c in r.columns ==> StartsWith(c, C.Prefix)
  {
    assert C.Year[..10] == C.Prefix && C.EntityCode[..10] == C.Prefix;
    assert C.Iso3[..10] == C.Prefix && C.Exchange[..10] == C.Prefix;
  }

  /** The year is the one key label both sides of `exchange`'s merge share. */
  lemma ApplyShared(ec: string, useSourceCodes: bool)
    requires !StartsWith(ec, C.Prefix)
    ensures Shared(ApplyJoin(ec, useSourceCodes)) == {C.Year}
  {
    var j := ApplyJoin(ec, useSourceCodes);
    assert j.leftOn[0] == j.rightOn[0] == C.Year;
    assert j.leftOn[1] != j.rightOn[1];
  }

  /** The labels the rate table brings into the merge: all of them but the year, each with the prefix. */
  lemma ApplyRightKept(x: Frame, r: Frame, ec: string, useSourceCodes: bool)
    requires RateTableOf(x, r) && Priceable(x, useSourceCodes) && !StartsWith(ec, C.Prefix)
    ensures var kept := RightKept(r, ApplyJoin(ec, useSourceCodes));
            && (forall c :: c in kept <==> c in r.columns && c != C.Year)
            && (forall c :: c in kept ==> StartsWith(c, C.Prefix))
            && C.Exchange in kept
  {
    ApplyShared(ec, useSourceCodes);
    RateLabelsPrefixed(x, r);
    assert C.Exchange[10] != C.Year[10];
  }

  /** The labels of the merge, for a left side whose only prefixed label is the year, at the end. */
  lemma ApplyLabels(l: Frame, cols: seq<string>, x: Frame, r: Frame, ec: string, useSourceCodes: bool)
    requires Valid(l) && l.columns == cols + [C.Year] && ec in cols
    requires forall c :: c in cols ==> !StartsWith(c, C.Prefix)
    requires Priceable(x, useSourceCodes) && RateTableOf(x, r)
    ensures var j := ApplyJoin(ec, useSourceCodes);
            && Joinable(l, r, j)
            && Overlap(l, r, j) == {}
            && MergedColumns(l, r, j) == l.columns + RightKept(r, j)
            && C.Exchange in RightKept(r, j) && C.Exchange !in l.columns
            && forall c :: c in RightKept(r, j) ==> StartsWith(c, C.Prefix)
  {
    var j := ApplyJoin(ec, useSourceCodes);
    assert C.Year[..10] == C.Prefix && C.Exchange[..10] == C.Prefix;
    ApplyRightKept(x, r, ec, useSourceCodes);
    assert forall c :: c in l.columns ==> c in cols || c == C.Year;
    assert Overlap(l, r, j) == {};
    SuffixedNone(l.columns, "_x");
    SuffixedNone(RightKept(r, j), "_y");
  }

  /**
   * The shape of `exchange`'s merge on plain data: the year is the one key
   * label both sides share, no label overlaps, and the result has the
   * caller's labels, the year, then the rate table's other labels.
   */
  lemma ApplyShape(d0: Frame, x: Frame, r: Frame, vc: string, ec: string, yc: string,
                   parseYear: Value -> Value, useSourceCodes: bool)
    requires Plain(d0, vc, ec, yc) && Priceable(x, useSourceCodes) && RateTableOf(x, r)
    ensures var d1 := WithYear(d0, yc, parseYear);
            var j := ApplyJoin(ec, useSourceCodes);
            && d1.columns == d0.columns + [C.Year]
            && Joinable(d1, r, j)
            && Overlap(d1, r, j) == {}
            && MergedColumns(d1, r, j) == d1.columns + RightKept(r, j)
            && C.Exchange in RightKept(r, j) && C.Exchange !in d1.columns
            && forall c :: c in RightKept(r, j) ==> StartsWith(c, C.Prefix)
  {
    var d1 := WithYear(d0, yc, parseYear);
    assert C.Year[..10] == C.Prefix;
    assert C.Year !in d0.columns;
    ApplyLabels(d1, d0.columns, x, r, ec, useSourceCodes);
  }

  /** The merge's right keys are the rate table's (year, entity) pairs, so they are distinct. */
  lemma ApplyRightKey(x: Frame, r: Frame, d1: Frame, ec: string, useSourceCodes: bool, m: nat)
    requires RateTableOf(x, r) && Priceable(x, useSourceCodes) && Joinable(d1, r, ApplyJoin(ec, useSourceCodes))
    requires m < |r.rows|
    ensures RightKey(d1, r, ApplyJoin(ec, useSourceCodes), m) ==
              [Cell(x, m, C.Year), Cell(x, m, EntityKey(useSourceCodes))]
  {
    var key := EntityKey(useSourceCodes);
    assert C.Year in r.columns && key in r.columns;
    assert RightKey(d1, r, ApplyJoin(ec, useSourceCodes), m) == [Cell(r, m, C.Year), Cell(r, m, key)];
  }

  lemma ApplyKeysDistinct(x: Frame, r: Frame, d1: Frame, ec: string, useSourceCodes: bool)
    requires RateTableOf(x, r) && Priceable(x, useSourceCodes) && Joinable(d1, r, ApplyJoin(ec, useSourceCodes))
    requires RatesDistinct(x, EntityKey(useSourceCodes))
    ensures RightKeysDistinct(d1, r, ApplyJoin(ec, useSourceCodes))
  {
    var j := ApplyJoin(ec, useSourceCodes);
    var key := EntityKey(useSourceCodes);
    forall m1, m2 | 0 <= m1 < m2 < |r.rows| ensures !SameKey(RightKey(d1, r, j, m1), RightKey(d1, r, j, m2)) {
      ApplyRightKey(x, r, d1, ec, useSourceCodes, m1);
      ApplyRightKey(x, r, d1, ec, useSourceCodes, m2);
      PairKeys(Cell(x, m1, C.Year), Cell(x, m1, key), Cell(x, m2, C.Year), Cell(x, m2, key));
    }
  }

  /** Row `i` finds a rate row exactly when the lookup does, and the same one. */
  lemma ApplyPartner(x: Frame, r: Frame, d1: Frame, ec: string, useSourceCodes: bool, i: nat)
    requires RateTableOf(x, r) && Priceable(x, useSourceCodes) && Joinable(d1, r, ApplyJoin(ec, useSourceCodes))
    requires RatesDistinct(x, EntityKey(useSourceCodes)) && i < |d1.rows|
    ensures (ApplyKeysDistinct(x, r, d1, ec, useSourceCodes);
             var j := ApplyJoin(ec, useSourceCodes);
             var m := MatchRow(x, EntityKey(useSourceCodes), Cell(d1, i, C.Year), Cell(d1, i, ec), |x.rows|);
             && (HasPartner(d1, r, j, i) <==> m.Some?)
             && (m.Some? ==> Partner(d1, r, j, i) == m.value))
  {
    ApplyKeysDistinct(x, r, d1, ec, useSourceCodes);
    var j := ApplyJoin(ec, useSourceCodes);
    var key := EntityKey(useSourceCodes);
    var y, e := Cell(d1, i, C.Year), Cell(d1, i, ec);
    var m := MatchRow(x, key, y, e, |x.rows|);
    assert LeftKey(d1, r, j, i) == [y, e];
    HasPartnerIff(d1, r, j, i);
    if HasPartner(d1, r, j, i) {
      var q := Partner(d1, r, j, i);
      ApplyRightKey(x, r, d1, ec, useSourceCodes, q);
      PairKeys(y, e, Cell(x, q, C.Year), Cell(x, q, key));
      assert m.Some?;
      if m.value != q {
        KeyEqIsEquivalence(y, Cell(x, q, C.Year), Cell(x, m.value, C.Year));
        KeyEqIsEquivalence(Cell(x, q, C.Year), y, Cell(x, m.value, C.Year));
        KeyEqIsEquivalence(e, Cell(x, q, key), Cell(x, m.value, key));
        KeyEqIsEquivalence(Cell(x, q, key), e, Cell(x, m.value, key));
        KeyEqIsEquivalence(Cell(x, m.value, C.Year), y, Cell(x, q, C.Year));
        KeyEqIsEquivalence(Cell(x, m.value, key), e, Cell(x, q, key));
        KeyEqIsEquivalence(y, Cell(x, m.value, C.Year), Cell(x, q, C.Year));
        KeyEqIsEquivalence(e, Cell(x, m.value, key), Cell(x, q, key));
        assert false;
      }
    } else if m.Some? {
      ApplyRightKey(x, r, d1, ec, useSourceCodes, m.value);
      PairKeys(y, e, Cell(x, m.value, C.Year), Cell(x, m.value, key));
      assert false;
    }
  }

  /** A label of the caller's frame keeps, in the merge, the caller's cell. */
  lemma ApplyLeftCell(d0: Frame, x: Frame, r: Frame, vc: string, ec: string, yc: string,
                      parseYear: Value -> Value, useSourceCodes: bool, i: nat, c: string)
    requires Plain(d0, vc, ec, yc) && Priceable(x, useSourceCodes) && RateTableOf(x, r)
    requires RatesDistinct(x, EntityKey(useSourceCodes)) && i < |d0.rows| && c in d0.columns
    ensures (ApplyShape(d0, x, r, vc, ec, yc, parseYear, useSourceCodes);
             var d1 := WithYear(d0, yc, parseYear);
             var merged := Merge(d1, r, ApplyJoin(ec, useSourceCodes));
             i < |merged.rows| && c in merged.columns && Cell(merged, i, c) == Cell(d0, i, c))
  {
    ApplyShape(d0, x, r, vc, ec, yc, parseYear, useSourceCodes);
    var d1 := WithYear(d0, yc, parseYear);
    var j := ApplyJoin(ec, useSourceCodes);
    assert c != C.Year by { assert C.Year[..10] == C.Prefix; }
    assert i < |d1.rows| && c in d1.columns && Cell(d1, i, c) == Cell(d0, i, c);
    assert RightKeysDistinct(d1, r, j) by { ApplyKeysDistinct(x, r, d1, ec, useSourceCodes); }
    assert Overlap(d1, r, j) == {};
    LeftJoinLeftCell(d1, r, j, i, c);
  }

  /** The rate the merge puts beside row `i` is the looked-up rate of its year and entity. */
  lemma ApplyRateCell(d0: Frame, x: Frame, r: Frame, vc: string, ec: string, yc: string,
                      parseYear: Value -> Value, useSourceCodes: bool, i: nat)
    requires Plain(d0, vc, ec, yc) && Priceable(x, useSourceCodes) && RateTableOf(x, r)
    requires RatesDistinct(x, EntityKey(useSourceCodes)) && i < |d0.rows|
    ensures (ApplyShape(d0, x, r, vc, ec, yc, parseYear, useSourceCodes);
             var d1 := WithYear(d0, yc, parseYear);
             var merged := Merge(d1, r, ApplyJoin(ec, useSourceCodes));
             && i < |merged.rows| && C.Exchange in merged.columns
             && Cell(merged, i, C.Exchange) ==
                  RateFor(x, EntityKey(useSourceCodes), parseYear(Cell(d0, i, yc)), Cell(d0, i, ec)))
  {
    ApplyShape(d0, x, r, vc, ec, yc, parseYear, useSourceCodes);
    var d1 := WithYear(d0, yc, parseYear);
    var j := ApplyJoin(ec, useSourceCodes);
    ApplyKeysDistinct(x, r, d1, ec, useSourceCodes);
    assert C.Year[..10] == C.Prefix;
    assert ec != C.Year;
    LeftJoinRightCell(d1, r, j, i, C.Exchange);
    ApplyPartner(x, r, d1, ec, useSourceCodes, i);
  }

  /** `exchange` keeps the merged labels that do not carry the prefix, in merge order. */
  lemma ExchangedOnColumns(d1: Frame, r: Frame, vc: string, ec: string, useSourceCodes: bool)
    requires Valid(d1) && Valid(r)
    requires var j := ApplyJoin(ec, useSourceCodes);
             Joinable(d1, r, j) && vc in MergedColumns(d1, r, j) && C.Exchange in MergedColumns(d1, r, j)
    ensures ExchangedOn(d1, r, vc, ec, useSourceCodes).columns ==
              Keep(MergedColumns(d1, r, ApplyJoin(ec, useSourceCodes)), Unprefixed())
  {
    var merged := Merge(d1, r, ApplyJoin(ec, useSourceCodes));
    var a := Assign(merged, vc, RatedValues(merged, vc));
    assert a.columns == merged.columns;
  }

  /** A cell of the `exchange` result is the merged cell, the value column divided by the rate. */
  lemma ExchangedOnCell(d1: Frame, r: Frame, vc: string, ec: string, useSourceCodes: bool, i: nat, c: string)
    requires Valid(d1) && Valid(r)
    requires var j := ApplyJoin(ec, useSourceCodes);
             Joinable(d1, r, j) && vc in MergedColumns(d1, r, j) && C.Exchange in MergedColumns(d1, r, j)
    requires var g := ExchangedOn(d1, r, vc, ec, useSourceCodes); i < |g.rows| && c in g.columns
    ensures var merged := Merge(d1, r, ApplyJoin(ec, useSourceCodes));
            && i < |merged.rows| && c in merged.columns && vc in merged.columns && C.Exchange in merged.columns
            && Cell(ExchangedOn(d1, r, vc, ec, useSourceCodes), i, c) ==
                 if c == vc then Div(Cell(merged, i, vc), Cell(merged, i, C.Exchange)) else Cell(merged, i, c)
  {
  }

  /** Of the caller's labels, the year and the rate table's labels, the caller's are kept. */
  lemma KeepPlain(cols: seq<string>, kept: seq<string>)
    requires forall c :: c in cols ==> !StartsWith(c, C.Prefix)
    requires forall c :: c in kept ==> StartsWith(c, C.Prefix)
    ensures Keep(cols + [C.Year] + kept, Unprefixed()) == cols
  {
    assert C.Year[..10] == C.Prefix;
    KeepAppend(cols + [C.Year], kept, Unprefixed());
    KeepAppend(cols, [C.Year], Unprefixed());
    KeepAll(cols, Unprefixed());
    KeepNone([C.Year], Unprefixed());
    KeepNone(kept, Unprefixed());
  }

  /** The result of `exchange` on plain data has the caller's labels, in the caller's order. */
  lemma ApplyColumns(d0: Frame, x: Frame, r: Frame, vc: string, ec: string, yc: string,
                     parseYear: Value -> Value, useSourceCodes: bool)
    requires Plain(d0, vc, ec, yc) && Priceable(x, useSourceCodes) && RateTableOf(x, r)
    ensures (ApplyShape(d0, x, r, vc, ec, yc, parseYear, useSourceCodes);
             ExchangedOn(WithYear(d0, yc, parseYear), r, vc, ec, useSourceCodes).columns == d0.columns)
  {
    ApplyShape(d0, x, r, vc, ec, yc, parseYear, useSourceCodes);
    var d1 := WithYear(d0, yc, parseYear);
    ExchangedOnColumns(d1, r, vc, ec, useSourceCodes);
    KeepPlain(d0.columns, RightKept(r, ApplyJoin(ec, useSourceCodes)));
  }

  /**
   * Row `i` of `g` is row `i` of `d0` with its value divided by the rate of
   * its year and entity (missing when `x` has no such rate), every other cell
   * as it was.
   */
  predicate RowExchanged(d0: Frame, g: Frame, x: Frame, vc: string, ec: string, yc: string,
                         parseYear: Value -> Value, useSourceCodes: bool, i: nat)
    requires Plain(d0, vc, ec, yc) && Priceable(x, useSourceCodes) && i < |d0.rows|
  {
    && Valid(g) && g.columns == d0.columns && i < |g.rows|
    && Cell(g, i, vc) ==
         Div(Cell(d0, i, vc), RateFor(x, EntityKey(useSourceCodes), parseYear(Cell(d0, i, yc)), Cell(d0, i, ec)))
    && forall c :: c in d0.columns && c != vc ==> Cell(g, i, c) == Cell(d0, i, c)
  }

  /** `g` is `d0` row for row, in order, with the caller's labels, each row exchanged. */
  predicate AllExchanged(d0: Frame, g: Frame, x: Frame, vc: string, ec: string, yc: string,
                         parseYear: Value -> Value, useSourceCodes: bool)
    requires Plain(d0, vc, ec, yc) && Priceable(x, useSourceCodes)
  {
    && Valid(g) && g.columns == d0.columns && |g.rows| == |d0.rows|
    && forall i :: 0 <= i < |d0.rows| ==> RowExchanged(d0, g, x, vc, ec, yc, parseYear, useSourceCodes, i)
  }

  /** Lines 138-154, row by row, against a rate table. */
  lemma ApplyRowOn(d0: Frame, x: Frame, r: Frame, vc: string, ec: string, yc: string,
                   parseYear: Value -> Value, useSourceCodes: bool, i: nat)
    requires Plain(d0, vc, ec, yc) && Priceable(x, useSourceCodes) && RateTableOf(x, r)
    requires RatesDistinct(x, EntityKey(useSourceCodes)) && i < |d0.rows|
    ensures (ApplyShape(d0, x, r, vc, ec, yc, parseYear, useSourceCodes);
             RowExchanged(d0, ExchangedOn(WithYear(d0, yc, parseYear), r, vc, ec, useSourceCodes),
                          x, vc, ec, yc, parseYear, useSourceCodes, i))
  {
    ApplyShape(d0, x, r, vc, ec, yc, parseYear, useSourceCodes);
    ApplyColumns(d0, x, r, vc, ec, yc, parseYear, useSourceCodes);
    var d1 := WithYear(d0, yc, parseYear);
    var g := ExchangedOn(d1, r, vc, ec, useSourceCodes);
    assert i < |g.rows| by {
      ApplyLeftCell(d0, x, r, vc, ec, yc, parseYear, useSourceCodes, i, vc);
    }
    assert Cell(g, i, vc) ==
             Div(Cell(d0, i, vc), RateFor(x, EntityKey(useSourceCodes), parseYear(Cell(d0, i, yc)), Cell(d0, i, ec))) by {
      ApplyLeftCell(d0, x, r, vc, ec, yc, parseYear, useSourceCodes, i, vc);
      ApplyRateCell(d0, x, r, vc, ec, yc, parseYear, useSourceCodes, i);
      ExchangedOnCell(d1, r, vc, ec, useSourceCodes, i, vc);
    }
    forall c | c in d0.columns && c != vc
      ensures Cell(g, i, c) == Cell(d0, i, c)
    {
      ApplyLeftCell(d0, x, r, vc, ec, yc, parseYear, useSourceCodes, i, c);
      ExchangedOnCell(d1, r, vc, ec, useSourceCodes, i, c);
    }
  }

  /** Lines 138-154 on plain data, against a rate table. */
  lemma ApplyRowsOn(d0: Frame, x: Frame, r: Frame, vc: string, ec: string, yc: string,
                    parseYear: Value -> Value, useSourceCodes: bool)
    requires Plain(d0, vc, ec, yc) && Priceable(x, useSourceCodes) && RateTableOf(x, r)
    requires RatesDistinct(x, EntityKey(useSourceCodes))
    ensures (ApplyShape(d0, x, r, vc, ec, yc, parseYear, useSourceCodes);
             AllExchanged(d0, ExchangedOn(WithYear(d0, yc, parseYear), r, vc, ec, useSourceCodes),
                          x, vc, ec, yc, parseYear, useSourceCodes))
  {
    ApplyShape(d0, x, r, vc, ec, yc, parseYear, useSourceCodes);
    ApplyColumns(d0, x, r, vc, ec, yc, parseYear, useSourceCodes);
    var d1 := WithYear(d0, yc, parseYear);
    ApplyKeysDistinct(x, r, d1, ec, useSourceCodes);
    LeftJoinCount(d1, r, ApplyJoin(ec, useSourceCodes));
    forall i | 0 <= i < |d0.rows|
      ensures RowExchanged(d0, ExchangedOn(d1, r, vc, ec, useSourceCodes), x, vc, ec, yc, parseYear, useSourceCodes, i)
    {
      ApplyRowOn(d0, x, r, vc, ec, yc, parseYear, useSourceCodes, i);
    }
  }

  /**
   * `exchange` on data whose labels do not carry the prefix, against a rate
   * table with one row per year and entity: one row per input row, in order,
   * with the caller's labels in the caller's order; the value column divided
   * by the rate of the row's year and entity (missing when the table has no
   * such rate); every other cell unchanged.
   */
  lemma ApplyRows(d0: Frame, x: Frame, vc: string, ec: string, yc: string,
                  parseYear: Value -> Value, useSourceCodes: bool)
    requires Plain(d0, vc, ec, yc) && Priceable(x, useSourceCodes) && RatesDistinct(x, EntityKey(useSourceCodes))
    ensures (FilteredRateTable(x);
             ApplyShape(d0, x, FilterColumns(x, ExchangeCols), vc, ec, yc, parseYear, useSourceCodes);
             AllExchanged(d0, Exchanged(WithYear(d0, yc, parseYear), x, vc, ec, useSourceCodes),
                          x, vc, ec, yc, parseYear, useSourceCodes))
  {
    FilteredRateTable(x);
    ApplyRowsOn(d0, x, FilterColumns(x, ExchangeCols), vc, ec, yc, parseYear, useSourceCodes);
  }

  class Exchange {
    const name: string
    const sourceCurrency: string
    const targetCurrency: string
    const update: bool
    var exchangeData: Frame

    /** The dataclass fields; `exchange_data` starts as an empty frame. */
    constructor (name: string, sourceCurrency: string, targetCurrency: string, update: bool)
      ensures exchangeData == Frame([], [])
      ensures this.name == name && this.sourceCurrency == sourceCurrency && this.targetCurrency == targetCurrency
      ensures this.update == update
    {
      this.name := name;
      this.sourceCurrency := sourceCurrency;
      this.targetCurrency := targetCurrency;
      this.update := update;
      exchangeData := Frame([], []);
    }

    /** `__post_init__`, given the frame `reader(update)` returns. */
    method PostInit(raw: Frame)
      requires Loadable(name, sourceCurrency, targetCurrency, raw)
      modifies this
      ensures exchangeData == Initialized(name, sourceCurrency, targetCurrency, raw)
    {
      InitializedSteps(name, sourceCurrency, targetCurrency, raw);
      var d := Prepared(name, raw);
      if sourceCurrency == targetCurrency {
        d := UnitRates(d);
      }
      assert d == Unified(Prepared(name, raw), sourceCurrency, targetCurrency);
      ghost var f1 := d;
      assert Pivotable(f1, sourceCurrency, targetCurrency);
      if sourceCurrency != C.Lcu {
        d := ConvertExchange(d, sourceCurrency);
      }
      if targetCurrency != C.UsaCode && targetCurrency != C.Lcu {
        d := ConvertExchange(d, targetCurrency);
      }
      assert d == Pivoted(f1, sourceCurrency, targetCurrency);
      if targetCurrency == C.Lcu {
        d := Invert(d);
      }
      exchangeData := d;
    }

    /**
     * `exchange(data, value_column, entity_column, year_column, year_format,
     * use_source_codes)`: `parseYear` reads a cell of `year_column` as
     * `year_format` says. The caller's frame gets the `pydeflate_year` label.
     */
    method Apply(data: Table, vc: string, ec: string, yc: string, parseYear: Value -> Value, useSourceCodes: bool)
      returns (out: Frame)
      requires Valid(data.frame) && yc in data.frame.columns
      requires Exchangeable(WithYear(data.frame, yc, parseYear), exchangeData, vc, ec, useSourceCodes)
      modifies data
      ensures data.frame == WithYear(old(data.frame), yc, parseYear)
      ensures out == Exchanged(data.frame, exchangeData, vc, ec, useSourceCodes)
    {
      data.SetColumn(C.Year, ParsedYears(data.frame, yc, parseYear));
      var merged := Merge(data.frame, FilterColumns(exchangeData, ExchangeCols), ApplyJoin(ec, useSourceCodes));
      merged := Assign(merged, vc, RatedValues(merged, vc));
      out := KeepColumns(merged, Unprefixed());
    }
  }
}
