/**
 * The `Source` base class of the data sources: it loads a source's table
 * through its reader, checks that the table is usable, and serves the
 * exchange-rate and price-deflator columns from it.
 */
module Sources {
  import opened Wrappers
  import opened Strings
  import opened Frames
  import opened Exceptions
  import C = Constants

  /** The index columns every source table carries (`Source._idx`). */
  const Idx: seq<string> := C.StandardIndex

  /** Whether the text `p` occurs nowhere in `s`. */
  predicate Free(s: string, p: string)
    requires |p| > 0
    decreases |s|
  {
    |s| < |p| || (s[..|p|] != p && Free(s[1..], p))
  }

  /** Removing a text that does not occur changes nothing. */
  lemma {:induction false} ReplaceAllFree(s: string, p: string)
    requires |p| > 0 && Free(s, p)
    ensures ReplaceAll(s, p, "") == s
    decreases |s|
  {
    if |s| >= |p| {
      ReplaceAllFree(s[1..], p);
      assert [s[0]] + s[1..] == s;
    }
  }

  /** `("pydeflate_" + k).replace("pydeflate_", "")` is `k` when `k` does not repeat the prefix. */
  lemma StripPrefix(k: string)
    requires Free(k, C.Prefix)
    ensures ReplaceAll(C.Prefix + k, C.Prefix, "") == k
  {
    var s := C.Prefix + k;
    assert s[..|C.Prefix|] == C.Prefix && s[|C.Prefix|..] == k;
    ReplaceAllFree(k, C.Prefix);
  }

  /** Lines 49-51: the columns lacking the `pydeflate_` prefix, in order. */
  function InvalidColumns(cols: seq<string>): (r: seq<string>)
    ensures forall c :: c in r <==> c in cols && !StartsWith(c, C.Prefix)
  {
    Keep(cols, c => !StartsWith(c, C.Prefix))
  }

  /**
   * `validate()` on the table of source `name`: `DataSourceError` when the
   * table is empty or when some column lacks the prefix, naming those
   * columns. The schema check behind `PYDEFLATE_ENABLE_VALIDATION` only
   * logs its failures, so it never changes the outcome.
   */
  function Validation(name: string, f: Frame): (e: Option<Error>)
    ensures e.None? <==> !Empty(f) && forall c :: c in f.columns ==> StartsWith(c, C.Prefix)
    ensures e.Some? ==> e.value.cls == DataSourceError && SubclassOf(e.value.cls, PydeflateError)
    ensures Empty(f) ==> e == Some(DataSource("No data found", Some(name)))
    ensures !Empty(f) && e.Some? ==>
              e == Some(DataSource("Invalid column names (must start with 'pydeflate_'): " + ListRepr(InvalidColumns(f.columns)), Some(name)))
  {
    if Empty(f) then Some(DataSource("No data found", Some(name)))
    else
      var invalid := InvalidColumns(f.columns);
      if invalid != [] then
        assert invalid[0] in invalid;
        Some(DataSource("Invalid column names (must start with 'pydeflate_'): " + ListRepr(invalid), Some(name)))
      else
        None
  }

  /** Lines 109-113: the kinds the message offers, one per prefixed non-index column. */
  function AvailableKinds(cols: seq<string>): (ks: seq<string>)
    ensures |ks| <= |cols|
    ensures forall c :: c in cols && StartsWith(c, C.Prefix) && c !in Idx ==> ReplaceAll(c, C.Prefix, "") in ks
    ensures forall k :: k in ks ==> exists c :: c in cols && StartsWith(c, C.Prefix) && c !in Idx && k == ReplaceAll(c, C.Prefix, "")
  {
    if cols == [] then []
    else
      var rest := AvailableKinds(cols[1..]);
      if StartsWith(cols[0], C.Prefix) && cols[0] !in Idx then [ReplaceAll(cols[0], C.Prefix, "")] + rest else rest
  }

  /** The column `price_deflator(kind)` serves. */
  function KindColumn(kind: string): (c: string)
    ensures StartsWith(c, C.Prefix)
  {
    C.Prefix + kind
  }

  /** The message of the `ConfigurationError` for an unknown kind. */
  function UnknownKind(name: string, kind: string, cols: seq<string>): Error {
    Configuration("Deflator '" + kind + "' not available for " + name + ". Available deflators: " + Strings.Join(", ", AvailableKinds(cols)),
                  Some("kind"))
  }

  /** A kind whose column is present and outside the index is offered by its own name. */
  lemma KindOffered(cols: seq<string>, kind: string)
    requires KindColumn(kind) in cols && KindColumn(kind) !in Idx && Free(kind, C.Prefix)
    ensures kind in AvailableKinds(cols)
  {
    StripPrefix(kind);
  }

  /** The data of a source, once `__post_init__` has loaded it. */
  class Source {
    const name: string
    const update: bool
    var data: Frame

    /** The dataclass fields; `data` starts as an empty frame. */
    constructor (name: string, update: bool)
      ensures this.name == name && this.update == update && data == Frame([], [])
    {
      this.name := name;
      this.update := update;
      data := Frame([], []);
    }

    /**
     * `__post_init__`: `read` is what `self.reader(self.update)` gives (its
     * exception when it raises). A reader failure becomes a
     * `DataSourceError` naming the source; a loaded table is then validated.
     */
    method PostInit(read: Outcome<Frame>) returns (err: Option<Error>)
      modifies this
      ensures read.Fail? ==> data == old(data) && err == Some(DataSource("Failed to load data: " + read.error.message, Some(name)))
      ensures read.Ok? ==> data == read.value && err == Validation(name, read.value)
    {
      if read.Fail? {
        return Some(DataSource("Failed to load data: " + read.error.message, Some(name)));
      }
      data := read.value;
      err := Validate();
    }

    /** `validate()` */
    function Validate(): (e: Option<Error>)
      reads this
      ensures e.None? <==> !Empty(data) && forall c :: c in data.columns ==> StartsWith(c, C.Prefix)
      ensures e.Some? ==> e.value.cls == DataSourceError
    {
      Validation(name, data)
    }

    /**
     * `lcu_usd_exchange()`: `DataSourceError` without an exchange column;
     * otherwise the index columns and the exchange column, every row kept.
     */
    function LcuUsdExchange(): (r: Outcome<Frame>)
      reads this
      requires Valid(data)
      ensures r.Fail? <==> C.Exchange !in data.columns
      ensures r.Fail? ==> r.error == DataSource("Exchange rate data (pydeflate_EXCHANGE) not available", Some(name))
      ensures r.Ok? ==> Valid(r.value) && |r.value.rows| == |data.rows|
      ensures r.Ok? ==> C.Exchange in r.value.columns &&
                        forall c :: c in r.value.columns <==> c in data.columns && (c in Idx || c == C.Exchange)
      ensures r.Ok? ==> r.value.columns == Keep(Idx, Present(data.columns)) + [C.Exchange]
      ensures r.Ok? ==> forall i, c :: 0 <= i < |data.rows| && c in r.value.columns ==> Cell(r.value, i, c) == Cell(data, i, c)
    {
      if C.Exchange !in data.columns then Fail(DataSource("Exchange rate data (pydeflate_EXCHANGE) not available", Some(name)))
      else
        KeepSnoc(Idx, C.Exchange, Present(data.columns));
        Ok(FilterColumns(data, Idx + [C.Exchange]))
    }

    /**
     * `price_deflator(kind)`: `ConfigurationError` listing the offered kinds
     * when the kind's column is absent; otherwise the index columns and that
     * column, every row kept.
     */
    function PriceDeflator(kind: string): (r: Outcome<Frame>)
      reads this
      requires Valid(data)
      ensures r.Fail? <==> KindColumn(kind) !in data.columns
      ensures r.Fail? ==> r.error == UnknownKind(name, kind, data.columns) && r.error.cls == ConfigurationError
      ensures r.Ok? ==> Valid(r.value) && |r.value.rows| == |data.rows|
      ensures r.Ok? ==> KindColumn(kind) in r.value.columns &&
                        forall c :: c in r.value.columns <==> c in data.columns && (c in Idx || c == KindColumn(kind))
      ensures r.Ok? ==> r.value.columns == Keep(Idx, Present(data.columns)) + [KindColumn(kind)]
      ensures r.Ok? ==> forall i, c :: 0 <= i < |data.rows| && c in r.value.columns ==> Cell(r.value, i, c) == Cell(data, i, c)
    {
      var column := KindColumn(kind);
      if column !in data.columns then Fail(UnknownKind(name, kind, data.columns))
      else
        KeepSnoc(Idx, column, Present(data.columns));
        Ok(FilterColumns(data, Idx + [column]))
    }
  }
}
