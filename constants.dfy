/**
 * Column names and currency codes shared by the core (`PydeflateColumns`,
 * `CurrencyCodes`, `DataSources`), and the evaluation of the alias table in
 * the body of `CurrencyCodes`.
 */
module Constants {
  import opened Wrappers
  import opened Strings
  import opened Exceptions

  const Prefix: string := "pydeflate_"

  const Year: string := "pydeflate_year"
  const EntityCode: string := "pydeflate_entity_code"
  const Iso3: string := "pydeflate_iso3"
  const Exchange: string := "pydeflate_EXCHANGE"
  const ExchangeD: string := "pydeflate_EXCHANGE_D"

  /** `PydeflateColumns.STANDARD_INDEX`, the `_idx` of every source. */
  const StandardIndex: seq<string> := [Year, EntityCode, Iso3]

  /** `PydeflateColumns.deflator_column(kind)` */
  function DeflatorColumn(kind: string): (c: string)
    ensures StartsWith(c, Prefix)
    ensures StartsWith(kind, Prefix) ==> c == kind
    ensures !StartsWith(kind, Prefix) ==> c == Prefix + kind && c[|Prefix|..] == kind
  {
    AddPrefix(Prefix, kind)
  }

  lemma DeflatorColumnIdempotent(kind: string)
    ensures DeflatorColumn(DeflatorColumn(kind)) == DeflatorColumn(kind)
  {
  }

  /** Data source names (`DataSources`). */
  const WorldBank: string := "World Bank"
  const Dac: string := "DAC"

  /** The special currency codes. */
  const Lcu: string := "LCU"
  const Ppp: string := "PPP"
  const UsaCode: string := "USA"
  const EurDac: string := "EUI"

  /** An expression in the class body: a string literal or a name to look up. */
  datatype Expr = Lit(s: string) | Name(n: string)

  /** The names bound in the body of `CurrencyCodes` before `COMMON_ALIASES`, in order. */
  const ClassScope: map<string, string> := map[
    "USD" := "USA", "EUR" := "EUR", "EUR_DAC" := "EUI", "GBP" := "GBR", "JPY" := "JPN", "CAD" := "CAN",
    "LCU" := "LCU", "PPP" := "PPP", "DAC" := "DAC"]

  /** Evaluates a dict display left to right: an unbound name raises `NameError`. */
  function EvalDict(entries: seq<(string, Expr)>, scope: map<string, string>): (r: Outcome<map<string, string>>)
    ensures r.Ok? <==> forall k :: 0 <= k < |entries| && entries[k].1.Name? ==> entries[k].1.n in scope
    ensures r.Ok? ==> forall k :: 0 <= k < |entries| ==> entries[k].0 in r.value
    ensures r.Fail? ==> r.error.cls == NameError
  {
    if entries == [] then Ok(map[])
    else
      var (key, e) := entries[0];
      if e.Name? && e.n !in scope then Fail(Error(NameError, "name '" + e.n + "' is not defined"))
      else
        var v := if e.Lit? then e.s else scope[e.n];
        match EvalDict(entries[1..], scope)
        case Ok(rest) =>
          assert forall k :: 1 <= k < |entries| ==> entries[k] == entries[1..][k - 1];
          Ok(rest[key := if key in rest then rest[key] else v])
        case Fail(err) =>
          assert entries[1..][0] == entries[1];
          Fail(err)
  }

  /**
   * `COMMON_ALIASES` as written: it names `USA`, `GBR`, `JPN` and `CAN`,
   * which are values of the class attributes, not attributes themselves.
   */
  const AliasesAsWritten: seq<(string, Expr)> := [
    ("USD", Name("USA")), ("EUR", Name("EUR")), ("GBP", Name("GBR")), ("JPY", Name("JPN")), ("CAD", Name("CAN"))]

  /** `COMMON_ALIASES` as evidently intended: each alias names the attribute of its own code. */
  const AliasesIntended: seq<(string, Expr)> := [
    ("USD", Name("USD")), ("EUR", Name("EUR")), ("GBP", Name("GBP")), ("JPY", Name("JPY")), ("CAD", Name("CAD"))]

  /** Evaluating the class body as written raises `NameError` on its first entry. */
  lemma AliasesAsWrittenRaise()
    ensures EvalDict(AliasesAsWritten, ClassScope) == Fail(Error(NameError, "name 'USA' is not defined"))
  {
    var msg := "name '" + "USA" + "' is not defined";
    assert msg == "name 'USA' is not defined" by {}
    assert "USA" !in ClassScope by {}
    assert EvalDict(AliasesAsWritten, ClassScope) == Fail(Error(NameError, msg)) by {
      assert AliasesAsWritten[0] == ("USD", Name("USA"));
    }
  }

  /** The intended table maps USD, EUR, GBP, JPY and CAD to USA, EUR, GBR, JPN and CAN. */
  lemma AliasesIntendedTable()
    ensures EvalDict(AliasesIntended, ClassScope) == Ok(CommonAliases)
  {
    var a := AliasesIntended;
    assert EvalDict(a[4..], ClassScope) == Ok(map["CAD" := "CAN"]);
    assert EvalDict(a[3..], ClassScope) == Ok(map["CAD" := "CAN", "JPY" := "JPN"]);
    assert EvalDict(a[2..], ClassScope) == Ok(map["CAD" := "CAN", "JPY" := "JPN", "GBP" := "GBR"]);
    var rest := map["CAD" := "CAN", "JPY" := "JPN", "GBP" := "GBR", "EUR" := "EUR"];
    assert EvalDict(a[1..], ClassScope) == Ok(rest);
    assert "USD" !in rest;
    assert rest["USD" := "USA"] == CommonAliases;
  }

  const CommonAliases: map<string, string> := map[
    "USD" := "USA", "EUR" := "EUR", "GBP" := "GBR", "JPY" := "JPN", "CAD" := "CAN"]

  /** `CurrencyCodes.resolve(code, source)`, on the intended alias table. */
  function Resolve(code: string, source: Option<string>): (r: string)
    ensures code == "EUR" && source == Some(Dac) ==> r == EurDac
    ensures !(code == "EUR" && source == Some(Dac)) && code in CommonAliases ==> r == CommonAliases[code]
    ensures !(code == "EUR" && source == Some(Dac)) && code !in CommonAliases ==> r == code
  {
    if code == "EUR" && source == Some(Dac) then EurDac
    else if code in CommonAliases then CommonAliases[code]
    else code
  }

  /** A resolved code resolves to itself. */
  lemma ResolveIdempotent(code: string, source: Option<string>)
    ensures Resolve(Resolve(code, source), source) == Resolve(code, source)
  {
  }

  /** Resolution changes exactly the aliases whose target differs from them, and DAC's euro. */
  lemma ResolveChanges(code: string, source: Option<string>)
    ensures Resolve(code, source) != code <==>
              (code == "EUR" && source == Some(Dac)) || (code in CommonAliases && CommonAliases[code] != code)
  {
  }
}
