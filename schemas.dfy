/**
 * The checks of user input and source data: `UserInputSchema.validate`,
 * the schema registry and the skip path of `validate_source_data`. The
 * column checks of the schemas themselves belong to the validation library
 * and enter here as the failure cases it reports.
 */
module Schemas {
  import opened Wrappers
  import opened Strings
  import opened Values
  import opened Frames
  import opened Exceptions
  import C = Constants

  /** A required column: the parameter that names it and the column label it names. */
  datatype Required = Required(parameter: string, column: string)

  /** Lines 218-222, in their order. */
  function RequiredColumns(idColumn: string, yearColumn: string, valueColumn: string): seq<Required> {
    [Required("id_column", idColumn), Required("year_column", yearColumn), Required("value_column", valueColumn)]
  }

  /** `f"{col_name}='{col}'"` */
  function Entry(r: Required): string {
    r.parameter + "='" + r.column + "'"
  }

  /** The entries of the required columns absent from `cols`, in order. */
  function MissingEntries(cols: seq<string>, rs: seq<Required>): (es: seq<string>)
    ensures |es| <= |rs|
    ensures es == [] <==> forall k :: 0 <= k < |rs| ==> rs[k].column in cols
    ensures forall k :: 0 <= k < |rs| && rs[k].column !in cols ==> Entry(rs[k]) in es
    ensures forall e :: e in es ==> exists r :: r in rs && r.column !in cols && e == Entry(r)
  {
    if rs == [] then []
    else
      var last := rs[|rs| - 1];
      var prev := MissingEntries(cols, rs[..|rs| - 1]);
      assert forall k :: 0 <= k < |rs| - 1 ==> rs[..|rs| - 1][k] == rs[k];
      if last.column in cols then prev else prev + [Entry(last)]
  }

  /** `is_numeric_dtype(df[c])`: the column holds no text. */
  predicate NumericColumn(f: Frame, c: string)
    requires Valid(f) && c in f.columns
  {
    forall i :: 0 <= i < |f.rows| ==> !Cell(f, i, c).Text?
  }

  /** The `ConfigurationError` naming every missing column. */
  function MissingColumns(es: seq<string>): Error {
    Configuration("Required columns missing from DataFrame: " + Strings.Join(", ", es), None)
  }

  /** The `SchemaValidationError` of a column holding text (its dtype is then `object`). */
  function NotNumeric(valueColumn: string): (e: Error)
    ensures e.cls == SchemaValidationError && SubclassOf(e.cls, DataSourceError)
  {
    DataSourceKind(SchemaValidationError, "Column '" + valueColumn + "' must be numeric, got object", None)
  }

  /** One more required column adds its entry when it is absent. */
  lemma MissingStep(cols: seq<string>, rs: seq<Required>, k: nat)
    requires k < |rs|
    ensures MissingEntries(cols, rs[..k + 1]) ==
              MissingEntries(cols, rs[..k]) + (if rs[k].column in cols then [] else [Entry(rs[k])])
  {
    assert rs[..k + 1][..k] == rs[..k];
  }

  /** Whether every required column is present, read off the report. */
  lemma {:induction false} NoneMissing(cols: seq<string>, idColumn: string, yearColumn: string, valueColumn: string)
    ensures MissingEntries(cols, RequiredColumns(idColumn, yearColumn, valueColumn)) == [] <==>
              idColumn in cols && yearColumn in cols && valueColumn in cols
  {
    var rs := RequiredColumns(idColumn, yearColumn, valueColumn);
    assert rs[0].column == idColumn && rs[1].column == yearColumn && rs[2].column == valueColumn;
  }

  /**
   * What `UserInputSchema.validate(df, id_column, year_column, value_column)`
   * raises: first one `ConfigurationError` naming every missing column,
   * then a `SchemaValidationError` when the value column holds text.
   */
  function UserInputError(df: Frame, idColumn: string, yearColumn: string, valueColumn: string): (err: Option<Error>)
    requires Valid(df)
    ensures var es := MissingEntries(df.columns, RequiredColumns(idColumn, yearColumn, valueColumn));
            es != [] ==> err == Some(MissingColumns(es))
    ensures err.None? <==>
              idColumn in df.columns && yearColumn in df.columns && valueColumn in df.columns && NumericColumn(df, valueColumn)
    ensures err.Some? && valueColumn in df.columns && idColumn in df.columns && yearColumn in df.columns ==>
              err == Some(NotNumeric(valueColumn))
  {
    var es := MissingEntries(df.columns, RequiredColumns(idColumn, yearColumn, valueColumn));
    NoneMissing(df.columns, idColumn, yearColumn, valueColumn);
    if es != [] then Some(MissingColumns(es))
    else if !NumericColumn(df, valueColumn) then Some(NotNumeric(valueColumn))
    else None
  }

  /** `UserInputSchema.validate`: the loop over the required columns collects the missing ones. */
  method ValidateUserInput(df: Frame, idColumn: string, yearColumn: string, valueColumn: string)
    returns (err: Option<Error>)
    requires Valid(df)
    ensures err == UserInputError(df, idColumn, yearColumn, valueColumn)
  {
    var required := RequiredColumns(idColumn, yearColumn, valueColumn);
    var missing: seq<string> := [];
    for k := 0 to |required|
      invariant missing == MissingEntries(df.columns, required[..k])
    {
      MissingStep(df.columns, required, k);
      if required[k].column !in df.columns {
        missing := missing + [Entry(required[k])];
      }
    }
    assert required[..|required|] == required;
    NoneMissing(df.columns, idColumn, yearColumn, valueColumn);
    if missing != [] {
      return Some(MissingColumns(missing));
    }
    if !NumericColumn(df, valueColumn) {
      return Some(NotNumeric(valueColumn));
    }
    return None;
  }

  /** Each absent column is named in the report by its parameter and its label, once. */
  lemma MissingNamed(cols: seq<string>, idColumn: string, yearColumn: string, valueColumn: string)
    ensures var es := MissingEntries(cols, RequiredColumns(idColumn, yearColumn, valueColumn));
            && (idColumn !in cols ==> Entry(Required("id_column", idColumn)) in es)
            && (yearColumn !in cols ==> Entry(Required("year_column", yearColumn)) in es)
            && (valueColumn !in cols ==> Entry(Required("value_column", valueColumn)) in es)
            && |es| == (if idColumn in cols then 0 else 1) + (if yearColumn in cols then 0 else 1) + (if valueColumn in cols then 0 else 1)
  {
    var rs := RequiredColumns(idColumn, yearColumn, valueColumn);
    assert rs[..2][..1] == rs[..1] && rs[..1][..0] == [];
    assert rs[..3] == rs && rs[..2] == rs[..3][..2];
    assert rs[0].column == idColumn && rs[1].column == yearColumn && rs[2].column == valueColumn;
  }

  /* ---------------------------------------------------------- SCHEMA_REGISTRY */

  datatype Schema = ImfDataSchema | WorldBankDataSchema | DacDataSchema

  /** Lines 248-252. */
  const Registry: map<string, Schema> := map["IMF" := ImfDataSchema, C.WorldBank := WorldBankDataSchema, C.Dac := DacDataSchema]

  /** `get_schema_for_source(name)` */
  function SchemaFor(name: string): (s: Option<Schema>)
    ensures s.Some? <==> name in Registry
    ensures s.Some? ==> s.value == Registry[name]
  {
    if name in Registry then Some(Registry[name]) else None
  }

  /** Only the three registered sources have a schema, each its own. */
  lemma KnownSchemas(name: string)
    ensures SchemaFor(name).Some? <==> name == "IMF" || name == "World Bank" || name == "DAC"
    ensures SchemaFor("IMF") != SchemaFor("World Bank") && SchemaFor("World Bank") != SchemaFor("DAC")
    ensures SchemaFor("IMF") != SchemaFor("DAC")
  {
  }

  /** A failure the validation library reports: the check and the failing value. */
  datatype Failure = Failure(check: string, failureCase: string)

  function FailureLines(fs: seq<Failure>): (ls: seq<string>)
    ensures |ls| == |fs|
    ensures forall k :: 0 <= k < |fs| ==> ls[k] == "  - " + fs[k].check + ": " + fs[k].failureCase
  {
    if fs == [] then [] else ["  - " + fs[0].check + ": " + fs[0].failureCase] + FailureLines(fs[1..])
  }

  /**
   * `validate_source_data(df, name)`, where `failures(s)` is what
   * validating against schema `s` would report: no schema means no check;
   * reported failures become one `SchemaValidationError` naming the source.
   */
  function ValidateSourceData(name: string, failures: Schema -> seq<Failure>): (e: Option<Error>)
    ensures SchemaFor(name).None? ==> e.None?
    ensures e.Some? <==> SchemaFor(name).Some? && failures(SchemaFor(name).value) != []
    ensures e.Some? ==>
              && e.value.cls == SchemaValidationError
              && e.value.message == DataSource("Data validation failed for " + name + ":\n" +
                                               Strings.Join("\n", FailureLines(failures(SchemaFor(name).value))), Some(name)).message
  {
    match SchemaFor(name)
    case None => None
    case Some(schema) =>
      var fs := failures(schema);
      if fs == [] then None
      else Some(DataSourceKind(SchemaValidationError, "Data validation failed for " + name + ":\n" + Strings.Join("\n", FailureLines(fs)), Some(name)))
  }
}
