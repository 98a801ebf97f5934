# pydeflate in Dafny

A model of the computation engine of pydeflate, a library that deflates and
converts economic series. The model covers:

- rebasing a deflator series so the base year reads 100;
- moving exchange rates from one reference currency to another;
- the reference tables the sources build: the exchange-rate deflator, the
  `pydeflate_` prefix, DAC totals, the World Bank euro-area fill and PPP rows;
- the join of the caller's data with a reference table and the split into
  matched and unmatched rows;
- the objects that hold state:
  - the source registry;
  - the cache manifest;
  - the default-context slot;
- error messages and the exception hierarchy;
- input checks;
- the legacy exchange classes of the first package.

Modules follow the repository's files. One module per core file:

| module | file |
|---|---|
| `Deflators` | `src/pydeflate/core/deflator.py` |
| `Exchanges` | `pydeflate/core/exchange.py` |
| `Sources` | `src/pydeflate/core/source.py` |
| `Utils` | `src/pydeflate/utils.py` |
| `Common` | `src/pydeflate/sources/common.py` |
| `Dac` | `src/pydeflate/sources/dac.py` |
| `WorldBank` | `src/pydeflate/sources/world_bank.py` |
| `Plugins` | `src/pydeflate/plugins.py` |
| `Cache` | `src/pydeflate/cache.py` |
| `Contexts` | `src/pydeflate/context.py` |
| `Constants` | `src/pydeflate/constants.py` |
| `Exceptions` | `src/pydeflate/exceptions.py` |
| `Schemas` | `src/pydeflate/schemas.py` |
| `LegacyExchange` | `pydeflate/get_data/exchange_data.py` |

They share six base modules:

- `Wrappers`: `Option`.
- `Strings`: prefixes, suffixes, `join`, `replace` and `str` of an integer.
- `Ordering`: a strict total order and sorting by insertion.
- `Values`: a table cell.
  - It is missing (NaN, `None` or `NA`), an integer, an exact real, a signed infinity or text.
  - Arithmetic follows numpy's rules: division by zero gives an infinity, and 0/0 gives a missing value.
  - Rounding is half-to-even.
- `Frames`: a pandas `DataFrame` as labels plus rows of cells, and the operations used on it (`merge` in its left, inner and outer forms), plus a mutable `Table` for in-place updates.
- `Exceptions`: each pydeflate exception as its class and its `str()`.

What is in the source is modelled as follows:

- A function that only computes is a Dafny `function` with a named result. Lemmas state what it promises.
- A method that changes its object is a `method` on a `class` that has the same fields. Its `ensures` ties the new state to a specification function.
- In-place updates of a caller's `DataFrame` are methods on a `Table`.
- An explicit `raise` is an `Outcome` or `Option` result that carries the exception's class and message.
- A `KeyError` that pandas raises on a missing column is a precondition.
- Readers, downloads, file access, the clock and the fuzzy country lookup are parameters.

## Model

| member | source | states |
|---|---|---|
| Deflators.EnsureDeflatorSuffix | src/pydeflate/core/deflator.py:73-76 | the result ends in `_D`; a label already ending in `_D` is kept, any other gains the suffix |
| Deflators.EnsureDeflatorSuffixIdempotent | src/pydeflate/core/deflator.py:73-76 | adding the suffix twice is adding it once |
| Deflators.IndexLabelsLackSuffix | src/pydeflate/core/deflator.py:114-121 | a suffixed label is never an index label nor `base_year_value`, so the rebased column collides with neither |
| Deflators.ValueColumn | src/pydeflate/core/deflator.py:78-86 | succeeds exactly when one label lies outside the index, and returns it; otherwise "Invalid deflator data format." |
| Deflators.SingleNonIndex | src/pydeflate/core/deflator.py:81-84 | `columns.difference(_idx)` has length one exactly when a single label, possibly repeated, lies outside the index |
| Deflators.ExtractBaseYearValues | src/pydeflate/core/deflator.py:59-71 | raises "No data found for base year Y." exactly when no row has the base year; otherwise the base-year rows with the value relabelled `base_year_value` and the year dropped |
| Deflators.BaseRowsExist | src/pydeflate/core/deflator.py:63-70 | the base table is empty exactly when no data row has the base year |
| Deflators.BaseFrameCells | src/pydeflate/core/deflator.py:63-67 | the q-th base row holds the cells of the q-th base-year row of the data, value under `base_year_value` |
| Deflators.RebaseDeflator | src/pydeflate/core/deflator.py:88-124 | the three errors in order (empty data, invalid format, no base-year row), and success exactly when none applies |
| Deflators.RebasePartner | src/pydeflate/core/deflator.py:107-112 | a data row meets a base row in the left merge exactly when its entity has a base-year row, and takes that row's value |
| Deflators.RebaseDeflatorRows | src/pydeflate/core/deflator.py:107-124 | with one base-year row per entity, every row is kept in order, other labels keep their cells, and the deflator column holds `round(100 v / v_base, 6)` of the row's entity |
| Deflators.BaseYearIsHundred | src/pydeflate/core/deflator.py:88-91 | every base-year row with a non-zero value rebases to exactly 100 |
| Deflators.ReferenceRebaseAtBase | src/pydeflate/core/deflator.py:119-121 | the rebase of a base-year row over its own value is 100 |
| Deflators.Initialization | src/pydeflate/core/deflator.py:26-57 | "price" without a kind, "exchange" with one, and any other type each raise their ValueError; otherwise the fetched series rebased, and a failing fetch passes its error on |
| Deflators.Deflator.constructor | src/pydeflate/core/deflator.py:11-24 | the dataclass fields, `source` among them by name, with `deflator_data` an empty frame |
| Deflators.Deflator.PostInit | src/pydeflate/core/deflator.py:26-57 | the deflator data becomes what `Initialization` gives, and the error is reported; after a failed rebase the data is the fetched frame, and after an earlier error it is unchanged; in the exchange branch `source` becomes the exchange's own source, and otherwise it is unchanged |
| Deflators.Deflator.RebaseInPlace | src/pydeflate/core/deflator.py:88-124 | `deflator_data` becomes `RebaseDeflator` of the old data, or stays as it was when that fails |
| Exchanges.PrefixedReadLabels | pydeflate/core/exchange.py:36-40 | each read label lands at its place under its prefixed name |
| Exchanges.Loaded | pydeflate/core/exchange.py:31-40 | the reader's frame reduced to the five read labels it has, in its order, each prefixed |
| Exchanges.EmuToEur | pydeflate/core/exchange.py:42-46 | every ISO3 `EMU` becomes `EUR`, every other cell is kept |
| Exchanges.EmuToEurIdempotent | pydeflate/core/exchange.py:43-46 | the euro-code fix applied twice is the fix applied once |
| Exchanges.UnitRates | pydeflate/core/exchange.py:48-51 | both rate columns become 1 on every row, other cells kept |
| Exchanges.Invert | pydeflate/core/exchange.py:65-69 | each rate becomes its reciprocal, other cells kept |
| Exchanges.ReciprocalTwice | pydeflate/core/exchange.py:66-69 | `1 / (1 / v)` is `v` for every finite number, zero included |
| Exchanges.InvertTwice | pydeflate/core/exchange.py:66-69 | inverting twice gives back every finite rate and every other label |
| Exchanges.ConvertExchange | pydeflate/core/exchange.py:71-98 | the inner merge with the currency's rates by year, each rate divided by that year's rate, the helper column dropped |
| Exchanges.ConvertFrom | pydeflate/core/exchange.py:82-96 | every result row comes from a data row whose rate is divided by a same-year rate of the currency; its other labels keep that row's cells |
| Exchanges.ConvertRows | pydeflate/core/exchange.py:82-96 | with one rate per year, exactly the rows whose year has a rate of the currency are kept, in order, each divided by that rate; other years are dropped |
| Exchanges.ConvertSelf | pydeflate/core/exchange.py:85-96 | after the pivot every row of the currency itself has rate 1 when its rate is a non-zero number |
| Exchanges.CurrencyRowsKept | pydeflate/core/exchange.py:85-90 | no row of the currency itself is dropped by the inner merge |
| Exchanges.Prepared | pydeflate/core/exchange.py:31-46 | the loaded frame, with `EMU` read as `EUR` for the World Bank only |
| Exchanges.Unified | pydeflate/core/exchange.py:48-51 | unit rates exactly when source and target agree |
| Exchanges.Pivoted | pydeflate/core/exchange.py:53-63 | the pivot to a non-LCU source, then the pivot to a target other than USA and LCU |
| Exchanges.InitializedSteps | pydeflate/core/exchange.py:29-69 | each step of `__post_init__` finds the labels the next one reads |
| Exchanges.Initialized | pydeflate/core/exchange.py:29-69 | the table `__post_init__` leaves: prepared, unified, pivoted, then inverted for an LCU target |
| Exchanges.InitializedNoEmu | pydeflate/core/exchange.py:42-69 | for the World Bank the final table never holds the ISO3 code `EMU` |
| Exchanges.InitializedSameCurrency | pydeflate/core/exchange.py:48-69 | when source and target agree every rate of the final table is 1 |
| Exchanges.InitializedToTarget | pydeflate/core/exchange.py:59-63 | from LCU to a target other than USD, the rows of years with a target rate are kept in order, each divided by it |
| Exchanges.InitializedToLcu | pydeflate/core/exchange.py:53-69 | from a currency to LCU, each kept rate is the reciprocal of the pivoted one |
| Exchanges.ParsedYears | pydeflate/core/exchange.py:124-127 | the `pydeflate_year` cells are the years read from the year column, row by row |
| Exchanges.Exchanged | pydeflate/core/exchange.py:129-154 | the left merge on year and entity key, the value divided by the rate, the prefixed labels dropped |
| Exchanges.ApplyShape | pydeflate/core/exchange.py:137-146 | the year is the one shared key label, no label overlaps, and the merge has the caller's labels, the year, then the rate labels |
| Exchanges.ApplyPartner | pydeflate/core/exchange.py:137-146 | a row finds a rate row exactly when one has its year and entity, and then the first such row |
| Exchanges.ApplyColumns | pydeflate/core/exchange.py:153-154 | the result has the caller's labels in the caller's order, and none carries the prefix |
| Exchanges.ApplyRows | pydeflate/core/exchange.py:137-154 | one row per input row, in order; the value is divided by the matching rate, missing when there is none; other cells are kept |
| Exchanges.Exchange.constructor | pydeflate/core/exchange.py:22-27 | the dataclass fields, with an empty `exchange_data` |
| Exchanges.Exchange.PostInit | pydeflate/core/exchange.py:29-69 | `exchange_data` becomes `Initialized` of the reader's frame |
| Exchanges.Exchange.Apply | pydeflate/core/exchange.py:100-154 | the caller's frame gains `pydeflate_year` in place, and the result is `Exchanged` of it |
| Sources.StripPrefix | src/pydeflate/core/source.py:110 | removing the prefix from a prefixed kind gives the kind back when the kind does not repeat it |
| Sources.InvalidColumns | src/pydeflate/core/source.py:49-51 | exactly the labels lacking the prefix |
| Sources.Validation | src/pydeflate/core/source.py:38-77 | no error exactly when the table is non-empty and every label is prefixed; "No data found" or the list of invalid labels otherwise, naming the source |
| Sources.AvailableKinds | src/pydeflate/core/source.py:109-113 | exactly the unprefixed names of the prefixed non-index labels |
| Sources.KindOffered | src/pydeflate/core/source.py:107-113 | a kind whose column is present outside the index is offered under its own name |
| Sources.Source.constructor | src/pydeflate/core/source.py:20-24 | the dataclass fields, with empty data |
| Sources.Source.PostInit | src/pydeflate/core/source.py:26-36 | a reader failure becomes "Failed to load data: …" naming the source, with data unchanged; otherwise the data is stored and validated |
| Sources.Source.Validate | src/pydeflate/core/source.py:38-56 | the validation of the stored data |
| Sources.Source.LcuUsdExchange | src/pydeflate/core/source.py:79-93 | fails exactly without an exchange column; otherwise the present index columns in index order, then the exchange column, every row and cell kept |
| Sources.Source.PriceDeflator | src/pydeflate/core/source.py:95-120 | a ConfigurationError listing the offered kinds exactly when the kind's column is absent; otherwise the present index columns in index order, then that column, every row and cell kept |
| Utils.NumberChars | src/pydeflate/utils.py:31 | keeps exactly the ASCII digits and dots, in order |
| Utils.NumberCharsIdempotent | src/pydeflate/utils.py:31 | cleaning twice is cleaning once |
| Utils.NumberCharsConcat | src/pydeflate/utils.py:31 | cleaning distributes over concatenation |
| Utils.CleanNumber | src/pydeflate/utils.py:24-36 | NaN when nothing is left after cleaning, otherwise `float` of the cleaned text |
| Utils.CleanNumberNoDigits | src/pydeflate/utils.py:33-34 | a text without digits or dots gives NaN |
| Utils.CleanNumberClean | src/pydeflate/utils.py:31-36 | a text that is already clean is read as it is |
| Utils.CreatePydeflateYear | src/pydeflate/utils.py:39-51 | a copy with `pydeflate_year` read in the given format, ISO 8601 by default; the other columns keep their cells |
| Utils.CreatePydeflateYearTwice | src/pydeflate/utils.py:45-51 | building the year column twice is building it once |
| Utils.ValueOrderIsStrictTotalOrder | src/pydeflate/utils.py:148 | the order `sorted` uses on cells is a strict total order |
| Utils.MissingEntitiesCorrect | src/pydeflate/utils.py:144-150 | the groups are the distinct present entities, each once, increasing |
| Utils.MissingYearsCorrect | src/pydeflate/utils.py:144-150 | an entity's listed years are its distinct years, each once, increasing |
| Utils.FlagMissing | src/pydeflate/utils.py:135-160 | nothing is logged for an empty frame; otherwise the heading chosen by `using_implied`, then one line per entity |
| Utils.FlagMissingLists | src/pydeflate/utils.py:141-160 | the log lists each distinct entity, increasing, with its distinct years, increasing, joined by ", " |
| Utils.GetUnmatched | src/pydeflate/utils.py:117-122 | exactly the `left_only` rows in order, without labels starting `pydeflate_` or ending `_pydeflate` |
| Utils.GetMatched | src/pydeflate/utils.py:125-132 | exactly the rows that are not `right_only`, in order, without `_merge` |
| Utils.UnmatchedWithinMatched | src/pydeflate/utils.py:117-132 | every unmatched row is also a matched row |
| Utils.ImpliedDac | src/pydeflate/utils.py:64-70 | keys outside the reference keys become 20001 or "DAC", other cells kept |
| Utils.ImpliedDacKeys | src/pydeflate/utils.py:64-70 | afterwards every key is a reference key or the DAC code |
| Utils.ImpliedDacIdempotent | src/pydeflate/utils.py:64-70 | a second substitution changes nothing |
| Utils.UseImpliedDacRates | src/pydeflate/utils.py:54-82 | the caller's frame is substituted in place, and the logged message lists its entities that lack a reference key |
| Utils.UnkeyedRowsSame | src/pydeflate/utils.py:65-80 | the substitution does not change which rows are reported |
| Utils.Prepared | src/pydeflate/utils.py:94-103 | the caller's frame with `temp_<entity>` copied from the entity, then substituted when `dac` is set |
| Utils.MergedUser | src/pydeflate/utils.py:105-114 | the outer merge with indicator, without the key column |
| Utils.MergeUserAndPydeflateData | src/pydeflate/utils.py:85-114 | the caller's frame gains the key column in place, and the result is `MergedUser` of it |
| Utils.UserMergeTags | src/pydeflate/utils.py:105-112 | every merged row is tagged `both`, `left_only` or `right_only`, and the caller's rows come first, none of them `right_only` |
| Utils.MergedUserTags | src/pydeflate/utils.py:105-114 | the same tags survive the drop of the key column |
| Utils.MergedUserColumns | src/pydeflate/utils.py:105-114 | the key column never reaches the result, and every other caller column does under its own label |
| Utils.MatchedKeepsCallerRows | src/pydeflate/utils.py:105-132 | the matched split keeps at least one row for every caller row |
| Utils.MatchedAtLeast | src/pydeflate/utils.py:125-132 | the matched rows are at least the rows that are not `right_only` |
| Common.ConvertId | src/pydeflate/sources/common.py:48-84 | the identity between equal types; otherwise the additional mapping, else the fuzzy match, else `not_found`, else the value itself |
| Common.ConvertIdConsistent | src/pydeflate/sources/common.py:78-84 | equal values convert alike wherever they stand |
| Common.ConvertIdAdditionalWins | src/pydeflate/sources/common.py:42-45 | the additional mapping overrides the fuzzy match whatever that match says |
| Common.Iso3Added | src/pydeflate/sources/common.py:87-117 | the frame gains `pydeflate_iso3`, keeping every row and every other cell |
| Common.Iso3AddedCell | src/pydeflate/sources/common.py:101-116 | a row's ISO3 is the hand-made name when one exists, else the fuzzy match, else `fillna` |
| Common.AddPydeflateIso3 | src/pydeflate/sources/common.py:87-117 | assigns that column on the caller's frame in place |
| Common.Prefixed | src/pydeflate/sources/common.py:120-135 | every label carries the prefix afterwards; prefixed labels are kept and the others gain it; the rows are unchanged |
| Common.PrefixedIdempotent | src/pydeflate/sources/common.py:132-134 | prefixing twice is prefixing once |
| Common.PrefixPydeflateToColumns | src/pydeflate/sources/common.py:120-135 | relabels the caller's frame in place as `Prefixed` says |
| Common.FirstHundredFrom | src/pydeflate/sources/common.py:150 | the first row from a position whose measure rounds to 100 |
| Common.IdentifyBaseYear | src/pydeflate/sources/common.py:138-153 | the year of the first row whose measure rounds to 100 at two decimals, `None` exactly when there is none |
| Common.CutLastUnderscoreAppend | src/pydeflate/sources/common.py:217 | cutting `a + "_" + t` at its last underscore gives `a` when `t` has none |
| Common.DeflatorName | src/pydeflate/sources/common.py:215-221 | `_to` or `_from` dropped from the exchange name, then `_D` |
| Common.DeflatorNameOf | src/pydeflate/sources/common.py:215-221 | `X_to` and `X_from` give `X_D`, and another name gets `_D` appended |
| Common.DeflatorNameExchange | src/pydeflate/sources/common.py:159-221 | the default exchange column gives `EXCHANGE_D` |
| Common.LatestYear | src/pydeflate/sources/common.py:190-192 | the latest year among the rows with a rate, `None` when no row has one |
| Common.GroupBase | src/pydeflate/sources/common.py:187-206 | the base value: the rate of the first base-year row, `None` for no base year, no such row or a missing rate |
| Common.ComputeDeflatorForGroup | src/pydeflate/sources/common.py:179-210 | the group unchanged without a base value; otherwise its deflator column holds `round(100 rate / base, 6)` |
| Common.GroupBaseRowIsHundred | src/pydeflate/sources/common.py:198-208 | the base-year row of a group with a non-zero rate gets 100 |
| Common.MeasureBaseYear | src/pydeflate/sources/common.py:188-189 | with a measure the base year is `identify_base_year` on the group |
| Common.LatestBaseYear | src/pydeflate/sources/common.py:190-192 | without a measure the base year is the latest year with a rate |
| Common.GroupKeys | src/pydeflate/sources/common.py:226 | the distinct keys of the rows in order of first appearance |
| Common.Processed | src/pydeflate/sources/common.py:225-234 | one processed group per key, in `groupby` order |
| Common.ProcessedGroups | src/pydeflate/sources/common.py:226 | the groups are distinct and disjoint |
| Common.Assemble | src/pydeflate/sources/common.py:236-241 | the grouped rows in their original order, with the deflator column added when some group has one |
| Common.ComputeExchangeDeflator | src/pydeflate/sources/common.py:156-243 | the loop over the groups yields the promised frame: each row's deflator cell comes from its own group's base value |
| Common.CollectCells | src/pydeflate/sources/common.py:225-234 | the loop over the groups collects, by row label, the rebased rates of each group that has a base value |
| Common.DeflatorOfGroup | src/pydeflate/sources/common.py:226-234 | a row's group has a base value exactly when the processed groups give it one |
| Common.ExchangeDeflatorFails | src/pydeflate/sources/common.py:237 | `concat` of no groups raises ValueError, which happens exactly when no row has a full group key |
| Common.ExchangeDeflatorRows | src/pydeflate/sources/common.py:156-243 | the result keeps the grouped rows in order, each with its group's rebased rate |
| Dac.KeepOfficialDefinitionOnly | src/pydeflate/sources/dac.py:26-33 | the rows of the official definition, in order |
| Dac.OfficialRowsKept | src/pydeflate/sources/dac.py:29-33 | a row is kept exactly when it is (1010, 1140) before 2018 or (11010, 1160) from 2018 on, and no row is both; a row's position is among the kept positions exactly when it is official |
| Dac.KeptRowsOfficial | src/pydeflate/sources/dac.py:29-33 | every kept row is an official one, and the kept rows are the rows at the official positions, once each and in increasing position order |
| Dac.ExchangeCellSelf | src/pydeflate/sources/dac.py:59 | an amount over itself gives rate 1 whatever the amount, a missing result included |
| Dac.ComputeExchange | src/pydeflate/sources/dac.py:53-60 | the caller's frame becomes `Exchanged` of itself, in place |
| Dac.ExchangedCells | src/pydeflate/sources/dac.py:56-59 | each rate is `round(N / A, 6)`, with an aggregate's `N` read as its `A` and a missing rate read as 1; aggregates always get 1; other columns are kept |
| Dac.ComputeDacDeflator | src/pydeflate/sources/dac.py:63-67 | assigns `round(100 A / D, 6)` on every row in place |
| Dac.DacDeflatorValues | src/pydeflate/sources/dac.py:66 | where current and constant amounts agree the deflator is 100; a missing amount gives a missing deflator |
| Dac.HundredTimesOverOther | src/pydeflate/sources/dac.py:66 | `100 a / d` is 100 when `d` equals `a`, integer and float alike |
| Dac.ComputeDacGdpDeflator | src/pydeflate/sources/dac.py:70-74 | assigns `round(EXCHANGE_D / 100 × DAC_DEFLATOR, 5)` on every row in place |
| Dac.GdpDeflatorValues | src/pydeflate/sources/dac.py:73 | at an exchange deflator of 100 the GDP deflator is the DAC deflator at five decimals; a missing input gives a missing result |
| Dac.BaseYearGdpDeflator | src/pydeflate/sources/dac.py:66-73 | a row whose amounts agree and whose exchange deflator is 100 gets 100 |
| WorldBank.RenamedCode | src/pydeflate/sources/world_bank.py:89 | never `EMU`; reads `EUR` exactly when the code was either euro code; other codes kept |
| WorldBank.Renamed | src/pydeflate/sources/world_bank.py:89 | every `EMU` code becomes `EUR`, every other cell kept |
| WorldBank.RenamedRates | src/pydeflate/sources/world_bank.py:89-98 | looking up `EUR` after the renaming is looking up either euro code before it |
| WorldBank.LastRate | src/pydeflate/sources/world_bank.py:93-98 | the last euro row of the year with a rate, as `to_dict` keeps the last of a repeated year |
| WorldBank.RateFor | src/pydeflate/sources/world_bank.py:104 | `eur.get(year)`: missing exactly when no euro row of that year has a rate |
| WorldBank.EurRates | src/pydeflate/sources/world_bank.py:104 | each row's year mapped through the euro dictionary |
| WorldBank.MemberMask | src/pydeflate/sources/world_bank.py:101 | exactly the euro-area members without a rate |
| WorldBank.EurFixed | src/pydeflate/sources/world_bank.py:88-106 | the rename, then the masked assignment of the euro rates |
| WorldBank.EurSeriesFix | src/pydeflate/sources/world_bank.py:75-106 | the caller's frame becomes `EurFixed` of itself, in place |
| WorldBank.EurFixedCells | src/pydeflate/sources/world_bank.py:89-104 | `EMU` reads `EUR`; a member without a rate takes its year's euro rate (missing when there is none); every other cell is kept |
| WorldBank.EuroRateFound | src/pydeflate/sources/world_bank.py:93-98 | a euro rate that is found is the rate of a euro row of that year |
| WorldBank.EurFixedIdempotent | src/pydeflate/sources/world_bank.py:75-106 | fixing a fixed table changes no cell |
| WorldBank.UsaRows | src/pydeflate/sources/world_bank.py:149 | the United States rows, in order |
| WorldBank.Relabelled | src/pydeflate/sources/world_bank.py:150 | code, name and iso3 read "PPP" on every copied row |
| WorldBank.AddPppExchange | src/pydeflate/sources/world_bank.py:138-151 | the table's rows first, unchanged, then the copies |
| WorldBank.PppRows | src/pydeflate/sources/world_bank.py:149-151 | one added row per United States row, in order: that row with "PPP" as code, name and iso3 and every other cell copied |
| WorldBank.AddedCells | src/pydeflate/sources/world_bank.py:150-151 | every cell of every added row is the relabelled copy's |
| Plugins.Registration | src/pydeflate/plugins.py:48-92 | fails exactly without a class or factory, on a taken name without override, or on a non-conforming class, each with a PluginError; otherwise the name is registered in the dictionaries given |
| Plugins.Removal | src/pydeflate/plugins.py:176-192 | fails exactly for an unregistered name; otherwise the name leaves both dictionaries and every other entry stays |
| Plugins.RegisterUnregister | src/pydeflate/plugins.py:48-192 | registering a new name, then removing it, gives back the registry |
| Plugins.RegisterKeepsOthers | src/pydeflate/plugins.py:83-91 | registration leaves every other name's entries alone |
| Plugins.Lookup | src/pydeflate/plugins.py:131-151 | the factory first, then the class, `None` exactly for an unregistered name |
| Plugins.NameLtIsStrictTotalOrder | src/pydeflate/plugins.py:163 | the order `sorted` uses on names is a strict total order |
| Plugins.SourceRegistry.constructor | src/pydeflate/plugins.py:43-46 | both dictionaries start empty |
| Plugins.SourceRegistry.CheckProtocolConformance | src/pydeflate/plugins.py:94-116 | true exactly when every required method exists and is callable |
| Plugins.SourceRegistry.Register | src/pydeflate/plugins.py:48-92 | the registry becomes what `Registration` gives, or stays unchanged and reports its error |
| Plugins.SourceRegistry.ListSources | src/pydeflate/plugins.py:156-163 | strictly sorted, and holding exactly the registered names |
| Plugins.SourceRegistry.Get | src/pydeflate/plugins.py:118-154 | the looked-up provider when its call succeeds; "Factory function failed" or "Source instantiation failed" with the exception's text when it raises; for an unknown name, the PluginError "Source '<name>' not found. Available sources: " followed by the sorted list of registered names |
| Plugins.SourceRegistry.Unregister | src/pydeflate/plugins.py:176-192 | the registry becomes what `Removal` gives, or stays unchanged and reports its error |
| Cache.LoadManifest | src/pydeflate/cache.py:117-123 | a missing or undecodable file loads as an empty manifest, a decodable one as its content |
| Cache.Fetched | src/pydeflate/cache.py:70-76 | the record written after fetching holds the fetch time, the entry's version and the file name |
| Cache.FetchedFreshness | src/pydeflate/cache.py:107-114 | a freshly written record is stale exactly once its time to live has passed |
| Cache.VersionMismatchStale | src/pydeflate/cache.py:108-110 | a pinned version the record lacks always makes it stale |
| Cache.CacheManager.constructor | src/pydeflate/cache.py:44-49 | the manager starts with the manifest found on disk |
| Cache.CacheManager.Ensure | src/pydeflate/cache.py:52-79 | a fresh present copy is returned untouched unless refreshing; otherwise the fetcher runs, and on success the record is written and saved; a failing fetch leaves the manifest unchanged |
| Cache.CacheManager.SaveManifest | src/pydeflate/cache.py:126-128 | the file written holds the manifest |
| Cache.CacheManager.ClearKey | src/pydeflate/cache.py:100-104 | drops that record and its file; other records and files stay |
| Cache.CacheManager.ClearAll | src/pydeflate/cache.py:96-99 | drops every record and every recorded file |
| Cache.ReloadSaved | src/pydeflate/cache.py:117-128 | a manager built on what another saved sees the same manifest |
| Contexts.MergedConfig | src/pydeflate/context.py:196-197 | the default's configuration updated by the override: the union of keys, the override winning |
| Contexts.MergedConfigEmpty | src/pydeflate/context.py:196-197 | an empty override changes nothing |
| Contexts.ContextSlot.constructor | src/pydeflate/context.py:96-99 | the slot starts empty |
| Contexts.ContextSlot.Create | src/pydeflate/context.py:64-93 | a new context with the resolved data directory, or TypeError when a configuration key repeats a parameter; the slot is untouched |
| Contexts.ContextSlot.GetDefault | src/pydeflate/context.py:102-112 | creates the default once, then keeps returning it |
| Contexts.ContextSlot.SetDefault | src/pydeflate/context.py:115-121 | the slot holds the given context |
| Contexts.ContextSlot.SessionEnter | src/pydeflate/context.py:151-164 | the new context becomes the default, and the previous slot content is kept for the exit |
| Contexts.ContextSlot.SessionExit | src/pydeflate/context.py:165-170 | the previous default comes back, or the slot is emptied when there was none |
| Contexts.ContextSlot.TemporaryEnter | src/pydeflate/context.py:193-209 | a context taking every field it does not override from the current default becomes the default; with no default yet, that default is first created with the standard settings; each created context takes the next identity |
| Contexts.ContextSlot.TemporaryExit | src/pydeflate/context.py:210-211 | the previous default comes back |
| Constants.DeflatorColumn | src/pydeflate/constants.py:33-44 | the kind with `pydeflate_` in front, added only when the kind does not already start with it |
| Constants.DeflatorColumnIdempotent | src/pydeflate/constants.py:33-44 | the prefix is never added twice |
| Constants.EvalDict | src/pydeflate/constants.py:64-70 | a dict display evaluates left to right, and an unbound name raises NameError |
| Constants.AliasesAsWrittenRaise | src/pydeflate/constants.py:64-70 | evaluating the class body as written raises NameError |
| Constants.AliasesIntendedTable | src/pydeflate/constants.py:47-70 | the intended table maps USD, EUR, GBP, JPY and CAD to USA, EUR, GBR, JPN and CAN |
| Constants.Resolve | src/pydeflate/constants.py:73-88 | DAC's `EUR` is `EUI`; otherwise the alias's code, or the code itself |
| Constants.ResolveIdempotent | src/pydeflate/constants.py:73-88 | a resolved code resolves to itself |
| Constants.ResolveChanges | src/pydeflate/constants.py:73-88 | resolution changes exactly the aliases whose target differs, and DAC's euro |
| Exceptions.HierarchyRoots | src/pydeflate/exceptions.py:11-166 | a class derives from `PydeflateError` exactly when it is a pydeflate exception |
| Exceptions.SourceErrorsAreDataSourceErrors | src/pydeflate/exceptions.py:21-76 | network and schema errors are data-source errors; cache, configuration, missing-data and plugin errors are not |
| Exceptions.SubclassOfTransitive | src/pydeflate/exceptions.py:11-166 | the subclass relation is transitive |
| Exceptions.SubclassOfDepth | src/pydeflate/exceptions.py:11-166 | a strict superclass sits higher in the hierarchy |
| Exceptions.SubclassOfAntisymmetric | src/pydeflate/exceptions.py:11-166 | two classes each a subclass of the other are the same |
| Exceptions.Decorate | src/pydeflate/exceptions.py:35 | the head is prepended exactly when the attribute is truthy, and the message always ends the text |
| Exceptions.DecorateStrips | src/pydeflate/exceptions.py:35 | the undecorated message is the tail of the decorated one |
| Exceptions.DataSource | src/pydeflate/exceptions.py:27-35 | "[source] message" for a truthy source, else the message |
| Exceptions.DataSourceKind | src/pydeflate/exceptions.py:47-73 | a subclass keeps the data-source message format |
| Exceptions.Cache | src/pydeflate/exceptions.py:85-95 | exactly "Cache error at path: message" (its head, its tail and its length) for a truthy path, else the message |
| Exceptions.Configuration | src/pydeflate/exceptions.py:108-120 | exactly "Invalid configuration for 'parameter': message" (its head, its tail and its length) for a truthy parameter, else the message |
| Exceptions.Plugin | src/pydeflate/exceptions.py:156-166 | exactly "Plugin 'name' error: message" (its head, its tail and its length) for a truthy name, else the message |
| Exceptions.MissingData | src/pydeflate/exceptions.py:132-144 | the message is kept as given |
| Schemas.MissingEntries | src/pydeflate/schemas.py:218-230 | empty exactly when every required column is present; an entry for each absent column and only for those |
| Schemas.NotNumeric | src/pydeflate/schemas.py:233-236 | a SchemaValidationError, which is a data-source error |
| Schemas.MissingStep | src/pydeflate/schemas.py:224-227 | one more column adds its entry exactly when it is absent |
| Schemas.NoneMissing | src/pydeflate/schemas.py:227 | nothing is missing exactly when the three columns are present |
| Schemas.UserInputError | src/pydeflate/schemas.py:196-244 | the missing-columns error first; then the non-numeric error; `None` exactly when all columns are present and the value column is numeric |
| Schemas.ValidateUserInput | src/pydeflate/schemas.py:196-244 | the loop over the required columns raises what `UserInputError` says |
| Schemas.MissingNamed | src/pydeflate/schemas.py:218-230 | each absent column is named once by its parameter and label, and the count of entries is the count of absent columns |
| Schemas.SchemaFor | src/pydeflate/schemas.py:255-264 | a schema exactly for a registered name, and the registered one |
| Schemas.KnownSchemas | src/pydeflate/schemas.py:248-252 | only IMF, World Bank and DAC have a schema, each a different one |
| Schemas.FailureLines | src/pydeflate/schemas.py:290-292 | one "  - check: case" line per reported failure |
| Schemas.ValidateSourceData | src/pydeflate/schemas.py:267-297 | no check without a schema; an error exactly when failures are reported, a SchemaValidationError naming the source with one line per failure |
| LegacyExchange.LeftMerge | pydeflate/get_data/exchange_data.py:12-22 | a left merge followed by the value operation: left order, then the matches in right order, a missing value when there is none |
| LegacyExchange.LeftMergeOneToOne | pydeflate/get_data/exchange_data.py:14-19 | when no left row has two matches the left rows are kept one for one |
| LegacyExchange.AtMostOneMatch | pydeflate/get_data/exchange_data.py:14-19 | distinct right keys give each left row at most one match |
| LegacyExchange.ExchangeRatio | pydeflate/get_data/exchange_data.py:12-22 | the source value over the target value, by year and currency |
| LegacyExchange.ExchangeRatioRows | pydeflate/get_data/exchange_data.py:12-22 | with one target row per key, every source row stays in order with its ratio to the target's value, missing when the target has none |
| LegacyExchange.RatioPartner | pydeflate/get_data/exchange_data.py:14-20 | the divisor is the target's value with the same year and currency |
| LegacyExchange.BaseRows | pydeflate/get_data/exchange_data.py:27 | exactly the rows dated in the base year |
| LegacyExchange.CalculateDeflator | pydeflate/get_data/exchange_data.py:25-39 | ValueError "No currency exchange data for base_year=Y" exactly without base-year rows; otherwise each value rebased to its currency's base-year value |
| LegacyExchange.DeflatorRows | pydeflate/get_data/exchange_data.py:34-37 | with one base-year row per currency every row stays in order, and a non-zero base value rebases to exactly 100 |
| LegacyExchange.CurrencyRows | pydeflate/get_data/exchange_data.py:88 | exactly the currency's rows |
| LegacyExchange.ExchangeRate | pydeflate/get_data/exchange_data.py:74-99 | ValueError naming the currency exactly when it has no rows; otherwise each rate divided by the currency's same-year rate |
| LegacyExchange.ExchangeRateRows | pydeflate/get_data/exchange_data.py:95-99 | with one rate per year every rate stays in order, and the currency's own non-zero rates become exactly 1 |
| LegacyExchange.Inverted | pydeflate/get_data/exchange_data.py:216 | each value becomes its reciprocal, other fields kept |
| LegacyExchange.Directed | pydeflate/get_data/exchange_data.py:211-220 | as stored for "lcu_usd", inverted for "usd_lcu", ValueError for any other direction |
| LegacyExchange.DirectionsReciprocal | pydeflate/get_data/exchange_data.py:212-217 | inverting "usd_lcu" gives back every finite "lcu_usd" rate |
| LegacyExchange.ExchangeOecd.constructor | pydeflate/get_data/exchange_data.py:51-52 | no data loaded yet |
| LegacyExchange.ExchangeOecd.UsdExchangeRate | pydeflate/get_data/exchange_data.py:191-220 | loads once, keeps the table, then returns `Directed` of it |
| LegacyExchange.MethodError | pydeflate/get_data/exchange_data.py:235-238 | no error exactly for "yearly_average" and "effective_exchange"; otherwise that ValueError |
| LegacyExchange.MethodIndicator | pydeflate/get_data/exchange_data.py:247-250 | the indicator code each method reads |
| LegacyExchange.EmuRate | pydeflate/get_data/exchange_data.py:298 | the last EMU rate of the year that has a value |
| LegacyExchange.EmuFilled | pydeflate/get_data/exchange_data.py:298-304 | members without a rate take their year's EMU rate, other rows kept |
| LegacyExchange.EmuRateFound | pydeflate/get_data/exchange_data.py:298 | a found EMU rate is the value of an EMU row of that year |
| LegacyExchange.ExchangeWorldBank.constructor | pydeflate/get_data/exchange_data.py:232-238 | a valid method and no data loaded yet |
| LegacyExchange.ExchangeWorldBank.UsdExchangeRate | pydeflate/get_data/exchange_data.py:274-313 | the direction is checked before loading, and a bad direction leaves the data alone; otherwise `Directed` of the euro-filled copy, with the stored table unchanged |

## Left out

- Network, downloads, file I/O, file locks and the parquet, CSV, JSON and feather readers. These are I/O. Readers and fetchers are parameters that give a frame, a failure or a file-exists flag.
- Logging. Where a message is logged, the model returns it (`Utils.FlagMissing`). Otherwise the logging is dropped.
- Concurrency. The thread-local context slot is one mutable field (`Contexts.ContextSlot`), and the World Bank's parallel downloader is left out.
- Floating point. Cells hold exact reals, and `round` is half-to-even on reals. Rounding errors, signed zero and dtypes are not modelled.
- Dtypes in general. A numeric column is one without text cells (`Schemas.NumericColumn`), and its dtype reads `object` in the message.
- A missing column, which raises `KeyError` in pandas, is a precondition. It is modelled only where the source raises its own error.
- The fuzzy country match (`_match_regex_to_iso3` through the hdx library) is a parameter function, and so is date parsing (`pd.to_datetime`). This is foreign code.
- The members of the euro area (`emu()`) come from a settings file, so they are a parameter.
- Pandera's schema classes and their column checks. The failures they report are a parameter of `Schemas.ValidateSourceData`.
- The `to_datetime` step of `UserInputSchema.validate` (lines 238-244) is left out. It coerces, so it never raises.
- Duplicate column labels. A lookup reads the first column with that label.
- Schemas.UserInputError: does not model pandas dtypes; "numeric" means "holds no text".
- Common.ComputeExchangeDeflator: the order after `concat` and `sort_index` is modelled as the grouped rows in their original order. That is the order `sort_index` gives only when the row labels increase with position, as the range index that the DAC and World Bank readers pass does (dac.py:93-99, world_bank.py:161-164).
- Utils.MergedUser: pandas sorts the keys of an outer merge. The model keeps the left order, then the rows found only on the right.
- Deflators.Deflator.PostInit: the exchange branch requires the `source` field to hold an exchange. A `Source` there has no `deflator()` and no `source`, so Python raises `AttributeError`, which is not modelled. The fetched frames are parameters, and `source` is modelled by name only (`Deflators.Provider`).
- Strings.Repr: a text is quoted as `'` + text + `'`. Python's `repr` chooses double quotes for a text holding `'` and escapes backslashes and non-printable characters; that is not modelled, so the messages of Sources.InvalidColumns, Sources.Validation and LegacyExchange.ExchangeRate are exact only for texts without those characters.
- Utils.NumberChars: a digit is an ASCII `0`-`9`. Python's `\d` also keeps every other Unicode decimal digit, and no Unicode table is modelled.
- Utils.CleanNumber: inherits the ASCII-only digits, so a text whose only digits are non-ASCII gives NaN, where Python reads a number from it.
- Utils.Mergeable: requires that neither frame has a `_merge` column. With `indicator=True` pandas raises `ValueError` for such a frame, and that error is not modelled.
- Values.ValueLt: ranks values of different kinds (missing, numbers, text) so that sorting is total. Python's `sorted` raises `TypeError` on a mix of numbers and text, and that error is not modelled.
- Values.Show: a float that is not a whole number prints as its floor followed by `...` (so -2.5 prints as `-3...`). Python's shortest round-trip digits of a float are not modelled.
- Cache.CacheManager.Ensure: a record counts as present when it exists. Python's truthiness of an empty record is not modelled.
- LegacyExchange.ExchangeWorldBank.constructor: requires a valid method. The rejection itself is `LegacyExchange.MethodError`.
- LegacyExchange.ExchangeOecd.UsdExchangeRate: the retry of `load_data` and its `FileNotFoundError` are file I/O. The loaded table is a parameter.
- LegacyExchange.CalculateDeflator: a row's date is modelled by its year, so `year.dt.year` is the year field. The same abstraction carries LegacyExchange.ExchangeRatio (the merge on the `year` date, pydeflate/get_data/exchange_data.py:17), LegacyExchange.ExchangeRate (the merge by year, line 96) and LegacyExchange.EmuRate and LegacyExchange.EmuFilled (the per-year EMU rate, lines 298-304).
- `Exchange.exchange_deflator` (pydeflate/get_data/exchange_data.py:101-155) is left out. It composes `exchange_rate` and `_calculate_deflator`, which are modelled.
- `ExchangeIMF` (pydeflate/get_data/exchange_data.py:317-365) is left out. Its IMF reader is outside the modelled files.
- DAC pipeline helpers are left out: `_to_units`, `_keep_useful_columns`, `_pivot_amount_type`, `_rename_columns`, `_download_dac` and `read_dac`. They are relabelling, pivots and I/O around the modelled steps.
- The World Bank PPP step requires the entity and iso3 columns. Python would create them.
- A kind whose own name contains `pydeflate_`. `str.replace` removes every occurrence of the prefix, and the model does the same. Because of that, the lemma that a present kind is offered under its own name needs a kind without the prefix inside it.
- The source subclasses (`IMF`, `WorldBank`, `DAC` and so on) are left out. Each one only binds a name and a reader.
- `enforce_pyarrow_types` only converts dtypes, so the model treats it as the identity.
- `register_source`, `get_source`, `list_sources` and `is_source_registered` at the module level are left out. Each forwards to the one global `SourceRegistry`, which is modelled.

## Findings

| source | as written | input that shows it | evidently intended | confidence | as-written member | corrected member |
|---|---|---|---|---|---|---|
| src/pydeflate/constants.py:64-70 | `COMMON_ALIASES` names `USA`, `GBR`, `JPN` and `CAN` inside the class body, where they are not bound | importing `pydeflate.constants` evaluates the dict display and raises `NameError` at `USA` | a table from the common currency codes to the members `CurrencyCodes.USD`, `EUR`, `GBP`, `JPY` and `CAD`, whose values are `"USA"`, `"EUR"`, `"GBR"`, `"JPN"` and `"CAN"` | not executed | Constants.AliasesAsWrittenRaise | Constants.AliasesIntendedTable |
