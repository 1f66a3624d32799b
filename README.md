# Expectation grid — a Dafny model

This project models the expectation grid of `Expectations.kt`. A reporting
contract (`Expectations`) gives inclusive `years` and `ages` ranges, an
optional birth-cohort window (`CohortRestriction`), an ordered list of
countries and an ordered list of outcome names. From it the code

* filters cells by birth year `year - age` against the cohort window
  (`withinCohortRange`, modelled by `Models.WithinCohortRange`);
* enumerates the expected `(year, age, country)` keys, ages ascending, then
  countries in list order, then years ascending (`expectedRows`, modelled by
  `RowEnumerator.ExpectedRows` with one recursive function per loop level);
* turns every key into an empty central or stochastic template row
  (`expectedCentralRows`, `expectedStochasticRows`, `mapCentralRow`,
  `mapStochasticRow`, `outcomesMap`; module `RowMaterializer`);
* builds a nested presence lookup country id → age → year → `false`
  (`expectedRowLookup`, the method `CoverageLookup.ExpectedRowLookup`, three
  nested `while` loops, one method per loop level), queried by `isMissing`, `hasMissingYear`,
  `hasMissingAges`, `firstMissingYear` and `firstAgeWithMissingRows`.

Files: `models.dfy` (records, `toShort`, the cohort filter),
`row_enumerator.dfy`, `row_materializer.dfy`, `coverage_lookup.dfy`,
`scenario.dfy` (a worked example).

The predicates `CoverageLookup.IsMissing`, `HasMissingYear` and
`HasMissingAges` are the Kotlin `!value` and `any { … }` expressions written
as Dafny quantifiers; what they mean on a freshly built lookup is stated by the
`Fresh…` lemmas below. The Kotlin extension functions take map entries; the
model passes the entry's value, the only part they read.

The model follows the code, which:

* does not validate the contract (no error for inverted ranges,
  `minimumBirthYear > maximumBirthYear` or duplicate country ids): an
  inverted range is simply empty, and a repeated country id overwrites its
  earlier entry in the lookup with an identical age map;
* has no operation that marks a cell present; callers write `true`
  into the nested map, which the model writes as a map update
  (`Scenario.ExampleLookup`);
* makes `firstMissingYear` / `firstAgeWithMissingRows` take `keys.first()` of a
  `HashMap`, i.e. some key in unspecified order, not the numerically least.

## Model

| member | source | states |
|---|---|---|
| `Models.ToShort` | src/main/kotlin/org/vaccineimpact/api/models/Expectations.kt:58-59 | `toShort()` keeps the value modulo 2^16 and is the identity on values that fit in a `Short` |
| `Models.WithinCohortRange` | src/main/kotlin/org/vaccineimpact/api/models/Expectations.kt:22-26 | defines the cohort filter: a birth year passes iff the minimum is null or not above it, and the maximum is null or not below it |
| `Models.Admits` | src/main/kotlin/org/vaccineimpact/api/models/Expectations.kt:42 | defines the filter applied to a cell: its birth year `year - age` passes `WithinCohortRange` |
| `RowEnumerator.CohortYearsSpec` | src/main/kotlin/org/vaccineimpact/api/models/Expectations.kt:41-42 | `CohortYears`, the filtered years for one age, are exactly the years of the range whose birth year passes the cohort filter, strictly ascending |
| `RowEnumerator.ExpectedRows` | src/main/kotlin/org/vaccineimpact/api/models/Expectations.kt:36-47 | defines the enumeration as three nested recursions: ages ascending, then countries in list order, then the filtered years ascending |
| `RowEnumerator.ExpectedRowsMembership` | src/main/kotlin/org/vaccineimpact/api/models/Expectations.kt:36-47 | a key is enumerated iff its age is in `ages`, its country in `countries`, its year in `years` and `year - age` passes the cohort filter |
| `RowEnumerator.ExpectedRowsOrdered` | src/main/kotlin/org/vaccineimpact/api/models/Expectations.kt:36-47 | with distinct countries the keys are strictly ordered by age, then country position in the list, then year; no key appears twice |
| `RowEnumerator.ExpectedRowsSize` | src/main/kotlin/org/vaccineimpact/api/models/Expectations.kt:36-47 | the number of keys is the sum over ages of `|countries|` times the number of years passing the cohort filter for that age |
| `RowEnumerator.ExpectedRowsAgesAscending` | src/main/kotlin/org/vaccineimpact/api/models/Expectations.kt:36-47 | for any country list, repetitions included, the ages of the enumerated keys never decrease |
| `RowEnumerator.InvertedWindowGivesNoRows` | src/main/kotlin/org/vaccineimpact/api/models/Expectations.kt:22-47 | a cohort window whose minimum is above its maximum (accepted unvalidated) admits no birth year, so no key is enumerated |
| `RowEnumerator.EmptyDimensionGivesNoRows` | src/main/kotlin/org/vaccineimpact/api/models/Expectations.kt:37-43 | an empty `ages`, `years` or `countries` gives no keys |
| `RowMaterializer.OutcomesMap` | src/main/kotlin/org/vaccineimpact/api/models/Expectations.kt:66 | the outcome map's key set is exactly the set of outcome names (duplicates collapse) and every value is null |
| `RowMaterializer.MapCentralRow` | src/main/kotlin/org/vaccineimpact/api/models/Expectations.kt:68-71 | reading year, age, country id and country name back from the central row gives the key it was made from; disease as given, null cohort size, all-null outcome map over the outcome names |
| `RowMaterializer.MapStochasticRow` | src/main/kotlin/org/vaccineimpact/api/models/Expectations.kt:73-76 | as for central rows, and the run id is null |
| `RowMaterializer.ExpectedCentralRows` | src/main/kotlin/org/vaccineimpact/api/models/Expectations.kt:30-31 | one template row per enumerated key, same length, row `i` stands for key `i` |
| `RowMaterializer.ExpectedStochasticRows` | src/main/kotlin/org/vaccineimpact/api/models/Expectations.kt:33-34 | one stochastic template row per enumerated key, row `i` stands for key `i`, run id null |
| `RowMaterializer.CentralRowsCoverGrid` | src/main/kotlin/org/vaccineimpact/api/models/Expectations.kt:30-47 | a key is the key of some central template row iff it is a cell of the grid |
| `RowMaterializer.StochasticRowsCoverGrid` | src/main/kotlin/org/vaccineimpact/api/models/Expectations.kt:33-47 | a key is the key of some stochastic template row iff it is a cell of the grid |
| `CoverageLookup.BuildYearLookup` | src/main/kotlin/org/vaccineimpact/api/models/Expectations.kt:57-58 | the year loop leaves a `false` flag at exactly the years of `years` whose birth year passes the cohort filter |
| `CoverageLookup.BuildAgeLookup` | src/main/kotlin/org/vaccineimpact/api/models/Expectations.kt:54-60 | the age loop maps every age of `ages`, and nothing else, to that age's year map |
| `CoverageLookup.ExpectedRowLookup` | src/main/kotlin/org/vaccineimpact/api/models/Expectations.kt:49-64 | the nested loops build the lookup that gives every country id the map from each age of `ages` to a `false` flag per year passing the cohort filter |
| `CoverageLookup.LookupMatchesRows` | src/main/kotlin/org/vaccineimpact/api/models/Expectations.kt:49-64 | a flag exists at (country id, age, year) iff the enumeration yields a key with that country id, age and year; every flag is `false` |
| `CoverageLookup.LookupHasEveryAge` | src/main/kotlin/org/vaccineimpact/api/models/Expectations.kt:54-61 | every age of `ages` has an entry under every country, even when its year map is empty |
| `CoverageLookup.IsMissing` | src/main/kotlin/org/vaccineimpact/api/models/Expectations.kt:117-120 | defines a cell as missing while its flag is `false` |
| `CoverageLookup.HasMissingYear` | src/main/kotlin/org/vaccineimpact/api/models/Expectations.kt:122-125 | defines an age as having a missing year iff some year of its year map is missing |
| `CoverageLookup.HasMissingAges` | src/main/kotlin/org/vaccineimpact/api/models/Expectations.kt:127-130 | defines a country as having missing ages iff some age of its age map has a missing year |
| `CoverageLookup.FirstMissingYear` | src/main/kotlin/org/vaccineimpact/api/models/Expectations.kt:136-138 | given some missing year, returns a year key whose flag is `false` (the least such) |
| `CoverageLookup.FirstAgeWithMissingRows` | src/main/kotlin/org/vaccineimpact/api/models/Expectations.kt:132-134 | given some age with a missing year, returns such an age (the least such) |
| `CoverageLookup.FreshHasMissingYear` | src/main/kotlin/org/vaccineimpact/api/models/Expectations.kt:122-125 | on a fresh lookup an age has a missing year iff its year map is non-empty, iff some year passes the cohort filter for that age |
| `CoverageLookup.FreshHasMissingAges` | src/main/kotlin/org/vaccineimpact/api/models/Expectations.kt:127-130 | on a fresh lookup a country has missing ages iff the enumeration yields a key for that country id |
| `CoverageLookup.FreshFirstMissingYear` | src/main/kotlin/org/vaccineimpact/api/models/Expectations.kt:136-138 | on a fresh lookup the first missing year of an age is the first year the enumeration yields for it (for the least-key choice) |
| `CoverageLookup.FreshFirstAgeWithMissingRows` | src/main/kotlin/org/vaccineimpact/api/models/Expectations.kt:132-134 | on a fresh lookup the first age with missing rows is the age of the first enumerated key (for the least-key choice) |
| `Scenario.ExampleRows` | src/main/kotlin/org/vaccineimpact/api/models/Expectations.kt:36-47 | for years 2000..2002, ages 0..1, minimum birth year 2000 the enumeration is exactly (2000,0), (2001,0), (2002,0), (2001,1), (2002,1) |
| `Scenario.ExampleLookup` | src/main/kotlin/org/vaccineimpact/api/models/Expectations.kt:49-64 | in the same example there is no cell at age 1 in 2000, and after flagging age 0 in 2000 and 2001 the first missing year is 2002 and the first age with missing rows is 0 |

## Left out

- Permissions.kt, permissions/PermissionSet.kt: they delegate to `Scope` (parsing and `encompasses`), which is not part of this model.
- responsibilities/ResponsibilitySet.kt, `OutcomeExpectations` and the default arguments of `CohortRestriction`: plain records without behaviour.
- Float values: cohort sizes and outcome values are an uninterpreted `Float` type that is only ever `None`; no float arithmetic occurs.
- Laziness of `buildSequence`, JSON shape and `@FlexibleProperty`: the model produces the whole sequence as a `seq`, which is what the generator yields.
- Kotlin 32-bit `Int` overflow in `year - age`: years and ages are unbounded integers.
- The in-place mutation of the `HashMap` objects after `expectedRowLookup` returns: the lookup is a value map, so writes by callers are map updates and aliasing between callers is not modelled.
- CoverageLookup.ExpectedRowLookup: requires `years` and `ages` to fit in a `Short`; the source accepts any range and `toShort()` would wrap keys so that distinct ages or years collide.
- CoverageLookup.FirstMissingYear: the source returns the first key in `HashMap` iteration order; the model picks the least missing year, one of the keys the source may return.
- CoverageLookup.FirstAgeWithMissingRows: likewise picks the least age with a missing year instead of the first in `HashMap` order.
- RowEnumerator.ExpectedRowsOrdered: requires distinct countries; with a repeated country the grouping by list position cannot be stated as a strict order.
- CoverageLookup.FreshFirstMissingYear: the equality with the first enumerated year holds for the model's least-key choice, not for the source's `HashMap` order (for years 2010..2020 a 16-bucket `HashMap` iterates from 2016).
- CoverageLookup.FreshFirstAgeWithMissingRows: likewise the equality with the first enumerated age holds for the least-key choice only, not for the source's `HashMap` order.
