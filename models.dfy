/** Kotlin's nullable types: `None` stands for `null`. */
module Nullable {
  datatype Option<+T> = None | Some(value: T)
}

/**
 * The records of the expectation grid (`Expectations.kt`): the reporting
 * contract, its cohort restriction, the row keys and the two template rows,
 * together with the cohort filter and Kotlin's `Int.toShort()`.
 */
module Models {
  import opened Nullable

  /** Kotlin `Short`: a 16-bit two's-complement integer. */
  type Short = x: int | -0x8000 <= x < 0x8000

  /** Kotlin `Int.toShort()`: keeps the low 16 bits, read as two's complement. */
  function ToShort(x: int): (s: Short)
    ensures (x - s) % 0x1_0000 == 0
    ensures -0x8000 <= x < 0x8000 ==> s == x
  {
    (x + 0x8000) % 0x1_0000 - 0x8000
  }

  /** Kotlin `Float`; the grid only ever stores `null` where a float may go. */
  type Float(==)

  /** Kotlin `IntRange` `lo..hi`: inclusive at both ends, empty when `lo > hi`. */
  datatype IntRange = IntRange(lo: int, hi: int) {
    predicate Contains(x: int) { lo <= x <= hi }
    predicate IsEmpty() { lo > hi }
    /** Every element fits in a Kotlin `Short`, so `toShort()` leaves it alone. */
    predicate FitsShort() { lo > hi || (-0x8000 <= lo && hi < 0x8000) }
  }

  datatype Country = Country(id: string, name: string)

  /** A birth-year window; `None` leaves that side unbounded. */
  datatype CohortRestriction = CohortRestriction(minimumBirthYear: Option<Short>, maximumBirthYear: Option<Short>)

  /** The reporting contract; `years` and `ages` are inclusive ranges. */
  datatype Expectations = Expectations(
    id: int,
    description: string,
    years: IntRange,
    ages: IntRange,
    cohorts: CohortRestriction,
    countries: seq<Country>,
    outcomes: seq<string>)

  /** One expected cell of the grid (Kotlin `RowDeterminer`). */
  datatype RowDeterminer = RowDeterminer(year: int, age: int, country: Country)

  datatype ExpectedCentralRow = ExpectedCentralRow(
    disease: string,
    year: int,
    age: int,
    country: string,
    countryName: string,
    cohortSize: Option<Float>,
    outcomes: map<string, Option<Float>>)

  datatype ExpectedStochasticRow = ExpectedStochasticRow(
    disease: string,
    runId: Option<int>,
    year: int,
    age: int,
    country: string,
    countryName: string,
    cohortSize: Option<Float>,
    outcomes: map<string, Option<Float>>)

  /** `Int.withinCohortRange()`: is `birthYear` inside the cohort window of `cohorts`. */
  predicate WithinCohortRange(cohorts: CohortRestriction, birthYear: int)
  {
    && (cohorts.minimumBirthYear.None? || birthYear >= cohorts.minimumBirthYear.value)
    && (cohorts.maximumBirthYear.None? || birthYear <= cohorts.maximumBirthYear.value)
  }

  /**
   * The filter applied to a cell, `(year - age).withinCohortRange()`: does
   * the birth year of a cell of age `age` in year `year` pass the cohort
   * window of `e`.
   */
  predicate Admits(e: Expectations, age: int, year: int)
  {
    WithinCohortRange(e.cohorts, year - age)
  }
}
