/**
 * A worked example: years 2000..2002, ages 0..1, minimum birth year 2000,
 * one country. Age 1 in year 2000 (birth year 1999) is not part of the grid.
 */
module Scenario {
  import opened Nullable
  import opened Models
  import opened RowEnumerator
  import opened CoverageLookup

  const C := Country("C", "Country C")

  const Example := Expectations(
    1, "example", IntRange(2000, 2002), IntRange(0, 1),
    CohortRestriction(Some(2000), None), [C], ["deaths"])

  /** The years that pass the cohort filter, per age, in the example. */
  lemma ExampleCohortYears()
    ensures CohortYears(Example, 0, 2000) == [2000, 2001, 2002]
    ensures CohortYears(Example, 1, 2000) == [2001, 2002]
  {
    var e := Example;
    assert CohortYears(e, 0, 2003) == [] && CohortYears(e, 1, 2003) == [];
    assert CohortYears(e, 0, 2002) == [2002] && CohortYears(e, 1, 2002) == [2002];
    assert CohortYears(e, 0, 2001) == [2001, 2002] && CohortYears(e, 1, 2001) == [2001, 2002];
  }

  /** The example enumerates five keys: three for age 0, then two for age 1. */
  lemma ExampleRows()
    ensures ExpectedRows(Example) == [
      RowDeterminer(2000, 0, C), RowDeterminer(2001, 0, C), RowDeterminer(2002, 0, C),
      RowDeterminer(2001, 1, C), RowDeterminer(2002, 1, C)]
  {
    var e := Example;
    ExampleCohortYears();
    assert RowsFromAge(e, 2) == [];
    assert RowsFromCountry(e, 1, 1) == [] && RowsFromCountry(e, 0, 1) == [];
    var age1 := [RowDeterminer(2001, 1, C), RowDeterminer(2002, 1, C)];
    var age0 := [RowDeterminer(2000, 0, C), RowDeterminer(2001, 0, C), RowDeterminer(2002, 0, C)];
    assert RowsForCountry(e, 1, C) == age1;
    assert RowsForCountry(e, 0, C) == age0;
    assert RowsFromCountry(e, 1, 0) == age1;
    assert RowsFromCountry(e, 0, 0) == age0;
    assert RowsFromAge(e, 1) == age1;
    assert RowsFromAge(e, 0) == age0 + age1;
  }

  /**
   * The example's lookup has no cell at all for age 1 in 2000; once the
   * callers have flagged (age 0, 2000) and (age 0, 2001) as present, the
   * first missing year of age 0 is 2002 and the first age with missing rows
   * is 0.
   */
  lemma ExampleLookup()
    ensures !HasFlag(LookupExpected(Example), "C", 1, 2000)
    ensures
      var lookup := LookupExpected(Example);
      var marked := lookup["C" := lookup["C"][0 := lookup["C"][0][2000 := true][2001 := true]]];
      && HasMissingYear(marked["C"][0])
      && FirstMissingYear(marked["C"][0]) == 2002
      && HasMissingAges(marked["C"])
      && FirstAgeWithMissingRows(marked["C"]) == 0
  {
    var e := Example;
    var lookup := LookupExpected(e);
    assert "C" in CountryIds(e.countries);
    assert lookup["C"] == AgesExpected(e);
    assert 2000 !in YearsExpected(e, 1);
    var ages := lookup["C"][0 := lookup["C"][0][2000 := true][2001 := true]];
    var years := ages[0];
    assert 2002 in YearsExpected(e, 0);
    assert years == map[2000 := true, 2001 := true, 2002 := false];
    assert IsMissing(years[2002]);
    assert FirstMissingYear(years) == 2002;
    assert HasMissingYear(ages[0]);
    var first := FirstAgeWithMissingRows(ages);
    assert first in ages;
    assert 0 in ages && first <= 0;
    assert -1 !in ages;
  }
}
