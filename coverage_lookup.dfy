/**
 * The presence lookup: `expectedRowLookup()` builds a nested map
 * country id -> age -> year -> flag, with every expected cell flagged
 * `false`; the extension functions `isMissing`, `hasMissingYear`,
 * `hasMissingAges`, `firstMissingYear` and `firstAgeWithMissingRows` query it.
 */
module CoverageLookup {
  import opened Models
  import opened RowEnumerator

  type YearLookup = map<Short, bool>
  type AgeLookup = map<Short, YearLookup>
  type RowLookup = map<string, AgeLookup>

  // ---------------------------------------------------------------------------
  // What the builder produces

  /** The year map of one age: a `false` flag per year whose birth year passes the filter. */
  function YearsExpected(e: Expectations, age: int): YearLookup
  {
    map y: Short | e.years.lo <= y <= e.years.hi && Admits(e, age, y) :: false
  }

  /** The age map every country gets: one year map per age of `ages`. */
  function AgesExpected(e: Expectations): AgeLookup
  {
    map a: Short | e.ages.lo <= a <= e.ages.hi :: YearsExpected(e, a)
  }

  function CountryIds(countries: seq<Country>): set<string>
  {
    set c | c in countries :: c.id
  }

  /** The whole lookup: the same age map under every country id. */
  function LookupExpected(e: Expectations): RowLookup
  {
    map id | id in CountryIds(e.countries) :: AgesExpected(e)
  }

  /**
   * The innermost loop of `expectedRowLookup()`: a fresh year map with a
   * `false` flag for every year whose birth year passes the cohort filter.
   */
  method BuildYearLookup(e: Expectations, age: int) returns (yearMap: YearLookup)
    requires e.years.FitsShort()
    ensures yearMap == YearsExpected(e, age)
  {
    yearMap := map[];
    var year := e.years.lo;
    while year <= e.years.hi
      invariant year == e.years.lo || e.years.lo <= year <= e.years.hi + 1
      invariant yearMap == map y: Short | e.years.lo <= y < year && Admits(e, age, y) :: false
    {
      if Admits(e, age, year) {
        yearMap := yearMap[ToShort(year) := false];
      }
      year := year + 1;
    }
  }

  /**
   * The middle loop of `expectedRowLookup()`: a fresh age map holding the
   * year map of every age of `ages`.
   */
  method BuildAgeLookup(e: Expectations) returns (ageMap: AgeLookup)
    requires e.ages.FitsShort() && e.years.FitsShort()
    ensures ageMap == AgesExpected(e)
  {
    ageMap := map[];
    var age := e.ages.lo;
    while age <= e.ages.hi
      invariant age == e.ages.lo || e.ages.lo <= age <= e.ages.hi + 1
      invariant ageMap == map a: Short | e.ages.lo <= a < age :: YearsExpected(e, a)
    {
      var yearMap := BuildYearLookup(e, age);
      assert ToShort(age) == age;
      ageMap := ageMap[ToShort(age) := yearMap];
      age := age + 1;
    }
  }

  /**
   * `expectedRowLookup()`: for every country in turn, a fresh age map is
   * built and stored under the country's id. Ages and years go through
   * `toShort()`, so the ranges must fit in a `Short` for the keys to be the
   * ages and years themselves.
   */
  method ExpectedRowLookup(e: Expectations) returns (lookup: RowLookup)
    requires e.ages.FitsShort() && e.years.FitsShort()
    ensures lookup == LookupExpected(e)
  {
    lookup := map[];
    var i := 0;
    while i < |e.countries|
      invariant 0 <= i <= |e.countries|
      invariant lookup == map id | id in CountryIds(e.countries[..i]) :: AgesExpected(e)
    {
      var ageMap := BuildAgeLookup(e);
      assert e.countries[..i + 1] == e.countries[..i] + [e.countries[i]];
      assert CountryIds(e.countries[..i + 1]) == CountryIds(e.countries[..i]) + {e.countries[i].id};
      lookup := lookup[e.countries[i].id := ageMap];
      i := i + 1;
    }
    assert e.countries[..i] == e.countries;
  }

  // ---------------------------------------------------------------------------
  // Contents of a freshly built lookup

  /** Whether `lookup` holds a flag for `year` under `age` under country `id`. */
  predicate HasFlag(lookup: RowLookup, id: string, age: int, year: int)
  {
    && id in lookup
    && -0x8000 <= age < 0x8000 && age in lookup[id]
    && -0x8000 <= year < 0x8000 && year in lookup[id][age]
  }

  /**
   * The flags of the built lookup sit exactly at the enumerated keys: a flag
   * exists for (country id, age, year) iff `expectedRows()` yields a key with
   * that year, age and country id. Every flag is `false`.
   */
  lemma LookupMatchesRows(e: Expectations, id: string, age: int, year: int)
    requires e.ages.FitsShort() && e.years.FitsShort()
    ensures HasFlag(LookupExpected(e), id, age, year) <==>
      exists k :: k in ExpectedRows(e) && k.country.id == id && k.age == age && k.year == year
    ensures HasFlag(LookupExpected(e), id, age, year) ==> !LookupExpected(e)[id][age][year]
  {
    var lookup := LookupExpected(e);
    if HasFlag(lookup, id, age, year) {
      var c :| c in e.countries && c.id == id;
      ExpectedRowsMembership(e, RowDeterminer(year, age, c));
    }
    if k :| k in ExpectedRows(e) && k.country.id == id && k.age == age && k.year == year {
      ExpectedRowsMembership(e, k);
      assert id in CountryIds(e.countries);
    }
  }

  /** Every age of `ages` has an entry under every country, even when its year map is empty. */
  lemma LookupHasEveryAge(e: Expectations, c: Country, age: int)
    requires e.ages.FitsShort()
    requires c in e.countries && e.ages.Contains(age)
    ensures c.id in LookupExpected(e)
    ensures -0x8000 <= age < 0x8000 && age in LookupExpected(e)[c.id]
    ensures LookupExpected(e)[c.id][age] == YearsExpected(e, age)
  {
  }

  // ---------------------------------------------------------------------------
  // Queries

  /** `Year.isMissing()`: a cell is missing while its flag is `false`. */
  predicate IsMissing(present: bool)
  {
    !present
  }

  /** `YearsForAge.hasMissingYear()`: some year of the age's year map is missing. */
  predicate HasMissingYear(years: YearLookup)
  {
    exists y :: y in years && IsMissing(years[y])
  }

  /** `AgesForCountry.hasMissingAges()`: some age of the country's age map has a missing year. */
  predicate HasMissingAges(ages: AgeLookup)
  {
    exists a :: a in ages && HasMissingYear(ages[a])
  }

  predicate IsLeast(m: Short, s: set<Short>)
  {
    m in s && forall x :: x in s ==> m <= x
  }

  lemma {:induction false} LeastExists(s: set<Short>)
    requires s != {}
    ensures exists m :: IsLeast(m, s)
    decreases |s|
  {
    var x :| x in s;
    var rest := s - {x};
    if rest == {} {
      assert s == {x};
      assert IsLeast(x, s);
    } else {
      LeastExists(rest);
      var m :| IsLeast(m, rest);
      var least := if x < m then x else m;
      forall z | z in s
        ensures least <= z
      {
        if z != x {
          assert z in rest;
        }
      }
      assert IsLeast(least, s);
    }
  }

  /** The least element of a non-empty set of keys. */
  function Least(s: set<Short>): (m: Short)
    requires s != {}
    ensures m in s && forall x :: x in s ==> m <= x
  {
    LeastExists(s);
    var m :| IsLeast(m, s);
    m
  }

  /**
   * `YearLookup.firstMissingYear()`: a year whose flag is `false`. The caller
   * must make sure there is one (otherwise `first()` throws). Of the missing
   * years this picks the least.
   */
  function FirstMissingYear(years: YearLookup): (y: Short)
    requires HasMissingYear(years)
    ensures y in years && IsMissing(years[y])
    ensures forall y' :: y' in years && IsMissing(years[y']) ==> y <= y'
  {
    var missing := set y | y in years && IsMissing(years[y]);
    assert missing != {} by {
      var y :| y in years && IsMissing(years[y]);
      assert y in missing;
    }
    var y := Least(missing);
    assert forall y' :: y' in years && IsMissing(years[y']) ==> y' in missing;
    y
  }

  /**
   * `AgeLookup.firstAgeWithMissingRows()`: an age with a missing year. The
   * caller must make sure there is one. Of those ages this picks the least.
   */
  function FirstAgeWithMissingRows(ages: AgeLookup): (a: Short)
    requires HasMissingAges(ages)
    ensures a in ages && HasMissingYear(ages[a])
    ensures forall a' :: a' in ages && HasMissingYear(ages[a']) ==> a <= a'
  {
    var withMissing := set a | a in ages && HasMissingYear(ages[a]);
    assert withMissing != {} by {
      var a :| a in ages && HasMissingYear(ages[a]);
      assert a in withMissing;
    }
    var a := Least(withMissing);
    assert forall a' :: a' in ages && HasMissingYear(ages[a']) ==> a' in withMissing;
    a
  }

  // ---------------------------------------------------------------------------
  // Queries on a freshly built lookup

  /**
   * On a fresh lookup an age has a missing year exactly when its year map is
   * non-empty, that is when some year of `years` passes the cohort filter
   * for that age.
   */
  lemma FreshHasMissingYear(e: Expectations, id: string, age: Short)
    requires id in LookupExpected(e) && age in LookupExpected(e)[id]
    ensures HasMissingYear(LookupExpected(e)[id][age]) <==> LookupExpected(e)[id][age] != map[]
    ensures HasMissingYear(LookupExpected(e)[id][age]) <==>
      exists y :: e.years.Contains(y) && Admits(e, age, y) && -0x8000 <= y < 0x8000
  {
    var years := LookupExpected(e)[id][age];
    assert years == YearsExpected(e, age);
    if years != map[] {
      var y :| y in years;
      assert IsMissing(years[y]);
    }
    if y :| e.years.Contains(y) && Admits(e, age, y) && -0x8000 <= y < 0x8000 {
      assert y in years;
    }
  }

  /**
   * On a fresh lookup a country has missing ages exactly when the
   * enumeration yields some key for that country id.
   */
  lemma FreshHasMissingAges(e: Expectations, id: string)
    requires e.ages.FitsShort() && e.years.FitsShort()
    requires id in LookupExpected(e)
    ensures HasMissingAges(LookupExpected(e)[id]) <==>
      exists k :: k in ExpectedRows(e) && k.country.id == id
  {
    var ages := LookupExpected(e)[id];
    if HasMissingAges(ages) {
      var a :| a in ages && HasMissingYear(ages[a]);
      var y :| y in ages[a] && IsMissing(ages[a][y]);
      LookupMatchesRows(e, id, a, y);
    }
    if k :| k in ExpectedRows(e) && k.country.id == id {
      LookupMatchesRows(e, id, k.age, k.year);
      assert HasMissingYear(ages[k.age]);
    }
  }

  /**
   * On a fresh lookup the first missing year of an age is the first year the
   * enumeration yields for that age.
   */
  lemma FreshFirstMissingYear(e: Expectations, id: string, age: Short)
    requires e.years.FitsShort()
    requires id in LookupExpected(e) && age in LookupExpected(e)[id]
    requires HasMissingYear(LookupExpected(e)[id][age])
    ensures CohortYears(e, age, e.years.lo) != []
    ensures FirstMissingYear(LookupExpected(e)[id][age]) == CohortYears(e, age, e.years.lo)[0]
  {
    var years := LookupExpected(e)[id][age];
    var ys := CohortYears(e, age, e.years.lo);
    CohortYearsSpec(e, age, e.years.lo);
    var first := FirstMissingYear(years);
    assert years == YearsExpected(e, age);
    assert first in ys;
    var i :| 0 <= i < |ys| && ys[i] == first;
    assert ys[0] in years;
    assert first <= ys[0];
  }

  /**
   * On a fresh lookup the first age with missing rows under any country is
   * the age of the very first enumerated key.
   */
  lemma FreshFirstAgeWithMissingRows(e: Expectations, id: string)
    requires e.ages.FitsShort() && e.years.FitsShort()
    requires id in LookupExpected(e) && HasMissingAges(LookupExpected(e)[id])
    ensures ExpectedRows(e) != []
    ensures FirstAgeWithMissingRows(LookupExpected(e)[id]) == ExpectedRows(e)[0].age
  {
    var ages := LookupExpected(e)[id];
    var rows := ExpectedRows(e);
    var first := FirstAgeWithMissingRows(ages);
    var y :| y in ages[first] && IsMissing(ages[first][y]);
    LookupMatchesRows(e, id, first, y);
    var k :| k in rows && k.country.id == id && k.age == first && k.year == y;
    var j :| 0 <= j < |rows| && rows[j] == k;
    ExpectedRowsAgesAscending(e);
    assert rows[0].age <= first;
    ExpectedRowsMembership(e, rows[0]);
    LookupMatchesRows(e, rows[0].country.id, rows[0].age, rows[0].year);
    assert HasMissingYear(ages[rows[0].age]);
  }
}
