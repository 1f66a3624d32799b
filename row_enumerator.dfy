/**
 * `Expectations.expectedRows()`: the ordered sequence of grid cells. The
 * source is a generator with three nested loops (ages ascending, countries in
 * list order, years ascending filtered by the cohort window); each loop level
 * is one recursive function here, and the generator's output is the `seq`.
 */
module RowEnumerator {
  import opened Models

  /** Whether `k` is a cell of the grid that `e` describes. */
  predicate InGrid(e: Expectations, k: RowDeterminer)
  {
    && e.ages.Contains(k.age)
    && k.country in e.countries
    && e.years.Contains(k.year)
    && Admits(e, k.age, k.year)
  }

  predicate StrictlyIncreasing(s: seq<int>)
  {
    forall i, j :: 0 <= i < j < |s| ==> s[i] < s[j]
  }

  /**
   * `years.filter { (it - age).withinCohortRange() }` restricted to the
   * years from `from` on: exactly the years in `from..years.hi` whose birth
   * year passes the cohort filter, in ascending order.
   */
  function CohortYears(e: Expectations, age: int, from: int): seq<int>
    decreases if from <= e.years.hi then e.years.hi - from + 1 else 0
  {
    if from > e.years.hi then []
    else if Admits(e, age, from) then [from] + CohortYears(e, age, from + 1)
    else CohortYears(e, age, from + 1)
  }

  /**
   * `CohortYears` yields exactly the years of `from..years.hi` that pass
   * the cohort filter, each once and in ascending order.
   */
  lemma {:induction false} CohortYearsSpec(e: Expectations, age: int, from: int)
    ensures forall i :: 0 <= i < |CohortYears(e, age, from)| ==>
      from <= CohortYears(e, age, from)[i] <= e.years.hi && Admits(e, age, CohortYears(e, age, from)[i])
    ensures forall y :: from <= y <= e.years.hi && Admits(e, age, y) ==> y in CohortYears(e, age, from)
    ensures StrictlyIncreasing(CohortYears(e, age, from))
    decreases if from <= e.years.hi then e.years.hi - from + 1 else 0
  {
    if from <= e.years.hi {
      CohortYearsSpec(e, age, from + 1);
    }
  }

  /** The rows the innermost loop yields for one age and one country. */
  function RowsForCountry(e: Expectations, age: int, country: Country): seq<RowDeterminer>
  {
    var ys := CohortYears(e, age, e.years.lo);
    seq(|ys|, i requires 0 <= i < |ys| => RowDeterminer(ys[i], age, country))
  }

  /** The rows the middle loop yields for one age, from the `k`-th country on. */
  function RowsFromCountry(e: Expectations, age: int, k: nat): seq<RowDeterminer>
    decreases |e.countries| - k
  {
    if k >= |e.countries| then []
    else RowsForCountry(e, age, e.countries[k]) + RowsFromCountry(e, age, k + 1)
  }

  /** The rows the outer loop yields from age `age` on. */
  function RowsFromAge(e: Expectations, age: int): seq<RowDeterminer>
    decreases if age <= e.ages.hi then e.ages.hi - age + 1 else 0
  {
    if age > e.ages.hi then []
    else RowsFromCountry(e, age, 0) + RowsFromAge(e, age + 1)
  }

  /** `expectedRows()`. */
  function ExpectedRows(e: Expectations): seq<RowDeterminer>
  {
    RowsFromAge(e, e.ages.lo)
  }

  // ---------------------------------------------------------------------------
  // Membership

  lemma RowsForCountryMembership(e: Expectations, age: int, country: Country, k: RowDeterminer)
    ensures k in RowsForCountry(e, age, country) <==>
      k.age == age && k.country == country && e.years.Contains(k.year) && Admits(e, age, k.year)
  {
    var ys := CohortYears(e, age, e.years.lo);
    CohortYearsSpec(e, age, e.years.lo);
    if k.age == age && k.country == country && e.years.Contains(k.year) && Admits(e, age, k.year) {
      assert k.year in ys;
      var i :| 0 <= i < |ys| && ys[i] == k.year;
      assert RowsForCountry(e, age, country)[i] == k;
    }
  }

  lemma {:induction false} RowsFromCountryMembership(e: Expectations, age: int, k0: nat, k: RowDeterminer)
    ensures k in RowsFromCountry(e, age, k0) <==>
      && k.age == age
      && (exists j :: k0 <= j < |e.countries| && e.countries[j] == k.country)
      && e.years.Contains(k.year)
      && Admits(e, age, k.year)
    decreases |e.countries| - k0
  {
    if k0 < |e.countries| {
      RowsForCountryMembership(e, age, e.countries[k0], k);
      RowsFromCountryMembership(e, age, k0 + 1, k);
      if exists j :: k0 <= j < |e.countries| && e.countries[j] == k.country {
        var j :| k0 <= j < |e.countries| && e.countries[j] == k.country;
        if j != k0 {
          assert k0 + 1 <= j;
        }
      }
    }
  }

  lemma {:induction false} RowsFromAgeMembership(e: Expectations, age: int, k: RowDeterminer)
    requires e.ages.lo <= age
    ensures k in RowsFromAge(e, age) <==>
      age <= k.age && InGrid(e, k)
    decreases if age <= e.ages.hi then e.ages.hi - age + 1 else 0
  {
    if age <= e.ages.hi {
      RowsFromCountryMembership(e, age, 0, k);
      RowsFromAgeMembership(e, age + 1, k);
      assert (exists j :: 0 <= j < |e.countries| && e.countries[j] == k.country) <==> k.country in e.countries by {
        if k.country in e.countries {
          var j :| 0 <= j < |e.countries| && e.countries[j] == k.country;
        }
      }
    }
  }

  /**
   * A key is enumerated exactly when its age is in `ages`, its country in
   * `countries`, its year in `years`, and its birth year passes the cohort
   * filter.
   */
  lemma ExpectedRowsMembership(e: Expectations, k: RowDeterminer)
    ensures k in ExpectedRows(e) <==> InGrid(e, k)
  {
    RowsFromAgeMembership(e, e.ages.lo, k);
  }

  /** An empty `ages`, `years` or `countries` gives no rows at all. */
  lemma EmptyDimensionGivesNoRows(e: Expectations)
    requires e.ages.IsEmpty() || e.years.IsEmpty() || e.countries == []
    ensures ExpectedRows(e) == []
  {
    if ExpectedRows(e) != [] {
      ExpectedRowsMembership(e, ExpectedRows(e)[0]);
      assert false;
    }
  }

  /**
   * A cohort window whose minimum lies above its maximum (the contract is
   * not validated, so this can happen) admits no birth year, so nothing is
   * enumerated.
   */
  lemma InvertedWindowGivesNoRows(e: Expectations)
    requires e.cohorts.minimumBirthYear.Some? && e.cohorts.maximumBirthYear.Some?
    requires e.cohorts.minimumBirthYear.value > e.cohorts.maximumBirthYear.value
    ensures ExpectedRows(e) == []
  {
    if ExpectedRows(e) != [] {
      ExpectedRowsMembership(e, ExpectedRows(e)[0]);
      assert false;
    }
  }

  // ---------------------------------------------------------------------------
  // Order

  predicate Distinct<T(==)>(s: seq<T>)
  {
    forall i, j :: 0 <= i < j < |s| ==> s[i] != s[j]
  }

  /** Position of the first occurrence of `c` in `cs`, or -1 when there is none. */
  function IndexOf(cs: seq<Country>, c: Country): (i: int)
    ensures -1 <= i < |cs|
    ensures i == -1 <==> c !in cs
    ensures 0 <= i ==> cs[i] == c && c !in cs[..i]
  {
    if cs == [] then -1
    else if cs[0] == c then 0
    else
      var r := IndexOf(cs[1..], c);
      assert r >= 0 ==> cs[..r + 1] == [cs[0]] + cs[1..][..r];
      if r == -1 then -1 else r + 1
  }

  lemma IndexOfDistinct(cs: seq<Country>, j: nat)
    requires Distinct(cs) && j < |cs|
    ensures IndexOf(cs, cs[j]) == j
  {
  }

  /**
   * The enumeration order: by age, then by the country's position in
   * `countries`, then by year.
   */
  predicate Precedes(cs: seq<Country>, k1: RowDeterminer, k2: RowDeterminer)
  {
    || k1.age < k2.age
    || (k1.age == k2.age && IndexOf(cs, k1.country) < IndexOf(cs, k2.country))
    || (k1.age == k2.age && k1.country == k2.country && k1.year < k2.year)
  }

  predicate Ordered(cs: seq<Country>, rows: seq<RowDeterminer>)
  {
    forall i, j :: 0 <= i < j < |rows| ==> Precedes(cs, rows[i], rows[j])
  }

  lemma OrderedConcat(cs: seq<Country>, a: seq<RowDeterminer>, b: seq<RowDeterminer>)
    requires Ordered(cs, a) && Ordered(cs, b)
    requires forall x, y :: x in a && y in b ==> Precedes(cs, x, y)
    ensures Ordered(cs, a + b)
  {
  }

  lemma {:induction false} RowsFromCountryOrdered(e: Expectations, age: int, k0: nat)
    requires Distinct(e.countries)
    ensures Ordered(e.countries, RowsFromCountry(e, age, k0))
    decreases |e.countries| - k0
  {
    if k0 < |e.countries| {
      var cs := e.countries;
      var first := RowsForCountry(e, age, cs[k0]);
      var rest := RowsFromCountry(e, age, k0 + 1);
      RowsFromCountryOrdered(e, age, k0 + 1);
      CohortYearsSpec(e, age, e.years.lo);
      IndexOfDistinct(cs, k0);
      forall x, y | x in first && y in rest
        ensures Precedes(cs, x, y)
      {
        RowsForCountryMembership(e, age, cs[k0], x);
        RowsFromCountryMembership(e, age, k0 + 1, y);
        var j :| k0 + 1 <= j < |cs| && cs[j] == y.country;
        IndexOfDistinct(cs, j);
      }
      OrderedConcat(cs, first, rest);
    }
  }

  lemma {:induction false} RowsFromAgeOrdered(e: Expectations, age: int)
    requires Distinct(e.countries) && e.ages.lo <= age
    ensures Ordered(e.countries, RowsFromAge(e, age))
    decreases if age <= e.ages.hi then e.ages.hi - age + 1 else 0
  {
    if age <= e.ages.hi {
      var first := RowsFromCountry(e, age, 0);
      var rest := RowsFromAge(e, age + 1);
      RowsFromCountryOrdered(e, age, 0);
      RowsFromAgeOrdered(e, age + 1);
      forall x, y | x in first && y in rest
        ensures Precedes(e.countries, x, y)
      {
        RowsFromCountryMembership(e, age, 0, x);
        RowsFromAgeMembership(e, age + 1, y);
      }
      OrderedConcat(e.countries, first, rest);
    }
  }

  /**
   * With distinct countries the enumeration is strictly ordered by age, then
   * by the country's position in the list, then by year; in particular no
   * key appears twice.
   */
  lemma ExpectedRowsOrdered(e: Expectations)
    requires Distinct(e.countries)
    ensures Ordered(e.countries, ExpectedRows(e))
    ensures Distinct(ExpectedRows(e))
  {
    RowsFromAgeOrdered(e, e.ages.lo);
  }

  /** Ages never decrease along `rows`. */
  predicate AgesAscending(rows: seq<RowDeterminer>)
  {
    forall i, j :: 0 <= i < j < |rows| ==> rows[i].age <= rows[j].age
  }

  lemma {:induction false} RowsFromAgeAgesAscending(e: Expectations, age: int)
    requires e.ages.lo <= age
    ensures AgesAscending(RowsFromAge(e, age))
    decreases if age <= e.ages.hi then e.ages.hi - age + 1 else 0
  {
    if age <= e.ages.hi {
      var first := RowsFromCountry(e, age, 0);
      var rest := RowsFromAge(e, age + 1);
      RowsFromAgeAgesAscending(e, age + 1);
      forall x | x in first
        ensures x.age == age
      {
        RowsFromCountryMembership(e, age, 0, x);
      }
      forall x | x in rest
        ensures age < x.age
      {
        RowsFromAgeMembership(e, age + 1, x);
      }
      AgesAscendingConcat(first, rest);
    }
  }

  lemma AgesAscendingConcat(a: seq<RowDeterminer>, b: seq<RowDeterminer>)
    requires AgesAscending(a) && AgesAscending(b)
    requires forall x, y :: x in a && y in b ==> x.age <= y.age
    ensures AgesAscending(a + b)
  {
  }

  /**
   * Whatever the country list (repetitions included), the enumeration never
   * goes back to a smaller age.
   */
  lemma ExpectedRowsAgesAscending(e: Expectations)
    ensures AgesAscending(ExpectedRows(e))
  {
    RowsFromAgeAgesAscending(e, e.ages.lo);
  }

  // ---------------------------------------------------------------------------
  // Size

  /** `{y in years : y - age passes the cohort filter}`, from year `from` on. */
  function CohortYearSet(e: Expectations, age: int, from: int): set<int>
  {
    set y | from <= y <= e.years.hi && Admits(e, age, y)
  }

  /**
   * The grid size from age `age` on: the sum over those ages of
   * `|countries|` times the number of years that pass the cohort filter.
   */
  function GridSizeFrom(e: Expectations, age: int): nat
    decreases if age <= e.ages.hi then e.ages.hi - age + 1 else 0
  {
    if age > e.ages.hi then 0
    else |e.countries| * |CohortYearSet(e, age, e.years.lo)| + GridSizeFrom(e, age + 1)
  }

  function GridSize(e: Expectations): nat
  {
    GridSizeFrom(e, e.ages.lo)
  }

  /** One step of `CohortYearSet`: the year `from` is in it exactly when it passes the filter. */
  lemma CohortYearSetStep(e: Expectations, age: int, from: int)
    requires from <= e.years.hi
    ensures from !in CohortYearSet(e, age, from + 1)
    ensures CohortYearSet(e, age, from) ==
      (if Admits(e, age, from) then {from} else {}) + CohortYearSet(e, age, from + 1)
  {
  }

  lemma {:induction false} CohortYearsCount(e: Expectations, age: int, from: int)
    ensures |CohortYears(e, age, from)| == |CohortYearSet(e, age, from)|
    decreases if from <= e.years.hi then e.years.hi - from + 1 else 0
  {
    if from > e.years.hi {
      assert CohortYearSet(e, age, from) == {};
    } else {
      CohortYearsCount(e, age, from + 1);
      CohortYearSetStep(e, age, from);
    }
  }

  lemma {:induction false} RowsFromCountryCount(e: Expectations, age: int, k0: nat)
    requires k0 <= |e.countries|
    ensures |RowsFromCountry(e, age, k0)| == (|e.countries| - k0) * |CohortYears(e, age, e.years.lo)|
    decreases |e.countries| - k0
  {
    if k0 < |e.countries| {
      RowsFromCountryCount(e, age, k0 + 1);
      var n := |CohortYears(e, age, e.years.lo)|;
      calc {
        |RowsFromCountry(e, age, k0)|;
        n + (|e.countries| - (k0 + 1)) * n;
        (|e.countries| - k0) * n;
      }
    }
  }

  lemma {:induction false} RowsFromAgeCount(e: Expectations, age: int)
    ensures |RowsFromAge(e, age)| == GridSizeFrom(e, age)
    decreases if age <= e.ages.hi then e.ages.hi - age + 1 else 0
  {
    if age <= e.ages.hi {
      RowsFromAgeCount(e, age + 1);
      RowsFromCountryCount(e, age, 0);
      CohortYearsCount(e, age, e.years.lo);
      var perCountry := |CohortYears(e, age, e.years.lo)|;
      assert |RowsFromCountry(e, age, 0)| == |e.countries| * perCountry;
      assert perCountry == |CohortYearSet(e, age, e.years.lo)|;
      calc {
        |RowsFromAge(e, age)|;
        |RowsFromCountry(e, age, 0)| + |RowsFromAge(e, age + 1)|;
        |e.countries| * |CohortYearSet(e, age, e.years.lo)| + GridSizeFrom(e, age + 1);
        GridSizeFrom(e, age);
      }
    }
  }

  /**
   * The number of enumerated keys is the sum over `ages` of `|countries|`
   * times the number of years whose birth year passes the cohort filter.
   */
  lemma ExpectedRowsSize(e: Expectations)
    ensures |ExpectedRows(e)| == GridSize(e)
  {
    RowsFromAgeCount(e, e.ages.lo);
  }
}
