/**
 * Template rows: `outcomesMap`, `mapCentralRow`, `mapStochasticRow` and the
 * `expectedCentralRows` / `expectedStochasticRows` pipelines that map them
 * over the enumerated keys.
 */
module RowMaterializer {
  import opened Nullable
  import opened Models
  import opened RowEnumerator

  /**
   * `outcomes.associateBy({ it }, { null })`: one key per distinct outcome
   * name, every value `null`. Entries are added in list order, so a repeated
   * name overwrites its earlier entry.
   */
  function OutcomesMap(outcomes: seq<string>): (m: map<string, Option<Float>>)
    ensures m.Keys == set o | o in outcomes
    ensures forall o :: o in m ==> m[o] == None
  {
    if outcomes == [] then map[]
    else
      var init := outcomes[..|outcomes| - 1];
      assert outcomes == init + [outcomes[|outcomes| - 1]];
      OutcomesMap(init)[outcomes[|outcomes| - 1] := None]
  }

  /** The shape every template row has: no cohort size and an all-null outcome map. */
  predicate IsTemplate(e: Expectations, cohortSize: Option<Float>, outcomes: map<string, Option<Float>>)
  {
    && cohortSize == None
    && outcomes.Keys == (set o | o in e.outcomes)
    && forall o :: o in outcomes ==> outcomes[o] == None
  }

  /** The key a central row stands for: its year, age and country (id and name). */
  function CentralRowKey(r: ExpectedCentralRow): RowDeterminer
  {
    RowDeterminer(r.year, r.age, Country(r.country, r.countryName))
  }

  /** The key a stochastic row stands for. */
  function StochasticRowKey(r: ExpectedStochasticRow): RowDeterminer
  {
    RowDeterminer(r.year, r.age, Country(r.country, r.countryName))
  }

  /** `mapCentralRow`: the template central row for one key. */
  function MapCentralRow(e: Expectations, disease: string, year: int, age: int, country: Country): (r: ExpectedCentralRow)
    ensures CentralRowKey(r) == RowDeterminer(year, age, country)
    ensures r.disease == disease
    ensures IsTemplate(e, r.cohortSize, r.outcomes)
  {
    ExpectedCentralRow(disease, year, age, country.id, country.name, None, OutcomesMap(e.outcomes))
  }

  /** `mapStochasticRow`: the template stochastic row for one key, with no run id. */
  function MapStochasticRow(e: Expectations, disease: string, year: int, age: int, country: Country): (r: ExpectedStochasticRow)
    ensures StochasticRowKey(r) == RowDeterminer(year, age, country)
    ensures r.disease == disease && r.runId == None
    ensures IsTemplate(e, r.cohortSize, r.outcomes)
  {
    ExpectedStochasticRow(disease, None, year, age, country.id, country.name, None, OutcomesMap(e.outcomes))
  }

  /**
   * `expectedCentralRows(disease)`: one template row per enumerated key, in
   * enumeration order, each standing for the key at its position.
   */
  function ExpectedCentralRows(e: Expectations, disease: string): (rows: seq<ExpectedCentralRow>)
    ensures |rows| == |ExpectedRows(e)|
    ensures forall i :: 0 <= i < |rows| ==>
      && CentralRowKey(rows[i]) == ExpectedRows(e)[i]
      && rows[i].disease == disease
      && IsTemplate(e, rows[i].cohortSize, rows[i].outcomes)
  {
    var keys := ExpectedRows(e);
    seq(|keys|, i requires 0 <= i < |keys| => MapCentralRow(e, disease, keys[i].year, keys[i].age, keys[i].country))
  }

  /** `expectedStochasticRows(disease)`: as the central rows, with a null run id. */
  function ExpectedStochasticRows(e: Expectations, disease: string): (rows: seq<ExpectedStochasticRow>)
    ensures |rows| == |ExpectedRows(e)|
    ensures forall i :: 0 <= i < |rows| ==>
      && StochasticRowKey(rows[i]) == ExpectedRows(e)[i]
      && rows[i].disease == disease && rows[i].runId == None
      && IsTemplate(e, rows[i].cohortSize, rows[i].outcomes)
  {
    var keys := ExpectedRows(e);
    seq(|keys|, i requires 0 <= i < |keys| => MapStochasticRow(e, disease, keys[i].year, keys[i].age, keys[i].country))
  }

  /**
   * The central template rows cover the grid exactly: a key is the key of
   * some row iff it is a cell of the grid.
   */
  lemma CentralRowsCoverGrid(e: Expectations, disease: string, k: RowDeterminer)
    ensures (exists r :: r in ExpectedCentralRows(e, disease) && CentralRowKey(r) == k) <==> InGrid(e, k)
  {
    var rows := ExpectedCentralRows(e, disease);
    var keys := ExpectedRows(e);
    ExpectedRowsMembership(e, k);
    if InGrid(e, k) {
      var i :| 0 <= i < |keys| && keys[i] == k;
      assert rows[i] in rows && CentralRowKey(rows[i]) == k;
    }
    if r :| r in rows && CentralRowKey(r) == k {
      var i :| 0 <= i < |rows| && rows[i] == r;
      assert keys[i] == k;
    }
  }

  /** The stochastic template rows cover the grid exactly. */
  lemma StochasticRowsCoverGrid(e: Expectations, disease: string, k: RowDeterminer)
    ensures (exists r :: r in ExpectedStochasticRows(e, disease) && StochasticRowKey(r) == k) <==> InGrid(e, k)
  {
    var rows := ExpectedStochasticRows(e, disease);
    var keys := ExpectedRows(e);
    ExpectedRowsMembership(e, k);
    if InGrid(e, k) {
      var i :| 0 <= i < |keys| && keys[i] == k;
      assert rows[i] in rows && StochasticRowKey(rows[i]) == k;
    }
    if r :| r in rows && StochasticRowKey(r) == k {
      var i :| 0 <= i < |rows| && rows[i] == r;
      assert keys[i] == k;
    }
  }
}
