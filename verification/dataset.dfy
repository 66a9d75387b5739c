/**
  The reference table of (country name, country code, year, population)
  records and the three indexes the dashboard derives from it once, at
  startup: the ascending list of years, the name-to-code map and the
  population of every country in the latest year.
 */
module Dataset {

  import opened Outcomes
  import opened Sorting

  /** One row of the reference table. */
  datatype Record = Record(name: string, code: string, year: int, population: nat)

  /** The table together with the indexes built from it at startup. */
  datatype Dataset = Dataset(
    records: seq<Record>,
    availableYears: seq<int>,
    minYear: int,
    maxYear: int,
    codes: map<string, string>,
    latestYear: int,
    latestPopulation: map<string, nat>)

  /** At most one record per (country name, year): the table's own invariant. */
  predicate UniqueKeys(rs: seq<Record>) {
    forall i, j :: 0 <= i < j < |rs| && rs[i].name == rs[j].name ==> rs[i].year != rs[j].year
  }

  function YearColumn(rs: seq<Record>): (ys: seq<int>)
    ensures |ys| == |rs|
    ensures forall i :: 0 <= i < |rs| ==> ys[i] == rs[i].year
  {
    seq(|rs|, i requires 0 <= i < |rs| => rs[i].year)
  }

  function NameColumn(rs: seq<Record>): (ns: seq<string>)
    ensures |ns| == |rs|
    ensures forall i :: 0 <= i < |rs| ==> ns[i] == rs[i].name
  {
    seq(|rs|, i requires 0 <= i < |rs| => rs[i].name)
  }

  /** Position `i` holds the last occurrence of `k` in `keys`. */
  predicate IsLastIndex(keys: seq<string>, i: int, k: string) {
    && 0 <= i < |keys|
    && keys[i] == k
    && forall j :: i < j < |keys| ==> keys[j] != k
  }

  /**
    `dict(zip(keys, vals))`: each key maps to the value paired with its last
    occurrence, a later pair overwriting an earlier one.
   */
  function DictOf<V>(keys: seq<string>, vals: seq<V>): (m: map<string, V>)
    requires |keys| == |vals|
    ensures forall k :: k in m <==> k in keys
    ensures forall k :: k in m ==> exists i :: IsLastIndex(keys, i, k) && m[k] == vals[i]
    decreases |keys|
  {
    if |keys| == 0 then map[]
    else
      var n := |keys| - 1;
      var m := DictOf(keys[..n], vals[..n]);
      var m' := m[keys[n] := vals[n]];
      assert IsLastIndex(keys, n, keys[n]);
      assert forall k :: k in keys <==> k in keys[..n] || k == keys[n] by {
        assert keys == keys[..n] + [keys[n]];
      }
      assert forall k :: k in m' && k != keys[n] ==> exists i :: IsLastIndex(keys, i, k) && m'[k] == vals[i] by {
        forall k | k in m' && k != keys[n]
          ensures exists i :: IsLastIndex(keys, i, k) && m'[k] == vals[i]
        {
          var i :| IsLastIndex(keys[..n], i, k) && m[k] == vals[..n][i];
          assert IsLastIndex(keys, i, k);
        }
      }
      m'
  }

  /**
    `country_codes = dict(zip(country_name, country_code_3))`: every code in
    the map is the code on some record of that country.
   */
  function CodeIndex(rs: seq<Record>): (m: map<string, string>)
    ensures forall n :: n in m ==> exists i :: 0 <= i < |rs| && rs[i].name == n && rs[i].code == m[n]
  {
    var names := NameColumn(rs);
    var codes := seq(|rs|, i requires 0 <= i < |rs| => rs[i].code);
    var m := DictOf(names, codes);
    assert forall n :: n in m ==> exists i :: 0 <= i < |rs| && rs[i].name == n && rs[i].code == m[n] by {
      forall n | n in m
        ensures exists i :: 0 <= i < |rs| && rs[i].name == n && rs[i].code == m[n]
      {
        var i :| IsLastIndex(names, i, n) && m[n] == codes[i];
        assert rs[i].name == n;
      }
    }
    m
  }

  /** The records of one year, in table order: `countrypops[countrypops["year"] == year]`. */
  function YearSlice(rs: seq<Record>, year: int): (s: seq<Record>)
    ensures forall r :: r in s <==> r in rs && r.year == year
    decreases |rs|
  {
    if |rs| == 0 then []
    else (if rs[0].year == year then [rs[0]] else []) + YearSlice(rs[1..], year)
  }

  /**
    The year slice indexed by country name:
    `.set_index("country_name")["population"]`. Every entry is the
    population on some record of that country in that year.
   */
  function PopulationIn(rs: seq<Record>, year: int): (m: map<string, nat>)
    ensures forall n :: n in m ==>
      exists i :: 0 <= i < |rs| && rs[i].name == n && rs[i].year == year && rs[i].population == m[n]
  {
    var slice := YearSlice(rs, year);
    var names := NameColumn(slice);
    var pops := seq(|slice|, i requires 0 <= i < |slice| => slice[i].population);
    var m := DictOf(names, pops);
    assert forall n :: n in m ==>
      exists i :: 0 <= i < |rs| && rs[i].name == n && rs[i].year == year && rs[i].population == m[n] by {
      forall n | n in m
        ensures exists i :: 0 <= i < |rs| && rs[i].name == n && rs[i].year == year && rs[i].population == m[n]
      {
        var k :| IsLastIndex(names, k, n) && m[n] == pops[k];
        assert slice[k] in slice;
        var i :| 0 <= i < |rs| && rs[i] == slice[k];
        assert rs[i].name == n && rs[i].year == year;
      }
    }
    m
  }

  /** `latest_population.get(name, 0)`: a country with no latest-year record counts as 0. */
  function LatestOrZero(latest: map<string, nat>, name: string): (v: nat)
    ensures name in latest ==> v == latest[name]
    ensures name !in latest ==> v == 0
  {
    if name in latest then latest[name] else 0
  }

  /** The sorted distinct years of a non-empty table start at its least year and end at its greatest. */
  lemma YearBounds(rs: seq<Record>, years: seq<int>)
    requires |rs| > 0
    requires years == SortedDistinctInts(YearColumn(rs))
    ensures |years| > 0
    ensures exists i :: 0 <= i < |rs| && rs[i].year == years[0]
    ensures exists i :: 0 <= i < |rs| && rs[i].year == years[|years| - 1]
    ensures forall i :: 0 <= i < |rs| ==> years[0] <= rs[i].year <= years[|years| - 1]
  {
    assert rs[0].year in YearColumn(rs);
    forall i | 0 <= i < |rs|
      ensures years[0] <= rs[i].year <= years[|years| - 1]
    {
      assert YearColumn(rs)[i] == rs[i].year;
      assert rs[i].year in years;
      var k :| 0 <= k < |years| && years[k] == rs[i].year;
    }
    assert years[0] in YearColumn(rs) && years[|years| - 1] in YearColumn(rs);
  }

  /**
    Startup: `available_years`, `min_year`, `max_year`, `country_codes`,
    `latest_year` and `latest_population`. `max` and `min` of an empty
    column raise, so an empty table stops the dashboard from starting.
   */
  function Load(rs: seq<Record>): (r: Result<Dataset>)
    ensures r.Err? <==> |rs| == 0
    ensures r.Err? ==> r.error == EmptyDataset
    ensures r.Ok? ==> r.value.records == rs
    ensures r.Ok? ==> StrictlyIncreasing(r.value.availableYears)
    ensures r.Ok? ==> forall y :: y in r.value.availableYears <==> exists i :: 0 <= i < |rs| && rs[i].year == y
    ensures r.Ok? ==> exists i :: 0 <= i < |rs| && rs[i].year == r.value.minYear
    ensures r.Ok? ==> exists i :: 0 <= i < |rs| && rs[i].year == r.value.maxYear
    ensures r.Ok? ==> forall i :: 0 <= i < |rs| ==> r.value.minYear <= rs[i].year <= r.value.maxYear
    ensures r.Ok? ==> r.value.latestYear == r.value.maxYear
    ensures r.Ok? ==> r.value.codes == CodeIndex(rs)
    ensures r.Ok? ==> r.value.latestPopulation == PopulationIn(rs, r.value.latestYear)
  {
    if |rs| == 0 then Err(EmptyDataset)
    else
      var years := SortedDistinctInts(YearColumn(rs));
      YearBounds(rs, years);
      var latest := years[|years| - 1];
      Ok(Dataset(rs, years, years[0], latest, CodeIndex(rs), latest, PopulationIn(rs, latest)))
  }

  /** Every country in the table has a code, and it is the code of its last record. */
  lemma CodeIndexLastWins(rs: seq<Record>)
    ensures forall n :: n in CodeIndex(rs) <==> exists i :: 0 <= i < |rs| && rs[i].name == n
    ensures forall n :: n in CodeIndex(rs) ==>
      exists i :: (&& 0 <= i < |rs| && rs[i].name == n && rs[i].code == CodeIndex(rs)[n]
                   && forall j :: i < j < |rs| ==> rs[j].name != n)
  {
    var names := NameColumn(rs);
    forall n
      ensures n in CodeIndex(rs) <==> exists i :: 0 <= i < |rs| && rs[i].name == n
    {
      if n in names {
        var i :| 0 <= i < |names| && names[i] == n;
        assert rs[i].name == n;
      }
    }
    forall n | n in CodeIndex(rs)
      ensures exists i :: (&& 0 <= i < |rs| && rs[i].name == n && rs[i].code == CodeIndex(rs)[n]
                           && forall j :: i < j < |rs| ==> rs[j].name != n)
    {
      var i :| IsLastIndex(names, i, n) && CodeIndex(rs)[n] == rs[i].code;
      assert forall j :: i < j < |rs| ==> rs[j].name != n by {
        forall j | i < j < |rs| ensures rs[j].name != n {
          assert names[j] != n;
        }
      }
    }
  }

  /**
    With one record per (name, year), the year slice maps a name to the
    population of that name's record in the year, and omits a name with
    no record in the year.
   */
  lemma PopulationInMeaning(rs: seq<Record>, year: int, name: string)
    requires UniqueKeys(rs)
    ensures (forall i :: 0 <= i < |rs| ==> !(rs[i].name == name && rs[i].year == year))
      ==> name !in PopulationIn(rs, year)
    ensures forall i :: (0 <= i < |rs| && rs[i].name == name && rs[i].year == year
      ==> name in PopulationIn(rs, year) && PopulationIn(rs, year)[name] == rs[i].population)
  {
    var slice := YearSlice(rs, year);
    var names := NameColumn(slice);
    var pops := seq(|slice|, i requires 0 <= i < |slice| => slice[i].population);
    var m := PopulationIn(rs, year);
    assert m == DictOf(names, pops);
    if name in m {
      var k :| IsLastIndex(names, k, name) && m[name] == pops[k];
      assert slice[k] in slice;
      var j :| 0 <= j < |rs| && rs[j] == slice[k];
      forall i | 0 <= i < |rs| && rs[i].name == name && rs[i].year == year
        ensures m[name] == rs[i].population
      {
        assert rs[j].name == name && rs[j].year == rs[i].year;
        assert j == i;
      }
      assert rs[j].name == name && rs[j].year == year;
    } else {
      forall i | 0 <= i < |rs|
        ensures !(rs[i].name == name && rs[i].year == year)
      {
        if rs[i].year == year {
          assert rs[i] in slice;
          var k :| 0 <= k < |slice| && slice[k] == rs[i];
          assert names[k] == rs[i].name;
        }
      }
    }
  }

  /**
    The sort key of a loaded dataset: a country's population in the latest
    year when it has a record there, 0 when it has none.
   */
  lemma LatestKeyMeaning(ds: Dataset, name: string)
    requires Load(ds.records) == Ok(ds)
    requires UniqueKeys(ds.records)
    ensures (forall i :: 0 <= i < |ds.records| ==> !(ds.records[i].name == name && ds.records[i].year == ds.latestYear))
      ==> LatestOrZero(ds.latestPopulation, name) == 0
    ensures forall i :: (0 <= i < |ds.records| && ds.records[i].name == name && ds.records[i].year == ds.latestYear
      ==> LatestOrZero(ds.latestPopulation, name) == ds.records[i].population)
  {
    assert ds.latestPopulation == PopulationIn(ds.records, ds.latestYear);
    PopulationInMeaning(ds.records, ds.latestYear, name);
  }
}
