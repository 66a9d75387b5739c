/**
  `data.pivot(index='year', columns='country_name', values='population')`
  followed by `reset_index()`: long records become one row per year with
  one column per country. Rows and columns come out in ascending order,
  a missing (year, country) combination is a blank cell, and a repeated
  combination is an error.
 */
module Pivoting {

  import opened Outcomes
  import opened Sorting
  import opened Dataset

  /** One row of the wide table: its year and one cell per country column. */
  datatype Row = Row(year: int, cells: seq<Option<nat>>)

  /** The wide table: the country columns after the year column, and the rows. */
  datatype Pivot = Pivot(columns: seq<string>, rows: seq<Row>)

  predicate Matches(r: Record, year: int, name: string) {
    r.name == name && r.year == year
  }

  /**
    The cell for (`year`, `name`): blank exactly when no record has that
    year and name, otherwise the population of that record.
   */
  function Cell(rs: seq<Record>, year: int, name: string): (c: Option<nat>)
    ensures c.None? <==> forall i :: 0 <= i < |rs| ==> !Matches(rs[i], year, name)
    ensures c.Some? ==> exists i :: 0 <= i < |rs| && Matches(rs[i], year, name) && rs[i].population == c.value
    ensures UniqueKeys(rs) ==>
      forall i :: 0 <= i < |rs| && Matches(rs[i], year, name) ==> c == Some(rs[i].population)
    decreases |rs|
  {
    if |rs| == 0 then None
    else if Matches(rs[0], year, name) then Some(rs[0].population)
    else
      var c := Cell(rs[1..], year, name);
      assert forall i :: 1 <= i < |rs| ==> rs[i] == rs[1..][i - 1];
      assert UniqueKeys(rs) ==> UniqueKeys(rs[1..]);
      c
  }

  function RowYears(p: Pivot): (ys: seq<int>)
    ensures |ys| == |p.rows|
    ensures forall i :: 0 <= i < |p.rows| ==> ys[i] == p.rows[i].year
  {
    seq(|p.rows|, i requires 0 <= i < |p.rows| => p.rows[i].year)
  }

  /**
    The pivot: fails exactly when a (year, country) pair repeats; otherwise
    the columns are the countries of the records once each, alphabetical,
    the rows are their years once each, ascending, every row has one cell
    per column and each cell is the `Cell` for its year and column.
   */
  function PivotTable(rs: seq<Record>): (r: Result<Pivot>)
    ensures r.Err? <==> !UniqueKeys(rs)
    ensures r.Err? ==> r.error == DuplicateEntries
    ensures r.Ok? ==> Alphabetical(r.value.columns)
    ensures r.Ok? ==> forall n :: n in r.value.columns <==> exists i :: 0 <= i < |rs| && rs[i].name == n
    ensures r.Ok? ==> StrictlyIncreasing(RowYears(r.value))
    ensures r.Ok? ==> forall y :: y in RowYears(r.value) <==> exists i :: 0 <= i < |rs| && rs[i].year == y
    ensures r.Ok? ==> forall i :: 0 <= i < |r.value.rows| ==> |r.value.rows[i].cells| == |r.value.columns|
    ensures r.Ok? ==> forall i, j :: 0 <= i < |r.value.rows| && 0 <= j < |r.value.columns| ==>
      r.value.rows[i].cells[j] == Cell(rs, r.value.rows[i].year, r.value.columns[j])
  {
    if !UniqueKeys(rs) then Err(DuplicateEntries)
    else
      var cols := SortedDistinctNames(NameColumn(rs));
      var years := SortedDistinctInts(YearColumn(rs));
      var p := Pivot(cols, seq(|years|, i requires 0 <= i < |years| =>
        Row(years[i], seq(|cols|, j requires 0 <= j < |cols| => Cell(rs, years[i], cols[j])))));
      assert RowYears(p) == years;
      ColumnMembers(rs);
      Ok(p)
  }

  /** A value is in a column of the records exactly when some record carries it. */
  lemma ColumnMembers(rs: seq<Record>)
    ensures forall n :: n in NameColumn(rs) <==> exists i :: 0 <= i < |rs| && rs[i].name == n
    ensures forall y :: y in YearColumn(rs) <==> exists i :: 0 <= i < |rs| && rs[i].year == y
  {
    forall n
      ensures n in NameColumn(rs) <==> exists i :: 0 <= i < |rs| && rs[i].name == n
    {
      if exists i :: 0 <= i < |rs| && rs[i].name == n {
        var i :| 0 <= i < |rs| && rs[i].name == n;
        assert NameColumn(rs)[i] == n;
      }
    }
    forall y
      ensures y in YearColumn(rs) <==> exists i :: 0 <= i < |rs| && rs[i].year == y
    {
      if exists i :: 0 <= i < |rs| && rs[i].year == y {
        var i :| 0 <= i < |rs| && rs[i].year == y;
        assert YearColumn(rs)[i] == y;
      }
    }
  }
}
