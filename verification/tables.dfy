/**
  `population_table`: nothing when no country is selected; otherwise the
  selected records pivoted to one row per year, with a header, a column
  layout and the source note. Styling that only reaches the table library
  (widths, alignment, number format) is not modelled; the layout records
  which columns the "Population" label is attached to.
 */
module Tables {

  import opened Outcomes
  import opened Sorting
  import opened Dataset
  import opened Selection
  import opened Pivoting
  import opened Captions

  const ValueLabel: string := "Population"

  datatype Header = Header(title: string, subtitle: string)

  /**
    One selected country: its column is relabelled "Population". Several:
    a "Population" spanner over the selected countries' columns.
   */
  datatype Layout = SingleValue(column: string) | Spanner(heading: string, columns: seq<string>)

  /** The table output: an empty placeholder or a formatted table. */
  datatype TableView =
    | EmptyDiv
    | GreatTable(data: Pivot, header: Header, layout: Layout, sourceNote: string)

  /** The records the table and the chart are drawn from. */
  function Kept(ds: Dataset, sel: Selection): seq<Record> {
    FilterRecords(ds.records, sel.countries, sel.startYear, sel.endYear)
  }

  /**
    The table renderer. The pivot runs before the source note, so a
    repeated (year, country) pair is reported before a missing code.
   */
  function PopulationTable(ds: Dataset, sel: Selection): (r: Result<TableView>)
    ensures |sel.countries| == 0 <==> r == Ok(EmptyDiv)
    ensures r.Err? <==> (|sel.countries| > 0 &&
      (!UniqueKeys(Kept(ds, sel)) || exists i :: 0 <= i < |sel.countries| && sel.countries[i] !in ds.codes))
    ensures r.Err? && !UniqueKeys(Kept(ds, sel)) ==> r.error == DuplicateEntries
    ensures r.Err? && UniqueKeys(Kept(ds, sel)) ==> r.error == CodeEntries(ds.codes, sel.countries).error
    ensures r.Ok? && |sel.countries| > 0 ==> r.value.GreatTable?
    ensures r.Ok? && |sel.countries| == 1 ==>
      r.value.header.title == sel.countries[0] && r.value.layout == SingleValue(sel.countries[0])
    ensures r.Ok? && |sel.countries| > 1 ==>
      r.value.header.title == ComparisonTitle && r.value.layout == Spanner(ValueLabel, sel.countries)
    ensures r.Ok? && |sel.countries| > 0 ==>
      r.value.header.subtitle == Subtitle(sel.startYear, sel.endYear) &&
      SourceNote(ds.codes, sel.countries) == Ok(r.value.sourceNote) &&
      PivotTable(Kept(ds, sel)) == Ok(r.value.data)
  {
    if |sel.countries| == 0 then Ok(EmptyDiv)
    else
      match PivotTable(Kept(ds, sel))
      case Err(e) => Err(e)
      case Ok(p) =>
        match SourceNote(ds.codes, sel.countries)
        case Err(e) => Err(e)
        case Ok(note) =>
          var layout := if |sel.countries| == 1 then SingleValue(sel.countries[0]) else Spanner(ValueLabel, sel.countries);
          Ok(GreatTable(p, Header(Title(sel.countries), Subtitle(sel.startYear, sel.endYear)), layout, note))
  }

  /**
    The pivot of filtered records: its rows are the in-range years some
    selected country has a record for, and its columns the selected
    countries with a record in range.
   */
  lemma FilteredPivot(rs: seq<Record>, selected: seq<string>, start: int, end: int, kept: seq<Record>, p: Pivot)
    requires kept == FilterRecords(rs, selected, start, end)
    requires PivotTable(kept) == Ok(p)
    ensures forall y :: y in RowYears(p) <==> (
      start <= y <= end && exists k :: 0 <= k < |rs| && rs[k].name in selected && rs[k].year == y)
    ensures forall n :: n in p.columns <==> (
      n in selected && exists k :: 0 <= k < |rs| && rs[k].name == n && start <= rs[k].year <= end)
  {
    forall y
      ensures y in RowYears(p) <==> (
        start <= y <= end && exists k :: 0 <= k < |rs| && rs[k].name in selected && rs[k].year == y)
    {
      KeptYear(rs, selected, start, end, kept, y);
    }
    forall n
      ensures n in p.columns <==> (
        n in selected && exists k :: 0 <= k < |rs| && rs[k].name == n && start <= rs[k].year <= end)
    {
      KeptName(rs, selected, start, end, kept, n);
    }
  }

  /**
    The rows of the table are the years in `[start, end]` for which some
    selected country has a record, ascending.
   */
  lemma TableRows(ds: Dataset, sel: Selection, p: Pivot)
    requires PopulationTable(ds, sel).Ok? && PopulationTable(ds, sel).value.GreatTable?
    requires p == PopulationTable(ds, sel).value.data
    ensures StrictlyIncreasing(RowYears(p))
    ensures forall y :: y in RowYears(p) <==> (
      sel.startYear <= y <= sel.endYear &&
      exists k :: 0 <= k < |ds.records| && ds.records[k].name in sel.countries && ds.records[k].year == y)
  {
    FilteredPivot(ds.records, sel.countries, sel.startYear, sel.endYear, Kept(ds, sel), p);
  }

  /**
    The columns of the table are the selected countries that have a record
    in `[start, end]`, alphabetical.
   */
  lemma TableColumns(ds: Dataset, sel: Selection, p: Pivot)
    requires PopulationTable(ds, sel).Ok? && PopulationTable(ds, sel).value.GreatTable?
    requires p == PopulationTable(ds, sel).value.data
    ensures Alphabetical(p.columns)
    ensures forall n :: n in p.columns <==> (
      n in sel.countries &&
      exists k :: 0 <= k < |ds.records| && ds.records[k].name == n && sel.startYear <= ds.records[k].year <= sel.endYear)
  {
    FilteredPivot(ds.records, sel.countries, sel.startYear, sel.endYear, Kept(ds, sel), p);
  }

  /** Each cell of the pivot of filtered records is the `Cell` of a selected country and an in-range year. */
  lemma FilteredCellPlace(rs: seq<Record>, selected: seq<string>, start: int, end: int, kept: seq<Record>,
                          p: Pivot, i: nat, j: nat)
    requires kept == FilterRecords(rs, selected, start, end)
    requires PivotTable(kept) == Ok(p)
    requires i < |p.rows| && j < |p.columns|
    ensures UniqueKeys(kept)
    ensures p.columns[j] in selected && start <= p.rows[i].year <= end
    ensures |p.rows[i].cells| == |p.columns|
    ensures p.rows[i].cells[j] == Cell(kept, p.rows[i].year, p.columns[j])
  {
    assert RowYears(p)[i] == p.rows[i].year;
    assert p.rows[i].year in RowYears(p) && p.columns[j] in p.columns;
    FilteredPivot(rs, selected, start, end, kept, p);
  }

  /**
    For a selected country and an in-range year, the cell over the filtered
    records reads the whole table: blank exactly when the table has no
    record for the pair, otherwise that record's population.
   */
  lemma KeptCell(rs: seq<Record>, selected: seq<string>, start: int, end: int, kept: seq<Record>, y: int, n: string)
    requires kept == FilterRecords(rs, selected, start, end)
    requires UniqueKeys(kept)
    requires n in selected && start <= y <= end
    ensures Cell(kept, y, n).None? <==> forall k :: 0 <= k < |rs| ==> !Matches(rs[k], y, n)
    ensures forall k :: 0 <= k < |rs| && Matches(rs[k], y, n) ==> Cell(kept, y, n) == Some(rs[k].population)
  {
    forall k | 0 <= k < |rs| && Matches(rs[k], y, n)
      ensures Cell(kept, y, n) == Some(rs[k].population)
    {
      assert Keeps(selected, start, end, rs[k]);
      var m :| 0 <= m < |kept| && kept[m] == rs[k];
    }
    if forall k :: 0 <= k < |rs| ==> !Matches(rs[k], y, n) {
      forall m | 0 <= m < |kept|
        ensures !Matches(kept[m], y, n)
      {
        assert kept[m] in rs;
      }
    }
  }

  /**
    Every cell of the table: the cell in row `i` and column `j` is the
    population of the column country's record for the row's year, or blank
    when the country has no record for that year.
   */
  lemma TableCells(ds: Dataset, sel: Selection, p: Pivot, i: nat, j: nat)
    requires PopulationTable(ds, sel).Ok? && PopulationTable(ds, sel).value.GreatTable?
    requires p == PopulationTable(ds, sel).value.data
    requires i < |p.rows| && j < |p.columns|
    ensures |p.rows[i].cells| == |p.columns|
    ensures p.rows[i].cells[j].None? <==>
      forall k :: 0 <= k < |ds.records| ==> !Matches(ds.records[k], p.rows[i].year, p.columns[j])
    ensures forall k :: 0 <= k < |ds.records| && Matches(ds.records[k], p.rows[i].year, p.columns[j]) ==>
      p.rows[i].cells[j] == Some(ds.records[k].population)
  {
    var kept := Kept(ds, sel);
    FilteredCellPlace(ds.records, sel.countries, sel.startYear, sel.endYear, kept, p, i, j);
    KeptCell(ds.records, sel.countries, sel.startYear, sel.endYear, kept, p.rows[i].year, p.columns[j]);
  }
}
