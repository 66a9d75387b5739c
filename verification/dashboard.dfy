/**
  The three outputs side by side: the prompt, the table and the chart are
  computed from the same selection, and agree with one another.
 */
module Dashboard {

  import opened Outcomes
  import opened Dataset
  import opened Countries
  import opened Selection
  import opened Pivoting
  import opened Captions
  import opened Tables
  import opened Plots

  /**
    Nothing selected: the prompt, an empty placeholder for the table and no
    chart. Something selected: no prompt, and neither placeholder.
   */
  lemma EmptySelectionOutputs(ds: Dataset, sel: Selection)
    ensures SelectionMessage(sel.countries) == Prompt <==> PopulationTable(ds, sel) == Ok(EmptyDiv)
    ensures PopulationTable(ds, sel) == Ok(EmptyDiv) <==> PopulationPlot(ds, sel) == Ok(NoPlot)
  {
    assert Prompt != "";
  }

  /**
    Countries picked from the offered choices all have codes, so for a
    loaded table the chart never fails and the table fails only on a
    repeated (year, country) pair, which a table with one record per
    (country, year) never has.
   */
  lemma ChosenCountriesRender(ds: Dataset, order: string, sel: Selection)
    requires Load(ds.records) == Ok(ds)
    requires forall i :: 0 <= i < |sel.countries| ==> sel.countries[i] in CountryChoices(ds, order)
    ensures SourceNote(ds.codes, sel.countries).Ok?
    ensures PopulationPlot(ds, sel).Ok?
    ensures PopulationTable(ds, sel).Err? <==> |sel.countries| > 0 && !UniqueKeys(Kept(ds, sel))
    ensures UniqueKeys(ds.records) ==> PopulationTable(ds, sel).Ok?
  {
    assert ds.codes == CodeIndex(ds.records);
    CodeIndexLastWins(ds.records);
    forall i | 0 <= i < |sel.countries|
      ensures sel.countries[i] in ds.codes
    {
      assert sel.countries[i] in CountryChoices(ds, order);
    }
    if UniqueKeys(ds.records) {
      FilterUniqueKeys(ds.records, sel.countries, sel.startYear, sel.endYear);
    }
  }

  /**
    When the table renders, so does the chart: it draws the records the
    table pivots, with the table's source note as its caption.
   */
  lemma TableAndPlotAgree(ds: Dataset, sel: Selection)
    requires PopulationTable(ds, sel).Ok? && PopulationTable(ds, sel).value.GreatTable?
    ensures PopulationPlot(ds, sel).Ok? && PopulationPlot(ds, sel).value.LinePlot?
    ensures PopulationPlot(ds, sel).value.caption == PopulationTable(ds, sel).value.sourceNote
    ensures PivotTable(PopulationPlot(ds, sel).value.data) == Ok(PopulationTable(ds, sel).value.data)
  {
  }
}
