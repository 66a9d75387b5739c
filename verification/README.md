# Population dashboard data pipeline

A Dafny model of the data side of a small Shiny dashboard over the
`countrypops` table of (country name, country code, year, population)
records. The dashboard builds a few indexes at startup. It then offers the
countries as choices ordered alphabetically, by largest or by smallest
latest-year population. From the user's selection of countries and a year
range it renders:

- a prompt when nothing is selected;
- a wide table with one row per year and one column per country, with a
  title, a subtitle and a source note listing every selected country with
  its code;
- a line chart of the same records, with x ticks every five years and
  y-axis labels abbreviated to millions ("M") or thousands ("K").

The model is purely functional. The table is a sequence of `Record`s. The
startup indexes are a `Dataset` value. The table and chart renderers are
functions from the dataset and a `Selection` to a `Result`. The error cases
of `Result` are the exceptions the Python code raises:

- `max`/`min` of an empty table at startup;
- a repeated (year, country) pair in the pivot;
- a selected country missing from the code map.

The table renderer runs the pivot before it builds the source note, as the
code does, so a repeated pair is reported before a missing code. A missing
code is reported as the `KeyError` of the first selected country without one.

Modules, in dependency order:

- `Outcomes`: `Option`, `Result` and the error cases.
- `Text`: Python's string order, decimal digits of integers, and `str.join`
  with the position of every part in the joined string.
- `Sorting`: `sorted(set(...))` of years and of names.
- `Dataset`: records and the startup indexes.
- `Countries`: the sort-order effect that fills the country control.
- `Selection`: the inputs, the prompt and the record filter.
- `Pivoting`: `DataFrame.pivot(index='year', columns='country_name')`.
- `Captions`: the source note, the title and the subtitle.
- `Tables`: the table renderer.
- `Plots`: the chart renderer, `format_population` and the x-axis breaks.
- `Dashboard`: how the three outputs relate to one another.

All source cells below are in `great_tables_Shiny_python/shinygreattables.py`.

## Model

| member | source | states |
|---|---|---|
| `Sorting.SortedDistinctInts` | great_tables_Shiny_python/shinygreattables.py:11 | the available years are strictly increasing and are exactly the years that occur in the table |
| `Text.Less` | great_tables_Shiny_python/shinygreattables.py:121 | Python's `<` on `str`: `a < b` exactly when `a` is a proper prefix of `b`, or they agree up to a first position where `a` has the smaller code point |
| `Sorting.SortedDistinctNames` | great_tables_Shiny_python/shinygreattables.py:121 | the distinct country names in ascending string order, each once, exactly the names in the table |
| `Dataset.DictOf` | great_tables_Shiny_python/shinygreattables.py:16 | `dict(zip(keys, values))` has exactly the keys given, and each key maps to the value paired with its last occurrence |
| `Dataset.Load` | great_tables_Shiny_python/shinygreattables.py:11-20 | startup fails exactly on an empty table; otherwise the years are sorted and distinct, min and max year are attained and bound every year, the latest year is the max year, the code map is `CodeIndex` of the table and the latest-population lookup is `PopulationIn` of the latest year |
| `Dataset.CodeIndex` | great_tables_Shiny_python/shinygreattables.py:16 | every name in the code map carries the code of one of that country's records |
| `Dataset.CodeIndexLastWins` | great_tables_Shiny_python/shinygreattables.py:16 | every country in the table has a code, no other name has one, and a country's code is the one on its last record |
| `Dataset.YearSlice` | great_tables_Shiny_python/shinygreattables.py:20 | the latest-year slice holds exactly the records of that year |
| `Dataset.PopulationIn` | great_tables_Shiny_python/shinygreattables.py:20 | every entry of the latest-population lookup is the population on a record of that country in that year |
| `Dataset.LatestOrZero` | great_tables_Shiny_python/shinygreattables.py:123-125 | `latest_population.get(x, 0)`: the stored population for a country in the lookup, 0 for one missing from it |
| `Dataset.PopulationInMeaning` | great_tables_Shiny_python/shinygreattables.py:20 | with one record per (country, year), the year's population lookup maps each country with a record that year to its population and omits the others |
| `Dataset.LatestKeyMeaning` | great_tables_Shiny_python/shinygreattables.py:19-20 | the sort key `latest_population.get(x, 0)` of a loaded table is the country's latest-year population, or 0 without a latest-year record |
| `Countries.ParseSortOrder` | great_tables_Shiny_python/shinygreattables.py:122-125 | the order is "largest" exactly for the string "largest" and "smallest" exactly for "smallest"; any other string keeps the alphabetical list |
| `Countries.InsertByKey` | great_tables_Shiny_python/shinygreattables.py:123 | one insertion step of the stable sort adds exactly one element and keeps the others |
| `Countries.InsertKeyOrdered` | great_tables_Shiny_python/shinygreattables.py:123-125 | inserting into a key-ordered list keeps it key-ordered |
| `Countries.SortByKey` | great_tables_Shiny_python/shinygreattables.py:123-125 | `sorted(..., key=...)` is a permutation of its input, and no element has a strictly better key than one before it |
| `Countries.InsertRanked` | great_tables_Shiny_python/shinygreattables.py:123-125 | inserting a name that precedes every element alphabetically keeps the list ordered by key and then alphabetically |
| `Countries.SortByKeyRanked` | great_tables_Shiny_python/shinygreattables.py:121-125 | stability: re-sorting the alphabetical list by key leaves countries with equal keys in alphabetical order |
| `Countries.RankedDistinct` | great_tables_Shiny_python/shinygreattables.py:121-125 | a list ordered by key and then strictly alphabetically has no repeated country |
| `Countries.CountryChoices` | great_tables_Shiny_python/shinygreattables.py:121-126 | every country of the table appears exactly once; "largest" gives non-increasing and "smallest" non-decreasing latest population, any other value gives alphabetical order; equal keys are always alphabetical |
| `Selection.SelectionMessage` | great_tables_Shiny_python/shinygreattables.py:129-132 | the prompt "Please select at least one country." exactly when nothing is selected, the empty string otherwise |
| `Selection.FilterRecords` | great_tables_Shiny_python/shinygreattables.py:139-143 | every kept record is a table record of a selected country within `[start, end]`, every such record is kept, and `start > end` keeps nothing |
| `Selection.FilterCounts` | great_tables_Shiny_python/shinygreattables.py:211-215 | the kept records are exactly the matching sub-multiset of the table: each matching record as often as the table holds it, no other |
| `Selection.FilterUniqueKeys` | great_tables_Shiny_python/shinygreattables.py:139-143 | filtering a table with one record per (country, year) leaves one record per (country, year) |
| `Selection.KeptYear` | great_tables_Shiny_python/shinygreattables.py:139-143 | a year occurs among the kept records exactly when it is in range and some selected country has a record for it |
| `Selection.KeptName` | great_tables_Shiny_python/shinygreattables.py:139-143 | a country occurs among the kept records exactly when it is selected and has a record in range |
| `Pivoting.Cell` | great_tables_Shiny_python/shinygreattables.py:146 | a pivot cell is blank exactly when no record has its year and country, and otherwise holds such a record's population, the only one when keys are unique |
| `Pivoting.PivotTable` | great_tables_Shiny_python/shinygreattables.py:146-147 | the pivot fails exactly on a repeated (year, country) pair; otherwise its columns are the record countries, alphabetical, its rows the record years, ascending, each row has one cell per column and each cell is the `Cell` of its year and column |
| `Pivoting.ColumnMembers` | great_tables_Shiny_python/shinygreattables.py:146 | a name or year is in its column exactly when some record carries it |
| `Captions.CodeEntries` | great_tables_Shiny_python/shinygreattables.py:152 | one "name (code)" entry per selected country in selection order, or the `KeyError` of the first selected country without a code |
| `Captions.SourceNote` | great_tables_Shiny_python/shinygreattables.py:152 | the note exists exactly when every selected country has a code, fails with the first missing one, and starts with "Countries and associated codes: " |
| `Text.Join` | great_tables_Shiny_python/shinygreattables.py:152 | `", ".join(parts)`; its length and the position of every part and separator are stated by the three lemmas below |
| `Text.JoinLength` | great_tables_Shiny_python/shinygreattables.py:152 | a join of parts is exactly as long as every part plus one separator between each two |
| `Text.JoinPartAt` | great_tables_Shiny_python/shinygreattables.py:152 | part `i` occurs in the join at its offset, after every earlier part and its separator |
| `Text.JoinSepAt` | great_tables_Shiny_python/shinygreattables.py:152 | right after every part but the last, the join holds the separator |
| `Captions.SourceNoteEntries` | great_tables_Shiny_python/shinygreattables.py:228 | after the prefix, the note holds one entry per selected country, entry `i` at its offset in the joined list, and it ends with the last entry |
| `Captions.SourceNoteSeparators` | great_tables_Shiny_python/shinygreattables.py:152 | in the note, ", " follows every entry but the last |
| `Captions.Title` | great_tables_Shiny_python/shinygreattables.py:154-155 | the title is the country for a single selection and "Country Comparison" for several |
| `Text.NatToString` | great_tables_Shiny_python/shinygreattables.py:225 | the decimal text of a whole number: non-empty digits, no leading zero, whose value is the number |
| `Text.IntToStringRoundTrip` | great_tables_Shiny_python/shinygreattables.py:169 | reading a year's decimal text back gives the year |
| `Text.IntToString` | great_tables_Shiny_python/shinygreattables.py:84 | `str(year)`: decimal digits with no leading zero, after a minus sign exactly for a negative value, denoting the year |
| `Text.DecimalUnique` | great_tables_Shiny_python/shinygreattables.py:84 | an integer has exactly one such decimal form |
| `Captions.Subtitle` | great_tables_Shiny_python/shinygreattables.py:169 | the subtitle is "Data from A to B" where A and B are the `str` forms of the start and end years, and read back as them |
| `Captions.SubtitleDetermined` | great_tables_Shiny_python/shinygreattables.py:193-196 | any "Data from A to B" with A and B the decimal forms of the two years is the subtitle, so the text is fixed |
| `Tables.PopulationTable` | great_tables_Shiny_python/shinygreattables.py:134-204 | empty placeholder exactly when nothing is selected; fails exactly on a repeated pair (reported first) or a selected country without a code, then with the `KeyError` of the first selected country without one; single selection: country title and "Population" label on its column; several: "Country Comparison" and a "Population" spanner over the selection; subtitle, note and pivot as above |
| `Tables.FilteredPivot` | great_tables_Shiny_python/shinygreattables.py:139-146 | the pivot of the filtered records has exactly the in-range years of the selected countries as rows and the selected countries with a record in range as columns |
| `Tables.TableRows` | great_tables_Shiny_python/shinygreattables.py:139-146 | the rendered table's rows are the in-range years some selected country has data for, ascending |
| `Tables.TableColumns` | great_tables_Shiny_python/shinygreattables.py:139-146 | the rendered table's columns are the selected countries with data in range, alphabetical |
| `Tables.FilteredCellPlace` | great_tables_Shiny_python/shinygreattables.py:139-146 | each cell of the pivot of filtered records belongs to a selected country and an in-range year, and the filtered records have one record per pair |
| `Tables.KeptCell` | great_tables_Shiny_python/shinygreattables.py:139-146 | for a selected country and an in-range year, the cell over the filtered records is blank exactly when the whole table has no record for the pair, otherwise that record's population |
| `Tables.TableCells` | great_tables_Shiny_python/shinygreattables.py:146 | each cell of the rendered table holds the population of its country's record for its year, blank when there is none |
| `Plots.Breaks` | great_tables_Shiny_python/shinygreattables.py:241 | `range(start, end + 1, 5)`: `(end - start) / 5 + 1` ticks `start, start + 5, ...`, none when `start > end` |
| `Plots.BreaksMembers` | great_tables_Shiny_python/shinygreattables.py:241 | a year is a tick exactly when it lies in `[start, end]` a multiple of five years after `start` |
| `Plots.RoundHalfEven` | great_tables_Shiny_python/shinygreattables.py:221 | the `.0f` rounding: the result is within half a unit of the exact quotient, and even on an exact half |
| `Plots.NearestHalfEvenUnique` | great_tables_Shiny_python/shinygreattables.py:221-225 | at most one integer is nearest to a quotient with ties to even, so the rounding rule fixes the printed number |
| `Plots.FormatPopulation` | great_tables_Shiny_python/shinygreattables.py:220-225 | from one million up: the rounded millions then "M"; from one thousand up: the rounded thousands then "K"; below: the decimal digits of the value, no leading zero |
| `Plots.FormatPopulationDetermined` | great_tables_Shiny_python/shinygreattables.py:220-223 | any integer nearest to the value in millions (thousands), ties to even, is exactly the number printed before "M" ("K") |
| `Plots.FormatPopulationReadBack` | great_tables_Shiny_python/shinygreattables.py:220-225 | a label read back as a number is within half a million of an "M" value, half a thousand of a "K" value, and exact below one thousand |
| `Plots.FormatPopulationExamples` | great_tables_Shiny_python/shinygreattables.py:220-225 | 2,500,000 gives "2M" and 3,500,000 "4M" (ties to even), 45,000 "45K", 999,999 "1000K", 900 "900" |
| `Plots.FormatAll` | great_tables_Shiny_python/shinygreattables.py:218-219 | a list of tick values is labelled elementwise, same length and order |
| `Plots.PopulationPlot` | great_tables_Shiny_python/shinygreattables.py:206-241 | no chart exactly when nothing is selected; fails exactly when a selected country has no code, with the `KeyError` of the first one; otherwise the filtered records, "Population Time Series", the source note as caption and the five-year ticks |
| `Dashboard.EmptySelectionOutputs` | great_tables_Shiny_python/shinygreattables.py:129-137 | the prompt, the empty table placeholder and the missing chart occur together |
| `Dashboard.ChosenCountriesRender` | great_tables_Shiny_python/shinygreattables.py:16 | countries picked from the offered choices all have codes, so the chart never fails and the table fails only on a repeated pair, never for a table with unique keys |
| `Dashboard.TableAndPlotAgree` | great_tables_Shiny_python/shinygreattables.py:211-228 | whenever the table renders, the chart renders too, drawing the records the table pivots, with the same source note |

## Left out

- Shiny UI, CSS, reactivity and the `App` wiring: the model has no event
  loop. `update_selectize` is modelled only as the list of choices it is given.
- great_tables styling: `cols_label`, `fmt_number`, `cols_width` and
  `cols_align` only configure the rendered table. The model records only the
  title, subtitle, source note and which columns the "Population" label or
  spanner covers.
- plotnine: the aesthetics, geometry and theme are rendering only. The
  chart is modelled as its data, title, caption and x ticks. The y labels
  are `format_population`, which is modelled on its own.
- Loading `countrypops`: the table is any sequence of records. Pandas
  dtypes and NaN handling are not modelled. A blank pivot cell is `None`
  rather than a float NaN.
- Plots.FormatPopulation: modelled on non-negative whole numbers with exact
  arithmetic, not on the binary floats that plotnine actually passes. For
  whole numbers below 2^53, the float quotient is an exact half exactly when
  the true quotient is, so rounding half to even agrees. Fractional or
  negative tick values are not modelled.
- Start and end years: the select controls return strings, which the model
  takes as the integers they name. The subtitle prints them back in decimal,
  which is how the controls render their choices.
- A selected country whose column the pivot lacks: the table has one
  column per selected country with a record in range, while `cols_label`
  (single selection), `fmt_number`, `tab_spanner` and `cols_width` name every
  selected country. What great_tables does with a label or format for a
  missing column is not modelled.
- `country_codes` for a name with several codes keeps the last one, as
  `dict(zip(...))` does. `latest_population` under repeated (country,
  latest-year) records also keeps the last one, which pandas `.get` does not
  do (it returns a Series). `Dataset.PopulationInMeaning` and
  `Dataset.LatestKeyMeaning` therefore require one record per (country, year).
