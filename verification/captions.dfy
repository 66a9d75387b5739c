/**
  The texts around the table and the chart: the source note (also the
  chart's caption), the table title and the table subtitle.
 */
module Captions {

  import opened Outcomes
  import opened Text

  const NotePrefix: string := "Countries and associated codes: "
  const NoteSeparator: string := ", "
  const ComparisonTitle: string := "Country Comparison"

  /** `f"{country} ({country_codes[country]})"` once the code is known. */
  function CodeEntry(name: string, code: string): string {
    name + " (" + code + ")"
  }

  /**
    The list comprehension over the selection: one entry per selected
    country in selection order, or the `KeyError` of the first selected
    country that has no code.
   */
  function CodeEntries(codes: map<string, string>, countries: seq<string>): (r: Result<seq<string>>)
    ensures r.Ok? <==> forall i :: 0 <= i < |countries| ==> countries[i] in codes
    ensures r.Ok? ==> |r.value| == |countries|
    ensures r.Ok? ==> forall i :: 0 <= i < |countries| ==>
      countries[i] in codes && r.value[i] == CodeEntry(countries[i], codes[countries[i]])
    ensures r.Err? ==> exists i :: (&& 0 <= i < |countries| && countries[i] !in codes
                                    && r.error == UnknownCountry(countries[i])
                                    && forall j :: 0 <= j < i ==> countries[j] in codes)
    decreases |countries|
  {
    if |countries| == 0 then Ok([])
    else if countries[0] !in codes then Err(UnknownCountry(countries[0]))
    else
      var rest := CodeEntries(codes, countries[1..]);
      assert forall i :: 1 <= i < |countries| ==> countries[i] == countries[1..][i - 1];
      if rest.Err? then
        assert exists i :: (&& 1 <= i < |countries| && countries[i] !in codes
                            && rest.error == UnknownCountry(countries[i])
                            && forall j :: 0 <= j < i ==> countries[j] in codes) by {
          var i :| (&& 0 <= i < |countries[1..]| && countries[1..][i] !in codes
                    && rest.error == UnknownCountry(countries[1..][i])
                    && forall j :: 0 <= j < i ==> countries[1..][j] in codes);
          assert forall j :: 0 <= j < i + 1 ==> countries[j] in codes by {
            forall j | 0 < j < i + 1 ensures countries[j] in codes {
              assert countries[1..][j - 1] == countries[j];
            }
          }
        }
        Err(rest.error)
      else
        Ok([CodeEntry(countries[0], codes[countries[0]])] + rest.value)
  }

  /** Where entry `i` starts in the joined list of entries. */
  function EntryStart(entries: seq<string>, i: nat): nat
    requires i <= |entries|
  {
    Offset(entries, NoteSeparator, i)
  }

  /**
    `"Countries and associated codes: " + ", ".join(entries)`: fails like
    `CodeEntries`, otherwise the prefix followed by the joined entries.
   */
  function SourceNote(codes: map<string, string>, countries: seq<string>): (r: Result<string>)
    ensures r.Ok? <==> forall i :: 0 <= i < |countries| ==> countries[i] in codes
    ensures r.Err? ==> r == Err(CodeEntries(codes, countries).error)
    ensures r.Ok? ==> |NotePrefix| <= |r.value| && r.value[..|NotePrefix|] == NotePrefix
  {
    match CodeEntries(codes, countries)
    case Err(e) => Err(e)
    case Ok(entries) => Ok(NotePrefix + Join(entries, NoteSeparator))
  }

  /**
    The source note in detail: after the prefix, entry `i` sits at the
    offset of entry `i` in the joined list, and the note ends with the last
    entry. Entry `i` names selected country `i` and its code (`CodeEntries`).
   */
  lemma SourceNoteEntries(codes: map<string, string>, countries: seq<string>, entries: seq<string>, note: string)
    requires |countries| > 0
    requires CodeEntries(codes, countries) == Ok(entries)
    requires SourceNote(codes, countries) == Ok(note)
    ensures |entries| == |countries|
    ensures |note| == |NotePrefix| + EntryStart(entries, |entries| - 1) + |entries[|entries| - 1]|
    ensures forall i :: 0 <= i < |entries| ==> PieceAt(note, |NotePrefix| + EntryStart(entries, i), entries[i])
  {
    assert note == NotePrefix + Join(entries, NoteSeparator);
    PrefixedJoinLength(NotePrefix, entries, NoteSeparator);
    PrefixedJoinParts(NotePrefix, entries, NoteSeparator);
  }

  /** In the source note, ", " follows every entry but the last. */
  lemma SourceNoteSeparators(codes: map<string, string>, countries: seq<string>, entries: seq<string>, note: string)
    requires CodeEntries(codes, countries) == Ok(entries)
    requires SourceNote(codes, countries) == Ok(note)
    ensures forall i :: 0 <= i < |entries| - 1 ==>
      PieceAt(note, |NotePrefix| + EntryStart(entries, i) + |entries[i]|, NoteSeparator)
  {
    assert note == NotePrefix + Join(entries, NoteSeparator);
    PrefixedJoinSeps(NotePrefix, entries, NoteSeparator);
  }

  /** `tab_header(title=...)`: the country for a single selection, otherwise "Country Comparison". */
  function Title(countries: seq<string>): (t: string)
    requires |countries| > 0
    ensures |countries| == 1 ==> t == countries[0]
    ensures |countries| > 1 ==> t == ComparisonTitle
  {
    if |countries| == 1 then countries[0] else ComparisonTitle
  }

  /**
    `f"Data from {start} to {end}"`: the two years are written as `str`
    writes them, so reading the numbers back gives the range.
   */
  function Subtitle(start: int, end: int): (s: string)
    ensures exists a, b :: (&& s == "Data from " + a + " to " + b
                            && IsDecimal(a, start) && IsDecimal(b, end)
                            && ParseInt(a) == Some(start) && ParseInt(b) == Some(end))
  {
    IntToStringRoundTrip(start);
    IntToStringRoundTrip(end);
    "Data from " + IntToString(start) + " to " + IntToString(end)
  }

  /** The subtitle is fixed by the decimal forms of the two years. */
  lemma SubtitleDetermined(start: int, end: int, a: string, b: string)
    requires IsDecimal(a, start) && IsDecimal(b, end)
    ensures Subtitle(start, end) == "Data from " + a + " to " + b
  {
    DecimalUnique(a, IntToString(start), start);
    DecimalUnique(b, IntToString(end), end);
  }
}
