/**
  `population_plot`: nothing when no country is selected; otherwise a line
  chart of the selected records with the source note as its caption, x-axis
  ticks every five years from the start year and y-axis labels abbreviated
  to millions or thousands. Only the data the chart is given is modelled,
  not how it is drawn.
 */
module Plots {

  import opened Outcomes
  import opened Text
  import opened Dataset
  import opened Selection
  import opened Captions

  const PlotTitle: string := "Population Time Series"
  const Million: nat := 1_000_000
  const Thousand: nat := 1_000

  /** The chart output: no plot, or a line chart of `data` with its texts and x ticks. */
  datatype PlotView =
    | NoPlot
    | LinePlot(data: seq<Record>, title: string, caption: string, xBreaks: seq<int>)

  /**
    `range(start, end + 1, 5)`: every fifth year from `start` on, up to and
    including `end` when it falls on the step; nothing when `start > end`.
   */
  function Breaks(start: int, end: int): (r: seq<int>)
    ensures |r| == if start > end then 0 else (end - start) / 5 + 1
    ensures forall i :: 0 <= i < |r| ==> r[i] == start + 5 * i
    decreases if start > end then 0 else end - start + 1
  {
    if start > end then []
    else
      var rest := Breaks(start + 5, end);
      assert |rest| == if start + 5 > end then 0 else (end - start - 5) / 5 + 1;
      [start] + rest
  }

  /** A year is a tick exactly when it lies in `[start, end]` a whole number of steps from `start`. */
  lemma BreaksMembers(start: int, end: int, y: int)
    ensures y in Breaks(start, end) <==> start <= y <= end && (y - start) % 5 == 0
  {
    var r := Breaks(start, end);
    if y in r {
      var i :| 0 <= i < |r| && r[i] == y;
      assert y - start == 5 * i;
      assert i <= (end - start) / 5;
    }
    if start <= y <= end && (y - start) % 5 == 0 {
      var i := (y - start) / 5;
      assert y == start + 5 * i;
      assert i <= (end - start) / 5;
      assert r[i] == y;
    }
  }

  /**
    `q` is `n / unit` rounded to the nearest integer, an exact half going
    to the even neighbour, as Python's `.0f` format does.
   */
  predicate NearestHalfEven(n: int, unit: nat, q: int) {
    var d := n - q * unit;
    && -(unit as int) <= 2 * d <= unit
    && ((2 * d == unit || 2 * d == -(unit as int)) ==> q % 2 == 0)
  }

  function RoundHalfEven(n: nat, unit: nat): (q: nat)
    requires unit > 0
    ensures NearestHalfEven(n, unit, q)
  {
    var q, r := n / unit, n % unit;
    assert n - q * unit == r;
    assert n - (q + 1) * unit == r - unit by {
      assert (q + 1) * unit == q * unit + unit;
    }
    if 2 * r < unit then q
    else if 2 * r > unit then q + 1
    else if q % 2 == 0 then q
    else q + 1
  }

  /** `k` whole units with `k >= 2` are at least two units. */
  lemma MultipleAtLeastTwo(k: int, unit: nat)
    requires k >= 2
    ensures k * unit >= 2 * unit
  {
    assert k * unit == (k - 2) * unit + 2 * unit;
  }

  /** Two different integers both within half a unit of `n` are neighbours, one on each side at exactly half a unit. */
  lemma BothWithinHalf(n: int, unit: nat, lo: int, hi: int)
    requires unit > 0 && lo < hi
    requires -(unit as int) <= 2 * (n - lo * unit) <= unit
    requires -(unit as int) <= 2 * (n - hi * unit) <= unit
    ensures hi == lo + 1
    ensures 2 * (n - lo * unit) == unit && 2 * (n - hi * unit) == -(unit as int)
  {
    assert (n - lo * unit) - (n - hi * unit) == (hi - lo) * unit by {
      assert hi * unit - lo * unit == (hi - lo) * unit;
    }
    if hi - lo >= 2 {
      MultipleAtLeastTwo(hi - lo, unit);
    } else {
      assert (hi - lo) * unit == unit;
    }
  }

  /** The rounded quotient is the only integer nearest to `n / unit` with ties to even. */
  lemma NearestHalfEvenUnique(n: int, unit: nat, p: int, q: int)
    requires unit > 0
    requires NearestHalfEven(n, unit, p) && NearestHalfEven(n, unit, q)
    ensures p == q
  {
    if p < q {
      BothWithinHalf(n, unit, p, q);
    } else if q < p {
      BothWithinHalf(n, unit, q, p);
    }
  }

  /**
    `s` is the decimal digits of `n / unit`, rounded half to even, followed
    by `suffix`.
   */
  predicate Abbreviates(s: string, n: nat, unit: nat, suffix: string) {
    && |s| > |suffix|
    && s[|s| - |suffix|..] == suffix
    && AllDigits(s[..|s| - |suffix|])
    && (|s| - |suffix| > 1 ==> s[0] != '0')
    && NearestHalfEven(n, unit, DigitsValue(s[..|s| - |suffix|]))
  }

  /** `q` in decimal followed by `suffix`. */
  function WithSuffix(q: nat, suffix: string): (s: string)
    ensures |s| > |suffix| && s[|s| - |suffix|..] == suffix && s[..|s| - |suffix|] == NatToString(q)
  {
    NatToString(q) + suffix
  }

  /**
    `format_population` on one tick value: millions with "M" from one
    million up, thousands with "K" from one thousand up, the number itself
    below that.
   */
  function FormatPopulation(x: nat): (s: string)
    ensures x >= Million ==> Abbreviates(s, x, Million, "M")
    ensures Thousand <= x < Million ==> Abbreviates(s, x, Thousand, "K")
    ensures x < Thousand ==> |s| > 0 && AllDigits(s) && DigitsValue(s) == x && (|s| > 1 ==> s[0] != '0')
  {
    if x >= Million then WithSuffix(RoundHalfEven(x, Million), "M")
    else if x >= Thousand then WithSuffix(RoundHalfEven(x, Thousand), "K")
    else NatToString(x)
  }

  /**
    The label is fixed by the rounding rule alone: whatever integer is
    nearest to the value in millions (or thousands), ties to even, is the
    one printed before "M" (or "K").
   */
  lemma FormatPopulationDetermined(x: nat, q: nat)
    ensures x >= Million && NearestHalfEven(x, Million, q) ==> FormatPopulation(x) == NatToString(q) + "M"
    ensures Thousand <= x < Million && NearestHalfEven(x, Thousand, q) ==> FormatPopulation(x) == NatToString(q) + "K"
  {
    if x >= Million && NearestHalfEven(x, Million, q) {
      NearestHalfEvenUnique(x, Million, q, RoundHalfEven(x, Million));
    } else if Thousand <= x < Million && NearestHalfEven(x, Thousand, q) {
      NearestHalfEvenUnique(x, Thousand, q, RoundHalfEven(x, Thousand));
    }
  }

  /**
    Reading a label back: a digit string, optionally followed by "M" or
    "K", denotes that many millions, thousands or units.
   */
  function ReadLabel(s: string): Option<nat> {
    if |s| == 0 then None
    else if s[|s| - 1] == 'M' && |s| > 1 && AllDigits(s[..|s| - 1]) then Some(DigitsValue(s[..|s| - 1]) * Million)
    else if s[|s| - 1] == 'K' && |s| > 1 && AllDigits(s[..|s| - 1]) then Some(DigitsValue(s[..|s| - 1]) * Thousand)
    else if AllDigits(s) then Some(DigitsValue(s))
    else None
  }

  /**
    A label read back is within half a unit of the value it labels: half a
    million for "M" labels, half a thousand for "K" labels and exact below
    one thousand.
   */
  lemma FormatPopulationReadBack(x: nat)
    ensures ReadLabel(FormatPopulation(x)).Some?
    ensures x >= Million ==> (2 * (ReadLabel(FormatPopulation(x)).value - x) <= Million &&
      2 * (x - ReadLabel(FormatPopulation(x)).value) <= Million)
    ensures Thousand <= x < Million ==> (2 * (ReadLabel(FormatPopulation(x)).value - x) <= Thousand &&
      2 * (x - ReadLabel(FormatPopulation(x)).value) <= Thousand)
    ensures x < Thousand ==> ReadLabel(FormatPopulation(x)) == Some(x)
  {
    var s := FormatPopulation(x);
    if x >= Thousand {
      var unit, suffix := if x >= Million then Million else Thousand, if x >= Million then "M" else "K";
      assert Abbreviates(s, x, unit, suffix);
      var digits := s[..|s| - 1];
      assert s[|s| - 1] == suffix[0];
      assert ReadLabel(s) == Some(DigitsValue(digits) * unit);
    } else {
      assert s[|s| - 1] != 'M' && s[|s| - 1] != 'K' by {
        assert IsDigit(s[|s| - 1]);
      }
    }
  }

  /** A few labels, including an exact half and the edge just under one million. */
  lemma FormatPopulationExamples()
    ensures FormatPopulation(2_500_000) == "2M"
    ensures FormatPopulation(3_500_000) == "4M"
    ensures FormatPopulation(45_000) == "45K"
    ensures FormatPopulation(999_999) == "1000K"
    ensures FormatPopulation(900) == "900"
  {
    assert NatToString(2) == "2";
    assert NatToString(4) == "4";
    assert NatToString(45) == "45";
    assert NatToString(1000) == "1000";
    assert NatToString(900) == "900";
  }

  /** The list form of `format_population`: each tick labelled on its own, in order. */
  function FormatAll(xs: seq<nat>): (labels: seq<string>)
    ensures |labels| == |xs|
    ensures forall i :: 0 <= i < |xs| ==> labels[i] == FormatPopulation(xs[i])
  {
    seq(|xs|, i requires 0 <= i < |xs| => FormatPopulation(xs[i]))
  }

  /**
    The chart renderer. With no selection there is no chart; otherwise the
    source note fails exactly as for the table, and the chart shows the
    filtered records with the source note as caption and ticks every five
    years from the start year.
   */
  function PopulationPlot(ds: Dataset, sel: Selection): (r: Result<PlotView>)
    ensures |sel.countries| == 0 <==> r == Ok(NoPlot)
    ensures r.Err? <==> (|sel.countries| > 0 &&
      exists i :: 0 <= i < |sel.countries| && sel.countries[i] !in ds.codes)
    ensures r.Err? ==> r.error == CodeEntries(ds.codes, sel.countries).error
    ensures r.Ok? && |sel.countries| > 0 ==> (&& r.value.LinePlot?
      && r.value.data == FilterRecords(ds.records, sel.countries, sel.startYear, sel.endYear)
      && r.value.title == PlotTitle
      && SourceNote(ds.codes, sel.countries) == Ok(r.value.caption)
      && r.value.xBreaks == Breaks(sel.startYear, sel.endYear))
  {
    if |sel.countries| == 0 then Ok(NoPlot)
    else
      match SourceNote(ds.codes, sel.countries)
      case Err(e) => Err(e)
      case Ok(note) =>
        var data := FilterRecords(ds.records, sel.countries, sel.startYear, sel.endYear);
        Ok(LinePlot(data, PlotTitle, note, Breaks(sel.startYear, sel.endYear)))
  }
}
