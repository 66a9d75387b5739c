/**
  The user's current choices and the two things computed directly from
  them: the prompt shown next to the country control and the records both
  the table and the chart are drawn from.
 */
module Selection {

  import opened Dataset

  /**
    The inputs: sort order radio value, start and end year (the select
    controls offer only years of the table, so they are held as the years
    themselves) and the selected countries in the order they were picked.
   */
  datatype Selection = Selection(sortOrder: string, startYear: int, endYear: int, countries: seq<string>)

  const Prompt: string := "Please select at least one country."

  /** `selection_message`: the prompt when nothing is selected, otherwise nothing. */
  function SelectionMessage(countries: seq<string>): (msg: string)
    ensures msg == "" <==> |countries| > 0
    ensures |countries| == 0 ==> msg == Prompt
  {
    if |countries| == 0 then Prompt else ""
  }

  /** The filter's row condition: a selected country and a year inside `[start, end]`. */
  predicate Keeps(selected: seq<string>, start: int, end: int, r: Record) {
    r.name in selected && start <= r.year <= end
  }

  /**
    `countrypops[isin(countries) & (year >= start) & (year <= end)]`: the
    matching records in table order. Every kept record is a matching
    record of the table and every matching record is kept; with
    `start > end` nothing is.
   */
  function FilterRecords(rs: seq<Record>, selected: seq<string>, start: int, end: int): (kept: seq<Record>)
    ensures |kept| <= |rs|
    ensures forall i :: 0 <= i < |kept| ==> kept[i] in rs && Keeps(selected, start, end, kept[i])
    ensures forall k :: 0 <= k < |rs| && Keeps(selected, start, end, rs[k]) ==> rs[k] in kept
    ensures start > end ==> kept == []
    decreases |rs|
  {
    if |rs| == 0 then []
    else
      var rest := FilterRecords(rs[1..], selected, start, end);
      assert forall k :: 1 <= k < |rs| ==> rs[k] == rs[1..][k - 1];
      assert forall i :: 0 <= i < |rest| ==> rest[i] in rs by {
        forall i | 0 <= i < |rest| ensures rest[i] in rs {
          var k :| 0 <= k < |rs[1..]| && rs[1..][k] == rest[i];
          assert rs[k + 1] == rest[i];
        }
      }
      (if Keeps(selected, start, end, rs[0]) then [rs[0]] else []) + rest
  }

  /**
    The filter keeps each matching record as many times as the table holds
    it, and no other record: the kept records are exactly the matching
    sub-multiset of the table.
   */
  lemma {:induction false} FilterCounts(rs: seq<Record>, selected: seq<string>, start: int, end: int, r: Record)
    ensures multiset(FilterRecords(rs, selected, start, end))[r] ==
      if Keeps(selected, start, end, r) then multiset(rs)[r] else 0
    decreases |rs|
  {
    if |rs| > 0 {
      assert rs == [rs[0]] + rs[1..];
      assert multiset(rs) == multiset{rs[0]} + multiset(rs[1..]);
      FilterCounts(rs[1..], selected, start, end, r);
    }
  }

  lemma UniqueKeysTail(rs: seq<Record>)
    requires |rs| > 0 && UniqueKeys(rs)
    ensures UniqueKeys(rs[1..])
  {
    forall i, j | 0 <= i < j < |rs[1..]| && rs[1..][i].name == rs[1..][j].name
      ensures rs[1..][i].year != rs[1..][j].year
    {
      assert rs[1..][i] == rs[i + 1] && rs[1..][j] == rs[j + 1];
    }
  }

  lemma UniqueKeysCons(x: Record, t: seq<Record>)
    requires UniqueKeys(t)
    requires forall k :: 0 <= k < |t| ==> t[k].name != x.name || t[k].year != x.year
    ensures UniqueKeys([x] + t)
  {
    var s := [x] + t;
    forall i, j | 0 <= i < j < |s| && s[i].name == s[j].name
      ensures s[i].year != s[j].year
    {
      assert s[j] == t[j - 1];
      if i > 0 {
        assert s[i] == t[i - 1];
      }
    }
  }

  /** Filtering a table with one record per (country, year) leaves one record per (country, year). */
  lemma {:induction false} FilterUniqueKeys(rs: seq<Record>, selected: seq<string>, start: int, end: int)
    requires UniqueKeys(rs)
    ensures UniqueKeys(FilterRecords(rs, selected, start, end))
    decreases |rs|
  {
    if |rs| > 0 {
      var rest := FilterRecords(rs[1..], selected, start, end);
      UniqueKeysTail(rs);
      FilterUniqueKeys(rs[1..], selected, start, end);
      if Keeps(selected, start, end, rs[0]) {
        forall k | 0 <= k < |rest|
          ensures rest[k].name != rs[0].name || rest[k].year != rs[0].year
        {
          assert rest[k] in rs[1..];
          var m :| 0 <= m < |rs[1..]| && rs[1..][m] == rest[k];
          assert rs[m + 1] == rest[k];
        }
        UniqueKeysCons(rs[0], rest);
      }
    }
  }

  /** Some kept record has year `y` exactly when `y` is in range and a selected country has a record for it. */
  lemma KeptYear(rs: seq<Record>, selected: seq<string>, start: int, end: int, kept: seq<Record>, y: int)
    requires kept == FilterRecords(rs, selected, start, end)
    ensures (exists i :: 0 <= i < |kept| && kept[i].year == y) <==>
      (start <= y <= end && exists k :: 0 <= k < |rs| && rs[k].name in selected && rs[k].year == y)
  {
    if i :| 0 <= i < |kept| && kept[i].year == y {
      assert kept[i] in rs && Keeps(selected, start, end, kept[i]);
      var k :| 0 <= k < |rs| && rs[k] == kept[i];
      assert rs[k].name in selected && rs[k].year == y;
    }
    if k :| 0 <= k < |rs| && rs[k].name in selected && rs[k].year == y && start <= y <= end {
      assert Keeps(selected, start, end, rs[k]);
      assert rs[k] in kept;
      var i :| 0 <= i < |kept| && kept[i] == rs[k];
      assert kept[i].year == y;
    }
  }

  /** Some kept record names `n` exactly when `n` is selected and has a record in range. */
  lemma KeptName(rs: seq<Record>, selected: seq<string>, start: int, end: int, kept: seq<Record>, n: string)
    requires kept == FilterRecords(rs, selected, start, end)
    ensures (exists i :: 0 <= i < |kept| && kept[i].name == n) <==>
      (n in selected && exists k :: 0 <= k < |rs| && rs[k].name == n && start <= rs[k].year <= end)
  {
    if i :| 0 <= i < |kept| && kept[i].name == n {
      assert kept[i] in rs && Keeps(selected, start, end, kept[i]);
      var k :| 0 <= k < |rs| && rs[k] == kept[i];
      assert rs[k].name == n && start <= rs[k].year <= end;
    }
    if k :| 0 <= k < |rs| && rs[k].name == n && start <= rs[k].year <= end && n in selected {
      assert Keeps(selected, start, end, rs[k]);
      assert rs[k] in kept;
      var i :| 0 <= i < |kept| && kept[i] == rs[k];
      assert kept[i].name == n;
    }
  }
}
