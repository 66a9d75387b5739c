/**
  The country list offered by the selection control. The distinct country
  names are sorted alphabetically, then, for "largest" and "smallest",
  stably re-sorted by their latest-year population (0 for a country with no
  latest-year record), descending or ascending. Because the re-sort is
  stable and starts from the alphabetical list, countries with equal
  populations stay in alphabetical order.
 */
module Countries {

  import opened Text
  import opened Sorting
  import opened Dataset

  /** The three values of the sort-order radio buttons. */
  datatype SortOrder = Largest | Smallest | Alpha

  /** "largest" and "smallest" select a population order; any other value is alphabetical. */
  function ParseSortOrder(s: string): (o: SortOrder)
    ensures o == Largest <==> s == "largest"
    ensures o == Smallest <==> s == "smallest"
  {
    if s == "largest" then Largest
    else if s == "smallest" then Smallest
    else Alpha
  }

  /** `a` has a strictly better key than `b`: larger when descending, smaller otherwise. */
  predicate Ahead(latest: map<string, nat>, descending: bool, a: string, b: string) {
    if descending then LatestOrZero(latest, a) > LatestOrZero(latest, b)
    else LatestOrZero(latest, a) < LatestOrZero(latest, b)
  }

  /** No element has a strictly better key than one before it. */
  predicate KeyOrdered(latest: map<string, nat>, descending: bool, s: seq<string>) {
    forall i, j :: 0 <= i < j < |s| ==> !Ahead(latest, descending, s[j], s[i])
  }

  /** The order the re-sort produces on distinct names: by key, then alphabetically. */
  predicate Precedes(latest: map<string, nat>, descending: bool, a: string, b: string) {
    || Ahead(latest, descending, a, b)
    || (LatestOrZero(latest, a) == LatestOrZero(latest, b) && Less(a, b))
  }

  predicate Ranked(latest: map<string, nat>, descending: bool, s: seq<string>) {
    forall i, j :: 0 <= i < j < |s| ==> Precedes(latest, descending, s[i], s[j])
  }

  lemma PrecedesTransitive(latest: map<string, nat>, descending: bool, a: string, b: string, c: string)
    requires Precedes(latest, descending, a, b) && Precedes(latest, descending, b, c)
    ensures Precedes(latest, descending, a, c)
  {
    if Less(a, b) && Less(b, c) {
      LessTransitive(a, b, c);
    }
  }

  /**
    One step of a stable insertion sort: `x` goes in front of the first
    element whose key is not strictly better than its own, so it stays
    ahead of every later element with an equal key.
   */
  function InsertByKey(latest: map<string, nat>, descending: bool, x: string, t: seq<string>): (r: seq<string>)
    ensures multiset(r) == multiset(t) + multiset{x}
    decreases |t|
  {
    if |t| == 0 || !Ahead(latest, descending, t[0], x) then [x] + t
    else
      assert t == [t[0]] + t[1..];
      [t[0]] + InsertByKey(latest, descending, x, t[1..])
  }

  /** Two sequences with the same elements counted with multiplicity have the same members. */
  lemma SameMembers(a: seq<string>, b: seq<string>)
    requires multiset(a) == multiset(b)
    ensures forall n :: n in a <==> n in b
  {
    forall n
      ensures n in a <==> n in b
    {
      assert n in a <==> n in multiset(a);
      assert n in b <==> n in multiset(b);
    }
  }

  /** Inserting into a key-ordered list keeps it key-ordered. */
  lemma {:induction false} InsertKeyOrdered(latest: map<string, nat>, descending: bool, x: string, t: seq<string>)
    requires KeyOrdered(latest, descending, t)
    ensures KeyOrdered(latest, descending, InsertByKey(latest, descending, x, t))
    decreases |t|
  {
    if |t| > 0 && Ahead(latest, descending, t[0], x) {
      var rest := InsertByKey(latest, descending, x, t[1..]);
      InsertKeyOrdered(latest, descending, x, t[1..]);
      assert multiset(rest) == multiset(t[1..]) + multiset{x};
      SameMembers(rest, t[1..] + [x]);
      forall k | 0 <= k < |rest|
        ensures !Ahead(latest, descending, rest[k], t[0])
      {
        assert rest[k] in t[1..] + [x];
      }
    }
  }

  /** `sorted(names, key=..., reverse=descending)`: a stable sort on the latest-year key. */
  function SortByKey(latest: map<string, nat>, descending: bool, s: seq<string>): (r: seq<string>)
    ensures multiset(r) == multiset(s)
    ensures KeyOrdered(latest, descending, r)
    decreases |s|
  {
    if |s| == 0 then []
    else
      assert s == [s[0]] + s[1..];
      var t := SortByKey(latest, descending, s[1..]);
      InsertKeyOrdered(latest, descending, s[0], t);
      InsertByKey(latest, descending, s[0], t)
  }

  /** Inserting a name alphabetically before every element keeps a ranked list ranked. */
  lemma {:induction false} InsertRanked(latest: map<string, nat>, descending: bool, x: string, t: seq<string>)
    requires Ranked(latest, descending, t)
    requires forall k :: 0 <= k < |t| ==> Less(x, t[k])
    ensures Ranked(latest, descending, InsertByKey(latest, descending, x, t))
    decreases |t|
  {
    if |t| == 0 || !Ahead(latest, descending, t[0], x) {
      if |t| > 0 {
        assert Precedes(latest, descending, x, t[0]);
        forall k | 0 < k < |t|
          ensures Precedes(latest, descending, x, t[k])
        {
          PrecedesTransitive(latest, descending, x, t[0], t[k]);
        }
      }
    } else {
      var rest := InsertByKey(latest, descending, x, t[1..]);
      InsertRanked(latest, descending, x, t[1..]);
      assert Precedes(latest, descending, t[0], x);
      forall k | 0 <= k < |rest|
        ensures Precedes(latest, descending, t[0], rest[k])
      {
        assert rest[k] in multiset(rest);
        assert rest[k] == x || rest[k] in multiset(t[1..]);
        if rest[k] != x {
          var m :| 0 <= m < |t[1..]| && t[1..][m] == rest[k];
          assert t[m + 1] == rest[k];
        }
      }
    }
  }

  /**
    Stability: re-sorting an alphabetical list by key leaves equal keys in
    alphabetical order.
   */
  lemma {:induction false} SortByKeyRanked(latest: map<string, nat>, descending: bool, s: seq<string>)
    requires Alphabetical(s)
    ensures Ranked(latest, descending, SortByKey(latest, descending, s))
    decreases |s|
  {
    if |s| > 0 {
      var t := SortByKey(latest, descending, s[1..]);
      SortByKeyRanked(latest, descending, s[1..]);
      forall k | 0 <= k < |t|
        ensures Less(s[0], t[k])
      {
        assert t[k] in multiset(s[1..]);
        var m :| 0 <= m < |s[1..]| && s[1..][m] == t[k];
        assert s[m + 1] == t[k];
      }
      InsertRanked(latest, descending, s[0], t);
    }
  }

  /** A ranked list names each country once. */
  lemma RankedDistinct(latest: map<string, nat>, descending: bool, s: seq<string>)
    requires Ranked(latest, descending, s)
    ensures forall i, j :: 0 <= i < j < |s| ==> s[i] != s[j]
  {
    forall i, j | 0 <= i < j < |s|
      ensures s[i] != s[j]
    {
      LessIrreflexive(s[i]);
    }
  }

  /**
    The choices of the country control for a sort order: every country of
    the table exactly once, ordered by latest-year population (largest
    first or smallest first) or alphabetically, with ties alphabetical.
   */
  function CountryChoices(ds: Dataset, order: string): (r: seq<string>)
    ensures forall n :: n in r <==> exists i :: 0 <= i < |ds.records| && ds.records[i].name == n
    ensures forall i, j :: 0 <= i < j < |r| ==> r[i] != r[j]
    ensures ParseSortOrder(order) == Largest ==>
      forall i, j :: 0 <= i < j < |r| ==>
        LatestOrZero(ds.latestPopulation, r[i]) >= LatestOrZero(ds.latestPopulation, r[j])
    ensures ParseSortOrder(order) == Smallest ==>
      forall i, j :: 0 <= i < j < |r| ==>
        LatestOrZero(ds.latestPopulation, r[i]) <= LatestOrZero(ds.latestPopulation, r[j])
    ensures ParseSortOrder(order) == Alpha ==> Alphabetical(r)
    ensures forall i, j :: (0 <= i < j < |r| &&
      LatestOrZero(ds.latestPopulation, r[i]) == LatestOrZero(ds.latestPopulation, r[j])) ==> Less(r[i], r[j])
  {
    var names := SortedDistinctNames(NameColumn(ds.records));
    assert forall n :: n in names <==> exists i :: 0 <= i < |ds.records| && ds.records[i].name == n by {
      forall n ensures n in names <==> exists i :: 0 <= i < |ds.records| && ds.records[i].name == n {
        if n in NameColumn(ds.records) {
          var i :| 0 <= i < |ds.records| && NameColumn(ds.records)[i] == n;
        }
        if exists i :: 0 <= i < |ds.records| && ds.records[i].name == n {
          var i :| 0 <= i < |ds.records| && ds.records[i].name == n;
          assert NameColumn(ds.records)[i] == n;
        }
      }
    }
    var latest := ds.latestPopulation;
    match ParseSortOrder(order)
    case Alpha =>
      AlphabeticalDistinct(names);
      names
    case Largest =>
      var r := SortByKey(latest, true, names);
      SortByKeyRanked(latest, true, names);
      RankedDistinct(latest, true, r);
      SameMembers(r, names);
      r
    case Smallest =>
      var r := SortByKey(latest, false, names);
      SortByKeyRanked(latest, false, names);
      RankedDistinct(latest, false, r);
      SameMembers(r, names);
      r
  }
}
