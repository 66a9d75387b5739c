/**
  `sorted(column.unique())`: the distinct values of a column in ascending
  order, for the year column (integers) and the country-name column
  (strings under Python's `str` order).
 */
module Sorting {

  import opened Text

  predicate StrictlyIncreasing(s: seq<int>) {
    forall i, j :: 0 <= i < j < |s| ==> s[i] < s[j]
  }

  /** Strictly ascending under `Less`, hence also free of duplicates. */
  predicate Alphabetical(s: seq<string>) {
    forall i, j :: 0 <= i < j < |s| ==> Less(s[i], s[j])
  }

  /** Places `x` into an ascending, duplicate-free `s`, dropping it if already present. */
  function InsertInt(x: int, s: seq<int>): (r: seq<int>)
    requires StrictlyIncreasing(s)
    ensures StrictlyIncreasing(r)
    ensures forall y :: y in r <==> y == x || y in s
    decreases |s|
  {
    if |s| == 0 || x < s[0] then [x] + s
    else if x == s[0] then s
    else
      var rest := InsertInt(x, s[1..]);
      assert forall k :: 0 <= k < |rest| ==> s[0] < rest[k] by {
        forall k | 0 <= k < |rest|
          ensures s[0] < rest[k]
        {
          assert rest[k] in rest;
          if rest[k] != x {
            var m :| 0 <= m < |s[1..]| && s[1..][m] == rest[k];
            assert s[m + 1] == rest[k];
          }
        }
      }
      [s[0]] + rest
  }

  /** `sorted(xs.unique())` on integers: every value of `xs` once, ascending. */
  function SortedDistinctInts(xs: seq<int>): (r: seq<int>)
    ensures StrictlyIncreasing(r)
    ensures forall y :: y in r <==> y in xs
    decreases |xs|
  {
    if |xs| == 0 then [] else InsertInt(xs[0], SortedDistinctInts(xs[1..]))
  }

  /** Places `x` into an alphabetical, duplicate-free `s`, dropping it if already present. */
  function InsertName(x: string, s: seq<string>): (r: seq<string>)
    requires Alphabetical(s)
    ensures Alphabetical(r)
    ensures forall y :: y in r <==> y == x || y in s
    decreases |s|
  {
    if |s| == 0 || Less(x, s[0]) then
      BelowHead(x, s);
      [x] + s
    else if x == s[0] then s
    else
      LessTotal(x, s[0]);
      var rest := InsertName(x, s[1..]);
      assert forall y :: y in rest ==> Less(s[0], y);
      [s[0]] + rest
  }

  /** A name before the head of an alphabetical list is before all of it. */
  lemma BelowHead(x: string, s: seq<string>)
    requires Alphabetical(s)
    requires |s| == 0 || Less(x, s[0])
    ensures forall k :: 0 <= k < |s| ==> Less(x, s[k])
  {
    forall k | 0 < k < |s|
      ensures Less(x, s[k])
    {
      LessTransitive(x, s[0], s[k]);
    }
  }

  /** `sorted(names.unique())`: every name once, in Python's string order. */
  function SortedDistinctNames(xs: seq<string>): (r: seq<string>)
    ensures Alphabetical(r)
    ensures forall y :: y in r <==> y in xs
    decreases |xs|
  {
    if |xs| == 0 then [] else InsertName(xs[0], SortedDistinctNames(xs[1..]))
  }

  /** An alphabetical list holds each name at most once. */
  lemma AlphabeticalDistinct(s: seq<string>)
    requires Alphabetical(s)
    ensures forall i, j :: 0 <= i < j < |s| ==> s[i] != s[j]
  {
    forall i, j | 0 <= i < j < |s|
      ensures s[i] != s[j]
    {
      LessIrreflexive(s[i]);
    }
  }
}
