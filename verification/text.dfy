/**
  Strings as the dashboard uses them: Python's ordering of `str`, decimal
  rendering of integers (`str(n)`, `f'{n:.0f}'` on a whole number) and
  `sep.join(parts)`.
 */
module Text {

  import opened Outcomes

  /**
    Python's `a < b` on `str`: lexicographic by code point, a proper prefix
    first. The contract is the textbook definition: `a` is a proper prefix
    of `b`, or the two agree up to a first position where `a` is smaller.
   */
  predicate Less(a: string, b: string): (r: bool)
    ensures r <==> (|a| < |b| && a == b[..|a|]) || FirstSmaller(a, b)
    decreases |a|
  {
    if |a| == 0 then |b| > 0
    else if |b| == 0 then false
    else if a[0] < b[0] then (assert FirstSmallerAt(a, b, 0); true)
    else if a[0] != b[0] then false
    else
      var rest := Less(a[1..], b[1..]);
      assert FirstSmaller(a, b) <==> FirstSmaller(a[1..], b[1..]) by {
        FirstSmallerShift(a, b);
      }
      assert (|a| < |b| && a == b[..|a|]) <==> (|a[1..]| < |b[1..]| && a[1..] == b[1..][..|a[1..]|]) by {
        if |a| < |b| && a[1..] == b[1..][..|a[1..]|] {
          assert a == [a[0]] + a[1..] && b[..|a|] == [b[0]] + b[1..][..|a[1..]|];
        }
      }
      rest
  }

  /** `a` and `b` agree before position `k`, where `a` has the smaller code point. */
  predicate FirstSmallerAt(a: string, b: string, k: int) {
    0 <= k < |a| && k < |b| && a[..k] == b[..k] && a[k] < b[k]
  }

  predicate FirstSmaller(a: string, b: string) {
    exists k :: 0 <= k < |a| && FirstSmallerAt(a, b, k)
  }

  lemma FirstSmallerShift(a: string, b: string)
    requires |a| > 0 && |b| > 0 && a[0] == b[0]
    ensures FirstSmaller(a, b) <==> FirstSmaller(a[1..], b[1..])
  {
    if FirstSmaller(a, b) {
      var k :| 0 <= k < |a| && FirstSmallerAt(a, b, k);
      assert k < |b| && a[..k] == b[..k] && a[k] < b[k];
      assert k > 0;
      assert a[1..][..k - 1] == a[..k][1..] && b[1..][..k - 1] == b[..k][1..];
      assert FirstSmallerAt(a[1..], b[1..], k - 1);
    }
    if FirstSmaller(a[1..], b[1..]) {
      var k :| 0 <= k < |a[1..]| && FirstSmallerAt(a[1..], b[1..], k);
      assert k < |b[1..]| && a[1..][..k] == b[1..][..k];
      assert a[..k + 1] == [a[0]] + a[1..][..k] && b[..k + 1] == [b[0]] + b[1..][..k];
      assert FirstSmallerAt(a, b, k + 1);
    }
  }

  lemma {:induction false} LessIrreflexive(a: string)
    ensures !Less(a, a)
    decreases |a|
  {
    if |a| > 0 {
      LessIrreflexive(a[1..]);
    }
  }

  lemma {:induction false} LessTransitive(a: string, b: string, c: string)
    requires Less(a, b) && Less(b, c)
    ensures Less(a, c)
    decreases |a|
  {
    if |a| > 0 && |b| > 0 && |c| > 0 && a[0] == b[0] && b[0] == c[0] {
      LessTransitive(a[1..], b[1..], c[1..]);
    }
  }

  /** Distinct strings are always comparable: `<` on `str` is a strict total order. */
  lemma {:induction false} LessTotal(a: string, b: string)
    requires a != b
    ensures Less(a, b) || Less(b, a)
    decreases |a|
  {
    if |a| > 0 && |b| > 0 && a[0] == b[0] {
      assert a == [a[0]] + a[1..] && b == [b[0]] + b[1..];
      LessTotal(a[1..], b[1..]);
    }
  }

  predicate IsDigit(c: char) {
    '0' <= c <= '9'
  }

  predicate AllDigits(s: string) {
    forall i :: 0 <= i < |s| ==> IsDigit(s[i])
  }

  function DigitChar(d: nat): (c: char)
    requires d < 10
    ensures IsDigit(c) && c as int - '0' as int == d
  {
    ('0' as int + d) as char
  }

  /** The value a run of decimal digits denotes (Python's `int(s)` on such a run). */
  function DigitsValue(s: string): nat
    requires AllDigits(s)
    decreases |s|
  {
    if |s| == 0 then 0
    else DigitsValue(s[..|s| - 1]) * 10 + (s[|s| - 1] as int - '0' as int)
  }

  /** `str(n)` for a non-negative integer: decimal digits, no leading zero. */
  function NatToString(n: nat): (s: string)
    ensures |s| > 0 && AllDigits(s)
    ensures |s| > 1 ==> s[0] != '0'
    ensures DigitsValue(s) == n
    decreases n
  {
    if n < 10 then [DigitChar(n)]
    else
      var front := NatToString(n / 10);
      var s := front + [DigitChar(n % 10)];
      assert s[..|s| - 1] == front;
      s
  }

  /**
    `s` is how Python's `str` writes the integer `i`: decimal digits with no
    leading zero, after a minus sign exactly when `i` is negative.
   */
  predicate IsDecimal(s: string, i: int) {
    if i < 0 then |s| > 1 && s[0] == '-' && AllDigits(s[1..]) && s[1] != '0' && DigitsValue(s[1..]) == -i
    else |s| > 0 && AllDigits(s) && (|s| > 1 ==> s[0] != '0') && DigitsValue(s) == i
  }

  /** `str(i)` for any integer: a minus sign before the digits of a negative value. */
  function IntToString(i: int): (s: string)
    ensures IsDecimal(s, i)
  {
    if i < 0 then
      var digits := NatToString(-i);
      var s := "-" + digits;
      assert s[1..] == digits;
      assert digits[0] != '0' by {
        if |digits| == 1 {
          assert digits[..0] == [];
          assert DigitsValue(digits) == digits[0] as int - '0' as int;
        }
      }
      s
    else NatToString(i)
  }

  /** Python's `int(s)` on the strings `IntToString` produces. */
  function ParseInt(s: string): Option<int> {
    if |s| > 0 && s[0] == '-' && |s| > 1 && AllDigits(s[1..]) then Some(-(DigitsValue(s[1..]) as int))
    else if |s| > 0 && AllDigits(s) then Some(DigitsValue(s) as int)
    else None
  }

  /** A digit run that does not start with '0' denotes at least 1. */
  lemma {:induction false} LeadingDigitPositive(s: string)
    requires |s| > 0 && AllDigits(s) && s[0] != '0'
    ensures DigitsValue(s) >= 1
    decreases |s|
  {
    if |s| > 1 {
      LeadingDigitPositive(s[..|s| - 1]);
    } else {
      assert s[..0] == [];
    }
  }

  /** Two digit runs without a leading zero that denote the same number are equal. */
  lemma {:induction false} CanonicalDigitsUnique(a: string, b: string)
    requires |a| > 0 && AllDigits(a) && (|a| > 1 ==> a[0] != '0')
    requires |b| > 0 && AllDigits(b) && (|b| > 1 ==> b[0] != '0')
    requires DigitsValue(a) == DigitsValue(b)
    ensures a == b
    decreases |a|
  {
    var a', b' := a[..|a| - 1], b[..|b| - 1];
    if |a| > 1 {
      LeadingDigitPositive(a');
    } else {
      assert a' == [];
    }
    if |b| > 1 {
      LeadingDigitPositive(b');
    } else {
      assert b' == [];
    }
    var da, db := a[|a| - 1] as int - '0' as int, b[|b| - 1] as int - '0' as int;
    assert DigitsValue(a) == DigitsValue(a') * 10 + da;
    assert DigitsValue(b) == DigitsValue(b') * 10 + db;
    assert da == db && DigitsValue(a') == DigitsValue(b');
    if |a| > 1 && |b| > 1 {
      CanonicalDigitsUnique(a', b');
      assert a == a' + [a[|a| - 1]] && b == b' + [b[|b| - 1]];
    }
  }

  /** An integer has one decimal form. */
  lemma DecimalUnique(a: string, b: string, i: int)
    requires IsDecimal(a, i) && IsDecimal(b, i)
    ensures a == b
  {
    if i < 0 {
      CanonicalDigitsUnique(a[1..], b[1..]);
      assert a == [a[0]] + a[1..] && b == [b[0]] + b[1..];
    } else {
      CanonicalDigitsUnique(a, b);
    }
  }

  /** Rendering a year and parsing it back gives the year. */
  lemma IntToStringRoundTrip(i: int)
    ensures ParseInt(IntToString(i)) == Some(i)
  {
    if i < 0 {
      var s := IntToString(i);
      assert s[1..] == NatToString(-i);
    }
  }

  /** `piece` occurs in `s` starting at position `at`. */
  predicate PieceAt(s: string, at: nat, piece: string) {
    at + |piece| <= |s| && s[at..at + |piece|] == piece
  }

  /** A slice past the front of a concatenation is a slice of its back. */
  lemma SliceAfter(a: string, b: string, x: nat, y: nat)
    requires x <= y <= |b|
    ensures (a + b)[|a| + x..|a| + y] == b[x..y]
  {
    assert forall k :: 0 <= k < y - x ==> (a + b)[|a| + x..|a| + y][k] == b[x..y][k];
  }

  /**
    `sep.join(parts)`. `JoinLength`, `JoinPartAt` and `JoinSepAt` place every
    part and separator of the result.
   */
  function Join(parts: seq<string>, sep: string): string
    decreases |parts|
  {
    if |parts| == 0 then ""
    else if |parts| == 1 then parts[0]
    else parts[0] + sep + Join(parts[1..], sep)
  }

  /** Where `parts[i]` starts inside `Join(parts, sep)`: after every earlier part and its separator. */
  function Offset(parts: seq<string>, sep: string, i: nat): nat
    requires i <= |parts|
    decreases i
  {
    if i == 0 then 0 else Offset(parts, sep, i - 1) + |parts[i - 1]| + |sep|
  }

  lemma {:induction false} OffsetShift(parts: seq<string>, sep: string, i: nat)
    requires 0 < i <= |parts|
    ensures Offset(parts, sep, i) == |parts[0]| + |sep| + Offset(parts[1..], sep, i - 1)
    decreases i
  {
    if i > 1 {
      OffsetShift(parts, sep, i - 1);
    }
  }

  /** `Join` is as long as its parts plus one separator between each two. */
  lemma {:induction false} JoinLength(parts: seq<string>, sep: string)
    requires |parts| > 0
    ensures |Join(parts, sep)| == Offset(parts, sep, |parts| - 1) + |parts[|parts| - 1]|
    decreases |parts|
  {
    if |parts| > 1 {
      JoinLength(parts[1..], sep);
      OffsetShift(parts, sep, |parts| - 1);
    }
  }

  /** Part `i` sits in `Join(parts, sep)` starting at its offset. */
  lemma {:induction false} JoinPartAt(parts: seq<string>, sep: string, i: nat)
    requires i < |parts|
    ensures Offset(parts, sep, i) + |parts[i]| <= |Join(parts, sep)|
    ensures Join(parts, sep)[Offset(parts, sep, i)..Offset(parts, sep, i) + |parts[i]|] == parts[i]
    decreases i
  {
    var j := Join(parts, sep);
    if |parts| > 1 {
      var jt := Join(parts[1..], sep);
      assert j == parts[0] + sep + jt;
      if i > 0 {
        JoinPartAt(parts[1..], sep, i - 1);
        OffsetShift(parts, sep, i);
        var o := Offset(parts[1..], sep, i - 1);
        SliceAfter(parts[0] + sep, jt, o, o + |parts[i]|);
      }
    }
  }

  /** Right after part `i` of `Join(parts, sep)`, unless it is the last, sits `sep`. */
  lemma {:induction false} JoinSepAt(parts: seq<string>, sep: string, i: nat)
    requires i + 1 < |parts|
    ensures Offset(parts, sep, i) + |parts[i]| + |sep| <= |Join(parts, sep)|
    ensures Join(parts, sep)[Offset(parts, sep, i) + |parts[i]|..Offset(parts, sep, i) + |parts[i]| + |sep|] == sep
    decreases i
  {
    var j := Join(parts, sep);
    var jt := Join(parts[1..], sep);
    assert j == parts[0] + sep + jt;
    if i > 0 {
      JoinSepAt(parts[1..], sep, i - 1);
      OffsetShift(parts, sep, i);
      var o := Offset(parts[1..], sep, i - 1) + |parts[i]|;
      SliceAfter(parts[0] + sep, jt, o, o + |sep|);
    }
  }

  /** After a prefix, a join ends with its last part. */
  lemma PrefixedJoinLength(prefix: string, parts: seq<string>, sep: string)
    requires |parts| > 0
    ensures |prefix + Join(parts, sep)| == |prefix| + Offset(parts, sep, |parts| - 1) + |parts[|parts| - 1]|
  {
    JoinLength(parts, sep);
  }

  /** After a prefix, part `i` of a join sits at the prefix length plus its offset. */
  lemma PrefixedJoinPartAt(prefix: string, parts: seq<string>, sep: string, whole: string, i: nat)
    requires whole == prefix + Join(parts, sep)
    requires i < |parts|
    ensures PieceAt(whole, |prefix| + Offset(parts, sep, i), parts[i])
  {
    JoinPartAt(parts, sep, i);
    var o := Offset(parts, sep, i);
    SliceAfter(prefix, Join(parts, sep), o, o + |parts[i]|);
  }

  /** After a prefix, the separator follows part `i` of a join when it is not the last. */
  lemma PrefixedJoinSepAt(prefix: string, parts: seq<string>, sep: string, whole: string, i: nat)
    requires whole == prefix + Join(parts, sep)
    requires i + 1 < |parts|
    ensures PieceAt(whole, |prefix| + Offset(parts, sep, i) + |parts[i]|, sep)
  {
    JoinSepAt(parts, sep, i);
    var o := Offset(parts, sep, i) + |parts[i]|;
    SliceAfter(prefix, Join(parts, sep), o, o + |sep|);
  }

  /** After a prefix, each part of a join sits at the prefix length plus its offset. */
  lemma PrefixedJoinParts(prefix: string, parts: seq<string>, sep: string)
    ensures forall i :: 0 <= i < |parts| ==>
      PieceAt(prefix + Join(parts, sep), |prefix| + Offset(parts, sep, i), parts[i])
  {
    forall i | 0 <= i < |parts|
      ensures PieceAt(prefix + Join(parts, sep), |prefix| + Offset(parts, sep, i), parts[i])
    {
      PrefixedJoinPartAt(prefix, parts, sep, prefix + Join(parts, sep), i);
    }
  }

  /** After a prefix, the separator follows each part of a join but the last. */
  lemma PrefixedJoinSeps(prefix: string, parts: seq<string>, sep: string)
    ensures forall i :: 0 <= i < |parts| - 1 ==>
      PieceAt(prefix + Join(parts, sep), |prefix| + Offset(parts, sep, i) + |parts[i]|, sep)
  {
    forall i | 0 <= i < |parts| - 1
      ensures PieceAt(prefix + Join(parts, sep), |prefix| + Offset(parts, sep, i) + |parts[i]|, sep)
    {
      PrefixedJoinSepAt(prefix, parts, sep, prefix + Join(parts, sep), i);
    }
  }
}
