/** The small array and string helpers of the front end's `utility.js`: `clamp`, `is_subset`,
    `intersect` and `regexp_escape`. JavaScript arrays of strings become Dafny arrays and sequences of
    strings; the default `sort` and the `<` on strings are the character order `LexLess`. */
module Utility {
  import opened Common

  // ---------------------------------------------------------------------------------------------
  // clamp

  /** `Math.max(low, Math.min(value, high))`. */
  function Clamp(value: int, low: int, high: int): (r: int)
    ensures low <= r
    ensures low <= high ==> r <= high
    ensures low <= value <= high ==> r == value
    ensures value < low ==> r == low
    ensures low <= high < value ==> r == high
    ensures high < low ==> r == low
  {
    var m := if value < high then value else high;
    if low < m then m else low
  }

  // ---------------------------------------------------------------------------------------------
  // is_subset

  /** `$.inArray(val, array)`: the first index holding `val`, or -1. */
  function InArray<T(==)>(val: T, arr: seq<T>): (r: int)
    ensures r == -1 <==> val !in arr
    ensures r != -1 ==> 0 <= r < |arr| && arr[r] == val && val !in arr[..r]
  {
    if arr == [] then -1
    else if arr[0] == val then 0
    else
      var k := InArray(val, arr[1..]);
      if k == -1 then -1
      else
        assert arr[..k + 1] == [arr[0]] + arr[1..][..k];
        k + 1
  }

  /** `Utility.is_subset`: the flag starts true and is cleared for every element of `subarray` that
      `array` lacks; the walk never stops early. */
  method IsSubset<T(==)>(arr: seq<T>, subarr: seq<T>) returns (all: bool)
    ensures all <==> forall i :: 0 <= i < |subarr| ==> subarr[i] in arr
  {
    all := true;
    var i := 0;
    while i < |subarr|
      invariant 0 <= i <= |subarr|
      invariant all <==> forall j :: 0 <= j < i ==> subarr[j] in arr
    {
      if InArray(subarr[i], arr) == -1 {
        all := false;
      }
      i := i + 1;
    }
  }

  // ---------------------------------------------------------------------------------------------
  // intersect

  /** `Utility.intersect`: sort copies of both arrays, then walk them from the front, dropping the
      smaller head, or moving a shared head to the result and dropping it from both. The arguments
      are only read (there is no `modifies` clause): the sorting happens on copies. The result is
      sorted and holds each value as often as the less of its counts in `a` and in `b`. */
  method Intersect(a: array<string>, b: array<string>) returns (result: seq<string>)
    ensures Sorted(result)
    ensures multiset(result) == multiset(a[..]) * multiset(b[..])
  {
    var x := Sort(a[..]);
    var y := Sort(b[..]);
    result := [];
    while |x| > 0 && |y| > 0
      invariant Sorted(x) && Sorted(y) && Sorted(result)
      invariant multiset(result) + multiset(x) * multiset(y) == multiset(a[..]) * multiset(b[..])
      invariant forall i, j :: 0 <= i < |result| && 0 <= j < |x| ==> LexLe(result[i], x[j])
      decreases |x| + |y|
    {
      if LexLess(x[0], y[0]) {
        DropSmaller(x, y);
        x := x[1..];
      } else if LexLess(y[0], x[0]) {
        DropSmaller(y, x);
        IntersectionCommutes(multiset(x), multiset(y));
        IntersectionCommutes(multiset(x), multiset(y[1..]));
        y := y[1..];
      } else {
        if x[0] != y[0] {
          LexLessTotal(x[0], y[0]);
        }
        DropShared(x, y);
        AppendSorted(result, x);
        result := result + [x[0]];
        x, y := x[1..], y[1..];
      }
    }
  }

  /** A head smaller than every element of the other (sorted) sequence is in no intersection. */
  lemma DropSmaller(x: seq<string>, y: seq<string>)
    requires x != [] && y != [] && Sorted(y) && LexLess(x[0], y[0])
    ensures multiset(x[1..]) * multiset(y) == multiset(x) * multiset(y)
    ensures Sorted(x) ==> Sorted(x[1..])
  {
    forall j | 0 <= j < |y| ensures y[j] != x[0] {
      if y[j] == x[0] {
        if y[0] == y[j] {
          LexLessIrreflexive(x[0]);
        } else {
          LexLessAsymmetric(x[0], y[0]);
        }
      }
    }
    assert x[0] !in multiset(y);
    assert x == [x[0]] + x[1..];
    assert multiset(x) == multiset{x[0]} + multiset(x[1..]);
  }

  lemma IntersectionCommutes(m: multiset<string>, n: multiset<string>)
    ensures m * n == n * m
  {
  }

  /** A head shared by both sequences is in the intersection once more than in that of the tails. */
  lemma DropShared(x: seq<string>, y: seq<string>)
    requires x != [] && y != [] && x[0] == y[0]
    ensures multiset(x) * multiset(y) == multiset{x[0]} + multiset(x[1..]) * multiset(y[1..])
  {
    assert x == [x[0]] + x[1..];
    assert y == [y[0]] + y[1..];
    assert multiset(x) == multiset{x[0]} + multiset(x[1..]);
    assert multiset(y) == multiset{x[0]} + multiset(y[1..]);
  }

  /** Appending the head of a sorted sequence to a sorted result no greater than it keeps both facts. */
  lemma AppendSorted(result: seq<string>, x: seq<string>)
    requires x != [] && Sorted(x) && Sorted(result)
    requires forall i, j :: 0 <= i < |result| && 0 <= j < |x| ==> LexLe(result[i], x[j])
    ensures Sorted(result + [x[0]]) && Sorted(x[1..])
    ensures forall i, j :: 0 <= i < |result + [x[0]]| && 0 <= j < |x[1..]| ==> LexLe((result + [x[0]])[i], x[1..][j])
  {
    var r := result + [x[0]];
    forall i, j | 0 <= i < j < |r| ensures LexLe(r[i], r[j]) {
      if j == |result| {
        assert LexLe(result[i], x[0]);
      }
    }
    forall i, j | 0 <= i < |r| && 0 <= j < |x[1..]| ensures LexLe(r[i], x[1..][j]) {
      assert x[1..][j] == x[j + 1];
      if i == |result| {
        assert LexLe(x[0], x[j + 1]);
      }
    }
  }

  // ---------------------------------------------------------------------------------------------
  // regexp_escape

  /** The characters `regexp_escape` puts a backslash before. */
  predicate IsRegexpSpecial(c: char)
  {
    c in ".?*+^$[]\\(){}|-"
  }

  function EscapeRegexpChar(c: char): string
  {
    if IsRegexpSpecial(c) then ['\\', c] else [c]
  }

  /** `Utility.regexp_escape`: a backslash before each special character, everything else as is. */
  function RegexpEscape(s: string): (r: string)
    ensures |r| >= |s|
    ensures forall i :: 0 <= i < |r| ==> r[i] in s || r[i] == '\\'
  {
    if s == [] then ""
    else
      var rest := RegexpEscape(s[1..]);
      var r := EscapeRegexpChar(s[0]) + rest;
      assert forall i :: 0 <= i < |rest| ==> r[i + |EscapeRegexpChar(s[0])|] == rest[i];
      r
  }

  /** Reads a pattern as the text it matches literally: a backslash stands for the character after it. */
  function RegexpUnescape(r: string): string
  {
    if r == [] then ""
    else if r[0] == '\\' && |r| >= 2 then [r[1]] + RegexpUnescape(r[2..])
    else [r[0]] + RegexpUnescape(r[1..])
  }

  /** A pattern that matches only literal text: every special character is escaped, and a backslash
      only ever escapes a special character. */
  predicate Literal(r: string)
  {
    if r == [] then true
    else if r[0] == '\\' then |r| >= 2 && IsRegexpSpecial(r[1]) && Literal(r[2..])
    else !IsRegexpSpecial(r[0]) && Literal(r[1..])
  }

  /** The escaped string matches the original text literally. */
  lemma {:induction false} RegexpEscapeRoundTrip(s: string)
    ensures RegexpUnescape(RegexpEscape(s)) == s
    ensures Literal(RegexpEscape(s))
  {
    if s != [] {
      RegexpEscapeRoundTrip(s[1..]);
      var e := EscapeRegexpChar(s[0]);
      var r := e + RegexpEscape(s[1..]);
      assert r[|e|..] == RegexpEscape(s[1..]);
      assert s == [s[0]] + s[1..];
    }
  }

  /** Every literal pattern is the escape of the text it matches. */
  lemma {:induction false} LiteralIsEscaped(r: string)
    requires Literal(r)
    ensures RegexpEscape(RegexpUnescape(r)) == r
  {
    if r != [] {
      if r[0] == '\\' {
        LiteralIsEscaped(r[2..]);
        assert r == ['\\', r[1]] + r[2..];
        assert ([r[1]] + RegexpUnescape(r[2..]))[1..] == RegexpUnescape(r[2..]);
      } else {
        LiteralIsEscaped(r[1..]);
        assert r == [r[0]] + r[1..];
        assert ([r[0]] + RegexpUnescape(r[1..]))[1..] == RegexpUnescape(r[1..]);
      }
    }
  }
}
