/** The array helpers of src/util.ts (`minBy`, `isMonotonous`, `findLast`), plus the
    sequence filtering the rest of the model uses in place of `Array.prototype.filter`. */
module Util {
  import opened Wrappers

  function Min(a: real, b: real): real { if a <= b then a else b }

  function Max(a: real, b: real): real { if a <= b then b else a }

  /** `isMonotonous(a, b, c)`: b lies between a and c, bounds included, in either order. */
  function IsMonotonous(a: real, b: real, c: real): (r: bool)
    ensures r <==> Min(a, c) <= b <= Max(a, c)
    ensures b == a || b == c ==> r
  {
    (a <= b && b <= c) || (a >= b && b >= c)
  }

  lemma IsMonotonousSymmetric(a: real, b: real, c: real)
    ensures IsMonotonous(a, b, c) == IsMonotonous(c, b, a)
  {
  }

  // ---------------------------------------------------------------------------
  // minBy

  /** The index `minBy` settles on: the first element whose value is least.
      Defined the way the loop runs, one element at a time from the front. */
  function MinIndex<T>(items: seq<T>, value: T -> real): (r: nat)
    requires |items| > 0
    ensures r < |items|
    ensures forall j :: 0 <= j < |items| ==> value(items[r]) <= value(items[j])
    ensures forall j :: 0 <= j < r ==> value(items[r]) < value(items[j])
    decreases |items|
  {
    if |items| == 1 then 0
    else
      var m := MinIndex(items[..|items| - 1], value);
      if value(items[|items| - 1]) < value(items[m]) then |items| - 1 else m
  }

  /** `minBy`: null for an empty array; otherwise the element kept by a left-to-right
      scan that replaces the candidate only on a strictly smaller value. */
  method MinBy<T>(items: seq<T>, value: T -> real) returns (r: Option<T>)
    ensures r == if |items| == 0 then None else Some(items[MinIndex(items, value)])
  {
    if |items| == 0 {
      return None;
    }
    var minItem := items[0];
    var minValue := value(items[0]);
    ghost var k := 0;
    var i := 1;
    while i < |items|
      invariant 1 <= i <= |items|
      invariant k == MinIndex(items[..i], value)
      invariant minItem == items[k] && minValue == value(items[k])
    {
      assert items[..i + 1][..i] == items[..i];
      var currentValue := value(items[i]);
      if currentValue < minValue {
        minValue := currentValue;
        minItem := items[i];
        k := i;
      }
      i := i + 1;
    }
    assert items[..i] == items;
    r := Some(minItem);
  }

  // ---------------------------------------------------------------------------
  // findLast

  /** The greatest index below `n` whose element satisfies `holds`, if any. */
  function FindLastBelow<T>(items: seq<T>, holds: (T, nat) -> bool, n: nat): (r: Option<nat>)
    requires n <= |items|
    ensures r.Some? ==> r.value < n && holds(items[r.value], r.value)
    ensures r.Some? ==> forall j :: r.value < j < n ==> !holds(items[j], j)
    ensures r.None? <==> forall j :: 0 <= j < n ==> !holds(items[j], j)
  {
    if n == 0 then None
    else if holds(items[n - 1], n - 1) then Some(n - 1)
    else FindLastBelow(items, holds, n - 1)
  }

  /** The index `findLast` reports: the greatest one whose element satisfies `holds`. */
  function FindLastIndex<T>(items: seq<T>, holds: (T, nat) -> bool): (r: Option<nat>)
    ensures r.Some? ==> r.value < |items| && holds(items[r.value], r.value)
    ensures r.Some? ==> forall j :: r.value < j < |items| ==> !holds(items[j], j)
    ensures r.None? <==> forall j :: 0 <= j < |items| ==> !holds(items[j], j)
  {
    FindLastBelow(items, holds, |items|)
  }

  /** `findLast`: scans from the last index down and returns the first hit with its index. */
  method FindLast<T>(items: seq<T>, holds: (T, nat) -> bool) returns (r: Option<(T, nat)>)
    ensures r == match FindLastIndex(items, holds)
                 case None => None
                 case Some(i) => Some((items[i], i))
  {
    var index: int := |items| - 1;
    while index >= 0
      invariant -1 <= index < |items|
      invariant FindLastIndex(items, holds) == FindLastBelow(items, holds, index + 1)
    {
      var item := items[index];
      if holds(item, index) {
        return Some((item, index));
      }
      index := index - 1;
    }
    return None;
  }

  // ---------------------------------------------------------------------------
  // Filtering (Array.prototype.filter and the null-dropping filter of geometry.ts)

  /** `r` is `s` with some elements dropped and the rest in their original order. */
  ghost predicate Subsequence<T>(r: seq<T>, s: seq<T>)
    decreases |s|
  {
    if r == [] then true
    else if s == [] then false
    else (r[0] == s[0] && Subsequence(r[1..], s[1..])) || Subsequence(r, s[1..])
  }

  /** `Array.prototype.filter`: the elements `keep` accepts, in their original order. */
  function Filter<T(!new)>(s: seq<T>, keep: T -> bool): (r: seq<T>)
    ensures |r| <= |s|
    ensures forall i :: 0 <= i < |r| ==> r[i] in s && keep(r[i])
    ensures forall i :: 0 <= i < |s| && keep(s[i]) ==> s[i] in r
    ensures Subsequence(r, s)
    ensures (forall i :: 0 <= i < |s| ==> keep(s[i])) ==> r == s
  {
    if s == [] then []
    else
      if keep(s[0]) then [s[0]] + Filter(s[1..], keep)
      else Filter(s[1..], keep)
  }

  /** Filtering keeps every accepted element as many times as it occurs, and no copy of
      any other. */
  lemma {:induction false} FilterCounts<T(!new)>(s: seq<T>, keep: T -> bool)
    ensures forall x :: multiset(Filter(s, keep))[x] == if keep(x) then multiset(s)[x] else 0
    decreases |s|
  {
    if s != [] {
      assert s == [s[0]] + s[1..];
      FilterCounts(s[1..], keep);
    }
  }

  lemma {:induction false} FilterAppend<T(!new)>(a: seq<T>, b: seq<T>, keep: T -> bool)
    ensures Filter(a + b, keep) == Filter(a, keep) + Filter(b, keep)
    decreases |a|
  {
    if a == [] {
      assert a + b == b;
    } else {
      assert (a + b)[1..] == a[1..] + b;
      FilterAppend(a[1..], b, keep);
    }
  }

  lemma {:induction false} FilterIdempotent<T(!new)>(s: seq<T>, keep: T -> bool)
    ensures Filter(Filter(s, keep), keep) == Filter(s, keep)
    decreases |s|
  {
    if s != [] {
      FilterIdempotent(s[1..], keep);
    }
  }

  /** The present values of a sequence of options, in order. */
  function Somes<T>(s: seq<Option<T>>): (r: seq<T>)
    ensures |r| <= |s|
    ensures forall i :: 0 <= i < |r| ==> Some(r[i]) in s
    ensures forall i :: 0 <= i < |s| && s[i].Some? ==> s[i].value in r
  {
    if s == [] then []
    else match s[0]
      case Some(x) => [x] + Somes(s[1..])
      case None => Somes(s[1..])
  }

  lemma {:induction false} SomesNone<T>(s: seq<Option<T>>)
    requires forall i :: 0 <= i < |s| ==> s[i].None?
    ensures Somes(s) == []
  {
    if s != [] {
      SomesNone(s[1..]);
    }
  }

  /** Exactly one present value: that value alone. */
  lemma {:induction false} SomesOne<T>(s: seq<Option<T>>, k: nat, x: T)
    requires k < |s| && s[k] == Some(x)
    requires forall i :: 0 <= i < |s| && i != k ==> s[i].None?
    ensures Somes(s) == [x]
  {
    if k == 0 {
      SomesNone(s[1..]);
    } else {
      SomesOne(s[1..], k - 1, x);
    }
  }
}
