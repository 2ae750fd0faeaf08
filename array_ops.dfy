/**
 * The JavaScript array built-ins the query layer uses, as functions on
 * sequences: `Array.prototype.sort` with a comparator, `filter`,
 * `slice(0, end)` and `find`. The comparator is given as the relation "may come first"
 * (`compare(a, b) <= 0`).
 */
module ArrayOps {
  import opened Wrappers

  /** A comparator that orders every pair and orders them consistently. */
  ghost predicate IsTotalPreorder<T(!new)>(before: (T, T) -> bool) {
    && (forall a, b :: before(a, b) || before(b, a))
    && (forall a, b, c :: before(a, b) && before(b, c) ==> before(a, c))
  }

  predicate SortedBy<T>(s: seq<T>, before: (T, T) -> bool) {
    forall i, j :: 0 <= i < j < |s| ==> before(s[i], s[j])
  }

  /** Puts `x` in front of the first element it may precede. */
  function InsertBy<T(!new)>(x: T, s: seq<T>, before: (T, T) -> bool): (r: seq<T>)
    ensures multiset(r) == multiset(s) + multiset{x}
    ensures IsTotalPreorder(before) && SortedBy(s, before) ==> SortedBy(r, before)
  {
    if s == [] || before(x, s[0]) then
      PrependSorted(x, s, before);
      [x] + s
    else
      var rest := InsertBy(x, s[1..], before);
      assert s == [s[0]] + s[1..];
      HeadThenInsertedSorted(x, s, rest, before);
      [s[0]] + rest
  }

  /** `x` in front of a sorted `s` whose head it may precede keeps it sorted. */
  lemma PrependSorted<T(!new)>(x: T, s: seq<T>, before: (T, T) -> bool)
    requires s == [] || before(x, s[0])
    ensures IsTotalPreorder(before) && SortedBy(s, before) ==> SortedBy([x] + s, before)
  {
    if IsTotalPreorder(before) && SortedBy(s, before) {
      forall i, j | 0 <= i < j < |[x] + s|
        ensures before(([x] + s)[i], ([x] + s)[j])
      {
        if i == 0 {
          assert before(x, s[0]) && before(s[0], s[j - 1]);
        }
      }
    }
  }

  /** When `x` goes after the head of a sorted `s`, the head followed by the
      sorted rest with `x` inserted is sorted. */
  lemma HeadThenInsertedSorted<T(!new)>(x: T, s: seq<T>, rest: seq<T>, before: (T, T) -> bool)
    requires s != [] && !before(x, s[0])
    requires multiset(rest) == multiset(s[1..]) + multiset{x}
    requires IsTotalPreorder(before) && SortedBy(s[1..], before) ==> SortedBy(rest, before)
    ensures IsTotalPreorder(before) && SortedBy(s, before) ==> SortedBy([s[0]] + rest, before)
  {
    if IsTotalPreorder(before) && SortedBy(s, before) {
      assert SortedBy(s[1..], before);
      forall k | 0 <= k < |rest|
        ensures before(s[0], rest[k])
      {
        assert rest[k] in multiset(rest);
        if rest[k] != x {
          assert rest[k] in multiset(s[1..]);
          var j :| 0 <= j < |s[1..]| && s[1..][j] == rest[k];
          assert s[j + 1] == rest[k];
        }
      }
      SortedCons(s[0], rest, before);
    }
  }

  lemma SortedCons<T>(h: T, t: seq<T>, before: (T, T) -> bool)
    requires forall k :: 0 <= k < |t| ==> before(h, t[k])
    requires SortedBy(t, before)
    ensures SortedBy([h] + t, before)
  {
    forall i, j | 0 <= i < j < |[h] + t|
      ensures before(([h] + t)[i], ([h] + t)[j])
    {
      if i == 0 {
        assert ([h] + t)[j] == t[j - 1];
      } else {
        assert ([h] + t)[i] == t[i - 1] && ([h] + t)[j] == t[j - 1];
      }
    }
  }

  /** `a.sort(compare)`: an ordered permutation of `s`. Equal elements keep
      their relative order (each element is inserted before the ones it ties
      with, and the elements are inserted last to first). */
  function SortBy<T(!new)>(s: seq<T>, before: (T, T) -> bool): (r: seq<T>)
    ensures multiset(r) == multiset(s)
    ensures IsTotalPreorder(before) ==> SortedBy(r, before)
    ensures |r| == |s|
  {
    if s == [] then []
    else
      assert s == [s[0]] + s[1..];
      InsertBy(s[0], SortBy(s[1..], before), before)
  }

  /** `s.filter(p)`. */
  function Filter<T>(s: seq<T>, p: T -> bool): (r: seq<T>)
    ensures |r| <= |s|
  {
    if s == [] then [] else (if p(s[0]) then [s[0]] else []) + Filter(s[1..], p)
  }

  /** Elements the comparator cannot tell apart. */
  predicate Tied<T>(before: (T, T) -> bool, a: T, b: T) {
    before(a, b) && before(b, a)
  }

  /** Inserting `x` leaves the elements tied with any `z` in the order they had,
      with `x` in front of those it is tied with. */
  lemma {:induction false} InsertByKeepsTiedOrder<T(!new)>(x: T, s: seq<T>, before: (T, T) -> bool, z: T)
    requires IsTotalPreorder(before)
    ensures Filter(InsertBy(x, s, before), y => Tied(before, z, y))
         == Filter([x] + s, y => Tied(before, z, y))
  {
    var tz := y => Tied(before, z, y);
    if s != [] && !before(x, s[0]) {
      var rest := InsertBy(x, s[1..], before);
      InsertByKeepsTiedOrder(x, s[1..], before, z);
      FilterCons(s[0], rest, tz);
      FilterCons(x, s[1..], tz);
      FilterCons(x, s, tz);
      assert s == [s[0]] + s[1..];
      FilterCons(s[0], s[1..], tz);
      var fx := if tz(x) then [x] else [];
      var fh := if tz(s[0]) then [s[0]] else [];
      if tz(x) {
        assert !tz(s[0]);
      }
      SwapFronts(fh, fx, Filter(s[1..], tz));
    }
  }

  /** A solver step: two fronts of which at most one is non-empty can be
      swapped. */
  lemma SwapFronts<T>(a: seq<T>, b: seq<T>, rest: seq<T>)
    requires a == [] || b == []
    ensures a + (b + rest) == b + (a + rest)
  {
  }

  lemma FilterCons<T>(h: T, t: seq<T>, p: T -> bool)
    ensures Filter([h] + t, p) == (if p(h) then [h] else []) + Filter(t, p)
  {
    assert ([h] + t)[1..] == t;
  }

  /** `filter` keeps exactly the elements that pass, each as often as it occurs. */
  lemma {:induction false} FilterMeaning<T>(s: seq<T>, p: T -> bool)
    ensures forall i :: 0 <= i < |Filter(s, p)| ==> p(Filter(s, p)[i])
    ensures forall x :: multiset(Filter(s, p))[x] == if p(x) then multiset(s)[x] else 0
  {
    if s != [] {
      FilterMeaning(s[1..], p);
      assert s == [s[0]] + s[1..];
    }
  }

  /** Filtering distributes over concatenation. */
  lemma {:induction false} FilterAppend<T>(a: seq<T>, b: seq<T>, p: T -> bool)
    ensures Filter(a + b, p) == Filter(a, p) + Filter(b, p)
  {
    if a != [] {
      FilterAppend(a[1..], b, p);
      assert a + b == [a[0]] + (a[1..] + b);
      assert a == [a[0]] + a[1..];
      FilterCons(a[0], a[1..] + b, p);
      FilterCons(a[0], a[1..], p);
    } else {
      assert a + b == b;
    }
  }

  /** `sort` is stable: for every `z`, the elements tied with `z` come out in
      the order they went in. */
  lemma {:induction false} SortByIsStable<T(!new)>(s: seq<T>, before: (T, T) -> bool, z: T)
    requires IsTotalPreorder(before)
    ensures Filter(SortBy(s, before), y => Tied(before, z, y)) == Filter(s, y => Tied(before, z, y))
  {
    if s != [] {
      SortByIsStable(s[1..], before, z);
      InsertByKeepsTiedOrder(s[0], SortBy(s[1..], before), before, z);
      assert ([s[0]] + SortBy(s[1..], before))[1..] == SortBy(s[1..], before);
    }
  }

  /** The end index `slice(0, end)` stops at on an array of length `n`: a
      negative `end` counts back from the end of the array. */
  function SliceEnd(n: nat, end: int): (k: nat)
    ensures k <= n
    ensures 0 <= end <= n ==> k == end
    ensures end > n ==> k == n
    ensures end < 0 && n + end >= 0 ==> k == n + end
    ensures n + end < 0 ==> k == 0
  {
    if end >= 0 then (if end < n then end else n)
    else if n + end > 0 then n + end else 0
  }

  /** `s.slice(0, end)`. */
  function SliceTo<T>(s: seq<T>, end: int): (r: seq<T>)
    ensures |r| == SliceEnd(|s|, end)
    ensures r <= s
  {
    s[..SliceEnd(|s|, end)]
  }

  /** A leading slice keeps a subset of the elements, in their order. */
  lemma PrefixKeepsOrder<T>(s: seq<T>, r: seq<T>, before: (T, T) -> bool)
    requires r <= s
    ensures multiset(r) <= multiset(s)
    ensures SortedBy(s, before) ==> SortedBy(r, before)
  {
    assert s == r + s[|r|..];
    assert multiset(s) == multiset(r) + multiset(s[|r|..]);
  }

  /** The index of the first element satisfying `p`, as `findIndex` (with -1 read as `None`). */
  function FindFirst<T>(s: seq<T>, p: T -> bool): (r: Option<nat>)
    ensures r.None? <==> forall i :: 0 <= i < |s| ==> !p(s[i])
    ensures r.Some? ==> r.value < |s| && p(s[r.value])
    ensures r.Some? ==> forall i :: 0 <= i < r.value ==> !p(s[i])
  {
    if s == [] then None
    else if p(s[0]) then Some(0)
    else
      match FindFirst(s[1..], p)
      case None => None
      case Some(i) => Some(i + 1)
  }
}
