/** The two lodash 3 array functions the category page relies on: `slice`, with
    its negative-index convention, and the stable `sortBy`, here specialised to
    string sort keys compared the way JavaScript's `<` compares strings. */
module Lodash {
  import opened JsValues
  import opened JsArrays

  /** `_.slice(a, start, end)` (`end` absent when `None`). A negative `start` or
      `end` counts back from the end of the array; a `start` further back than
      the length clamps to 0; an `end` past the length clamps to the length; a
      window with `start > end` is empty. */
  function Slice<T>(a: seq<T>, start: int, end: Option<int>): (r: seq<T>)
    ensures exists s, e :: 0 <= s <= e <= |a| && r == a[s..e]
  {
    var n := |a|;
    if n == 0 then
      assert a[0..0] == [];
      []
    else
      var s := if start < 0 then (if -start > n then 0 else n + start) else start;
      var e := match end
        case None => n
        case Some(e0) => if e0 > n then n else if e0 < 0 then e0 + n else e0;
      if s > e then
        assert a[0..0] == [];
        []
      else a[s..e]
  }

  /** Within bounds, `_.slice` is ordinary slicing. */
  lemma SliceInRange<T>(a: seq<T>, start: int, end: int)
    requires 0 <= start <= end <= |a|
    ensures Slice(a, start, Some(end)) == a[start..end]
    ensures Slice(a, start, None) == a[start..]
  {
  }

  /** A negative index `-m` with `m <= |a|` stands for index `|a| - m`. */
  lemma SliceNegative<T>(a: seq<T>, m: int)
    requires 0 < m <= |a|
    ensures Slice(a, -m, None) == a[|a| - m..]
    ensures Slice(a, 0, Some(-m)) == a[..|a| - m]
  {
  }

  /** `slice(a, t).concat(slice(a, 0, t))` is `a` turned to start at some
      index, whatever the integer `t`. */
  lemma SliceRotation<T>(a: seq<T>, t: int)
    ensures exists j :: 0 <= j <= |a| && Slice(a, t, None) + Slice(a, 0, Some(t)) == a[j..] + a[..j]
  {
    var n := |a|;
    var r := Slice(a, t, None) + Slice(a, 0, Some(t));
    if n == 0 {
      assert r == a[0..] + a[..0];
    } else if 0 <= t <= n {
      assert r == a[t..] + a[..t];
    } else if t > n {
      assert r == a[0..] + a[..0];
    } else if -t <= n {
      assert r == a[n + t..] + a[..n + t];
    } else {
      assert r == a[0..] + a[..0];
    }
  }

  /** JavaScript's `a < b` on strings: lexicographic by character code. */
  predicate StrLess(a: string, b: string) {
    if |a| == 0 then |b| > 0
    else if |b| == 0 then false
    else a[0] < b[0] || (a[0] == b[0] && StrLess(a[1..], b[1..]))
  }

  lemma {:induction false} StrLessIrreflexive(a: string)
    ensures !StrLess(a, a)
  {
    if |a| > 0 {
      StrLessIrreflexive(a[1..]);
    }
  }

  lemma {:induction false} StrLessTransitive(a: string, b: string, c: string)
    requires StrLess(a, b) && StrLess(b, c)
    ensures StrLess(a, c)
  {
    if |a| > 0 && a[0] == b[0] && b[0] == c[0] {
      StrLessTransitive(a[1..], b[1..], c[1..]);
    }
  }

  lemma StrLessAsymmetric(a: string, b: string)
    requires StrLess(a, b)
    ensures !StrLess(b, a)
  {
    if StrLess(b, a) {
      StrLessTransitive(a, b, a);
      StrLessIrreflexive(a);
    }
  }

  /** Two different strings are ordered one way or the other. */
  lemma {:induction false} StrLessTotal(a: string, b: string)
    requires a != b
    ensures StrLess(a, b) || StrLess(b, a)
  {
    if |a| > 0 && |b| > 0 && a[0] == b[0] {
      assert a == [a[0]] + a[1..] && b == [b[0]] + b[1..];
      StrLessTotal(a[1..], b[1..]);
    }
  }

  /** Ascending order of the keys: no later element has a strictly smaller key. */
  ghost predicate SortedBy<T>(s: seq<T>, key: T -> string) {
    forall i, j :: 0 <= i < j < |s| ==> !StrLess(key(s[j]), key(s[i]))
  }

  /** The elements of `s` whose key is `k`, in their order in `s`. */
  function KeyFilter<T>(s: seq<T>, key: T -> string, k: string): seq<T> {
    Filter(s, x => key(x) == k)
  }

  /** Stability: for every key, the elements carrying it appear in `r` in the
      same order as in `xs`. This also makes `r` a rearrangement of `xs`. */
  ghost predicate StableFor<T>(r: seq<T>, xs: seq<T>, key: T -> string) {
    forall k :: KeyFilter(r, key, k) == KeyFilter(xs, key, k)
  }

  lemma KeyFilterCons<T>(x: T, s: seq<T>, key: T -> string, k: string)
    ensures KeyFilter([x] + s, key, k) == (if key(x) == k then [x] else []) + KeyFilter(s, key, k)
  {
    assert ([x] + s)[1..] == s;
  }

  /** Putting in front an element whose key no element of a sorted sequence
      undercuts keeps the sequence sorted. */
  lemma SortedPrepend<T>(y: T, s: seq<T>, key: T -> string)
    requires SortedBy(s, key)
    requires forall j :: 0 <= j < |s| ==> !StrLess(key(s[j]), key(y))
    ensures SortedBy([y] + s, key)
  {
    var r := [y] + s;
    forall i, j | 0 <= i < j < |r|
      ensures !StrLess(key(r[j]), key(r[i]))
    {
      assert r[j] == s[j - 1];
      if i > 0 {
        assert r[i] == s[i - 1];
      }
    }
  }

  /** In a sorted sequence no key undercuts the first. */
  lemma HeadIsLeast<T>(x: T, s: seq<T>, key: T -> string)
    requires SortedBy(s, key) && s != [] && !StrLess(key(s[0]), key(x))
    ensures forall j :: 0 <= j < |s| ==> !StrLess(key(s[j]), key(x))
  {
    forall j | 0 <= j < |s|
      ensures !StrLess(key(s[j]), key(x))
    {
      var k0, kj, kx := key(s[0]), key(s[j]), key(x);
      if kj != k0 && StrLess(kj, kx) {
        StrLessTotal(k0, kj);
        StrLessTransitive(k0, kj, kx);
      }
    }
  }

  /** When `x` goes after the head `s[0]`, nothing placed behind the head
      undercuts it. */
  lemma HeadBelowRest<T>(x: T, s: seq<T>, rest: seq<T>, key: T -> string)
    requires SortedBy(s, key) && s != [] && StrLess(key(s[0]), key(x))
    requires multiset(rest) == multiset(s[1..]) + multiset{x}
    ensures forall j :: 0 <= j < |rest| ==> !StrLess(key(rest[j]), key(s[0]))
  {
    forall j | 0 <= j < |rest|
      ensures !StrLess(key(rest[j]), key(s[0]))
    {
      assert rest[j] in multiset(rest);
      if rest[j] == x {
        StrLessAsymmetric(key(s[0]), key(x));
      } else {
        assert rest[j] in multiset(s[1..]);
        var m :| 0 <= m < |s[1..]| && s[1..][m] == rest[j];
        assert s[m + 1] == rest[j];
      }
    }
  }

  /** Keeping the head in front preserves each key's order when `x` goes after
      it: the head's key differs from `x`'s. */
  lemma KeyFilterBehindHead<T>(x: T, s: seq<T>, rest: seq<T>, key: T -> string)
    requires s != [] && StrLess(key(s[0]), key(x))
    requires forall k :: KeyFilter(rest, key, k) == KeyFilter([x] + s[1..], key, k)
    ensures forall k :: KeyFilter([s[0]] + rest, key, k) == KeyFilter([x] + s, key, k)
  {
    assert s == [s[0]] + s[1..];
    forall k
      ensures KeyFilter([s[0]] + rest, key, k) == KeyFilter([x] + s, key, k)
    {
      KeyFilterCons(s[0], rest, key, k);
      KeyFilterCons(x, s[1..], key, k);
      KeyFilterCons(x, s, key, k);
      KeyFilterCons(s[0], s[1..], key, k);
      if key(x) == k && key(s[0]) == k {
        StrLessIrreflexive(k);
      }
    }
  }

  /** Places `x` in front of the first element whose key is not smaller. */
  function InsertBy<T>(x: T, s: seq<T>, key: T -> string): (r: seq<T>)
    requires SortedBy(s, key)
    ensures SortedBy(r, key)
    ensures multiset(r) == multiset(s) + multiset{x}
    ensures forall k :: KeyFilter(r, key, k) == KeyFilter([x] + s, key, k)
  {
    if s == [] || !StrLess(key(s[0]), key(x)) then
      assert SortedBy([x] + s, key) by {
        if s != [] {
          HeadIsLeast(x, s, key);
        }
        SortedPrepend(x, s, key);
      }
      [x] + s
    else
      var rest := InsertBy(x, s[1..], key);
      assert s == [s[0]] + s[1..];
      assert SortedBy([s[0]] + rest, key) by {
        HeadBelowRest(x, s, rest, key);
        SortedPrepend(s[0], rest, key);
      }
      KeyFilterBehindHead(x, s, rest, key);
      [s[0]] + rest
  }

  /** `_.sortBy(xs, key)`: the elements of `xs` in ascending key order, elements
      with equal keys keeping their original relative order. */
  function SortBy<T>(xs: seq<T>, key: T -> string): (r: seq<T>)
    ensures |r| == |xs|
    ensures multiset(r) == multiset(xs)
    ensures SortedBy(r, key)
    ensures StableFor(r, xs, key)
  {
    if xs == [] then []
    else
      var rest := SortBy(xs[1..], key);
      var r := InsertBy(xs[0], rest, key);
      assert xs == [xs[0]] + xs[1..];
      assert |r| == |multiset(r)|;
      forall k
        ensures KeyFilter(r, key, k) == KeyFilter(xs, key, k)
      {
        KeyFilterCons(xs[0], rest, key, k);
        KeyFilterCons(xs[0], xs[1..], key, k);
      }
      r
  }

  lemma KeyFilterHead<T>(s: seq<T>, key: T -> string)
    requires s != []
    ensures KeyFilter(s, key, key(s[0])) != [] && KeyFilter(s, key, key(s[0]))[0] == s[0]
  {
    KeyFilterCons(s[0], s[1..], key, key(s[0]));
    assert s == [s[0]] + s[1..];
  }

  lemma KeyFilterMember<T>(s: seq<T>, key: T -> string, k: string)
    requires KeyFilter(s, key, k) != []
    ensures exists i :: 0 <= i < |s| && key(s[i]) == k
  {
    FilterNonEmptyIff(s, x => key(x) == k);
  }

  /** A sorted, stable arrangement is unique: two sorted sequences that agree on
      the order of each key's elements are equal. */
  lemma {:induction false} SortedStableUnique<T>(a: seq<T>, b: seq<T>, key: T -> string)
    requires SortedBy(a, key) && SortedBy(b, key)
    requires forall k :: KeyFilter(a, key, k) == KeyFilter(b, key, k)
    ensures a == b
  {
    if a == [] {
      if b != [] {
        KeyFilterHead(b, key);
      }
    } else {
      KeyFilterHead(a, key);
      var k0 := key(a[0]);
      assert b != [] by { assert KeyFilter(b, key, k0) != []; }
      KeyFilterHead(b, key);
      var k1 := key(b[0]);
      if k0 != k1 {
        KeyFilterMember(a, key, k1);
        var i :| 0 <= i < |a| && key(a[i]) == k1;
        KeyFilterMember(b, key, k0);
        var j :| 0 <= j < |b| && key(b[j]) == k0;
        assert !StrLess(k1, k0) by { if i > 0 { } }
        assert !StrLess(k0, k1) by { if j > 0 { } }
        StrLessTotal(k0, k1);
      }
      assert a[0] == b[0];
      forall k
        ensures KeyFilter(a[1..], key, k) == KeyFilter(b[1..], key, k)
      {
        KeyFilterCons(a[0], a[1..], key, k);
        KeyFilterCons(b[0], b[1..], key, k);
        assert a == [a[0]] + a[1..] && b == [b[0]] + b[1..];
        var h: seq<T> := if key(a[0]) == k then [a[0]] else [];
        var fa, fb := KeyFilter(a[1..], key, k), KeyFilter(b[1..], key, k);
        assert h + fa == h + fb;
        assert fa == (h + fa)[|h|..] && fb == (h + fb)[|h|..];
      }
      SortedStableUnique(a[1..], b[1..], key);
      assert a == [a[0]] + a[1..] && b == [b[0]] + b[1..];
    }
  }

  /** `SortBy` is the only sorted, stable rearrangement of its input. */
  lemma SortByIsTheStableSort<T>(xs: seq<T>, r: seq<T>, key: T -> string)
    requires SortedBy(r, key) && StableFor(r, xs, key)
    ensures r == SortBy(xs, key)
  {
    var s := SortBy(xs, key);
    SortedStableUnique(r, s, key);
  }
}
