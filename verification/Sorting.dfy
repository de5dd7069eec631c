/** A stable sort on sequences, as the meaning of Rust's `sort_by`, and the order on names. */
module Sorting {
  import opened Sets

  /** `lt` orders elements up to ties. */
  ghost predicate StrictWeak<T(!new)>(lt: (T, T) -> bool) {
    && (forall x :: !lt(x, x))
    && (forall x, y, z :: lt(x, y) && lt(y, z) ==> lt(x, z))
    && (forall x, y, z :: !lt(x, y) && !lt(y, z) ==> !lt(x, z))
  }

  ghost predicate Sorted<T>(lt: (T, T) -> bool, s: seq<T>) {
    forall i, j :: 0 <= i < j < |s| ==> !lt(s[j], s[i])
  }

  /** Places `x` before the first element that is not below it, so ties keep their order. */
  function Insert<T>(lt: (T, T) -> bool, x: T, s: seq<T>): seq<T> {
    if s == [] || !lt(s[0], x) then [x] + s else [s[0]] + Insert(lt, x, s[1..])
  }

  function Sort<T>(lt: (T, T) -> bool, s: seq<T>): seq<T> {
    if s == [] then [] else Insert(lt, s[0], Sort(lt, s[1..]))
  }

  lemma {:induction false} InsertSorted<T(!new)>(lt: (T, T) -> bool, x: T, s: seq<T>)
    requires StrictWeak(lt) && Sorted(lt, s)
    ensures Sorted(lt, Insert(lt, x, s))
    ensures multiset(Insert(lt, x, s)) == multiset(s) + multiset{x}
    decreases |s|
  {
    if s == [] || !lt(s[0], x) {
      var r := [x] + s;
      forall i, j | 0 <= i < j < |r| ensures !lt(r[j], r[i]) {
        if i == 0 && j > 1 {
          assert !lt(s[j - 1], s[0]);
        }
      }
    } else {
      assert s == [s[0]] + s[1..];
      InsertSorted(lt, x, s[1..]);
      var rest := Insert(lt, x, s[1..]);
      var r := [s[0]] + rest;
      forall j | 0 <= j < |rest| ensures !lt(rest[j], s[0]) {
        assert rest[j] in multiset(rest);
        assert rest[j] == x || rest[j] in s[1..];
      }
    }
  }

  lemma {:induction false} SortSorts<T(!new)>(lt: (T, T) -> bool, s: seq<T>)
    requires StrictWeak(lt)
    ensures Sorted(lt, Sort(lt, s)) && multiset(Sort(lt, s)) == multiset(s)
    ensures |Sort(lt, s)| == |s|
    decreases |s|
  {
    if s != [] {
      SortSorts(lt, s[1..]);
      InsertSorted(lt, s[0], Sort(lt, s[1..]));
      assert s == [s[0]] + s[1..];
    }
    assert |multiset(Sort(lt, s))| == |multiset(s)|;
  }

  lemma MultisetTail<T>(s: seq<T>)
    requires s != []
    ensures multiset(s[1..]) == multiset(s) - multiset{s[0]} && s == [s[0]] + s[1..]
  {
    assert s == [s[0]] + s[1..];
  }

  lemma SameLeast<T(!new)>(lt: (T, T) -> bool, a: seq<T>, b: seq<T>)
    requires Sorted(lt, a) && multiset(a) == multiset(b) && a != [] && b != []
    requires forall x :: !lt(x, x)
    ensures b[0] in a && !lt(b[0], a[0])
  {
    assert b[0] in multiset(a);
    var j :| 0 <= j < |a| && a[j] == b[0];
  }

  /** A sorted arrangement is unique as soon as tied elements are equal. */
  lemma {:induction false} SortedUnique<T(!new)>(lt: (T, T) -> bool, a: seq<T>, b: seq<T>)
    requires StrictWeak(lt) && Sorted(lt, a) && Sorted(lt, b)
    requires multiset(a) == multiset(b)
    requires forall x, y :: x in a && y in a && !lt(x, y) && !lt(y, x) ==> x == y
    ensures a == b
    decreases |a|
  {
    assert |multiset(a)| == |multiset(b)|;
    if a != [] {
      SameLeast(lt, a, b);
      SameLeast(lt, b, a);
      assert a[0] == b[0];
      MultisetTail(a);
      MultisetTail(b);
      SortedUnique(lt, a[1..], b[1..]);
    }
  }

  function Filter<T>(p: T -> bool, s: seq<T>): seq<T> {
    if s == [] then [] else (if p(s[0]) then [s[0]] else []) + Filter(p, s[1..])
  }

  lemma {:induction false} FilterAppend<T>(p: T -> bool, a: seq<T>, b: seq<T>)
    ensures Filter(p, a + b) == Filter(p, a) + Filter(p, b)
    decreases |a|
  {
    if a == [] {
      assert a + b == b;
    } else {
      assert (a + b)[1..] == a[1..] + b;
      FilterAppend(p, a[1..], b);
      var first: seq<T> := if p(a[0]) then [a[0]] else [];
      var fa, fb := Filter(p, a[1..]), Filter(p, b);
      assert Filter(p, a + b) == first + (fa + fb);
      assert (first + fa) + fb == first + (fa + fb);
    }
  }

  lemma {:induction false} FilterMembers<T>(p: T -> bool, s: seq<T>, x: T)
    ensures x in Filter(p, s) <==> x in s && p(x)
    decreases |s|
  {
    if s != [] {
      FilterMembers(p, s[1..], x);
      assert s == [s[0]] + s[1..];
    }
  }

  /** Of two nested filters the stronger one is enough. */
  lemma {:induction false} FilterStronger<T>(p: T -> bool, q: T -> bool, s: seq<T>)
    requires forall x :: x in s && p(x) ==> q(x)
    ensures Filter(p, Filter(q, s)) == Filter(p, s)
    decreases |s|
  {
    if s != [] {
      assert forall x :: x in s[1..] ==> x in s;
      FilterStronger(p, q, s[1..]);
      if q(s[0]) {
        assert ([s[0]] + Filter(q, s[1..]))[1..] == Filter(q, s[1..]);
      } else {
        assert Filter(q, s) == Filter(q, s[1..]);
      }
    }
  }

  lemma {:induction false} FilterAll<T>(p: T -> bool, s: seq<T>)
    requires forall x :: x in s ==> p(x)
    ensures Filter(p, s) == s
    decreases |s|
  {
    if s != [] {
      assert forall x :: x in s[1..] ==> x in s;
      FilterAll(p, s[1..]);
      assert s == [s[0]] + s[1..];
    }
  }

  lemma {:induction false} FilterNone<T>(p: T -> bool, s: seq<T>)
    requires forall x :: x in s ==> !p(x)
    ensures Filter(p, s) == []
    decreases |s|
  {
    if s != [] {
      assert forall x :: x in s[1..] ==> x in s;
      FilterNone(p, s[1..]);
    }
  }

  lemma {:induction false} FilterCommute<T>(p: T -> bool, q: T -> bool, s: seq<T>)
    ensures Filter(p, Filter(q, s)) == Filter(q, Filter(p, s))
    decreases |s|
  {
    if s != [] {
      FilterCommute(p, q, s[1..]);
      var fp, fq := Filter(p, s[1..]), Filter(q, s[1..]);
      assert ([s[0]] + fq)[1..] == fq && ([s[0]] + fp)[1..] == fp;
      if !p(s[0]) {
        assert Filter(p, s) == fp;
      }
      if !q(s[0]) {
        assert Filter(q, s) == fq;
      }
    }
  }

  /** `rel` holds between every element and each later one. */
  ghost predicate Pairwise<T>(rel: (T, T) -> bool, s: seq<T>) {
    forall i, j :: 0 <= i < j < |s| ==> rel(s[i], s[j])
  }

  lemma {:induction false} FilterPairwise<T>(rel: (T, T) -> bool, p: T -> bool, s: seq<T>)
    requires Pairwise(rel, s)
    ensures Pairwise(rel, Filter(p, s))
    decreases |s|
  {
    if s != [] {
      FilterPairwise(rel, p, s[1..]);
      var rest := Filter(p, s[1..]);
      forall j | 0 <= j < |rest| ensures rel(s[0], rest[j]) {
        FilterMembers(p, s[1..], rest[j]);
        var k :| 0 <= k < |s[1..]| && s[1..][k] == rest[j];
        assert s[k + 1] == rest[j];
      }
    }
  }

  /** `p` selects a class of mutually tied elements. */
  ghost predicate Tied<T(!new)>(lt: (T, T) -> bool, p: T -> bool) {
    forall x, y :: p(x) && p(y) ==> !lt(x, y)
  }

  lemma {:induction false} InsertStable<T(!new)>(lt: (T, T) -> bool, p: T -> bool, x: T, s: seq<T>)
    requires Tied(lt, p)
    ensures Filter(p, Insert(lt, x, s)) == Filter(p, [x] + s)
    decreases |s|
  {
    if s != [] && lt(s[0], x) {
      InsertStable(lt, p, x, s[1..]);
      assert ([s[0]] + Insert(lt, x, s[1..]))[1..] == Insert(lt, x, s[1..]);
      assert ([x] + s)[1..] == s && ([x] + s[1..])[1..] == s[1..];
      assert !(p(x) && p(s[0]));
    }
  }

  /** Stability: among tied elements the sort keeps the given order. */
  lemma {:induction false} SortStable<T(!new)>(lt: (T, T) -> bool, p: T -> bool, s: seq<T>)
    requires Tied(lt, p)
    ensures Filter(p, Sort(lt, s)) == Filter(p, s)
    decreases |s|
  {
    if s != [] {
      SortStable(lt, p, s[1..]);
      InsertStable(lt, p, s[0], Sort(lt, s[1..]));
      assert ([s[0]] + Sort(lt, s[1..]))[1..] == Sort(lt, s[1..]);
    }
  }

  // ---------------------------------------------------------------- distinct elements

  ghost predicate Distinct<T>(s: seq<T>) {
    forall i, j :: 0 <= i < j < |s| ==> s[i] != s[j]
  }

  lemma {:induction false} DistinctOnce<T>(s: seq<T>, x: T)
    requires Distinct(s)
    ensures multiset(s)[x] <= 1
    decreases |s|
  {
    if s != [] {
      DistinctOnce(s[1..], x);
      assert s == [s[0]] + s[1..];
      if s[0] == x {
        assert x !in s[1..];
      }
    }
  }

  /** A rearrangement of distinct elements is distinct. */
  lemma PermutedDistinct<T>(a: seq<T>, b: seq<T>)
    requires Distinct(a) && multiset(a) == multiset(b)
    ensures Distinct(b)
  {
    forall i, j | 0 <= i < j < |b| ensures b[i] != b[j] {
      DistinctOnce(a, b[i]);
      assert b == b[..i] + [b[i]] + b[i + 1..];
      assert b[j] == b[i + 1..][j - i - 1];
      assert multiset(b)[b[i]] >= 1 + multiset(b[i + 1..])[b[i]];
    }
  }

  /** An element of a distinct sequence is in a prefix exactly when its place is. */
  lemma PlaceInPrefix<T>(order: seq<T>, early: seq<T>, a: nat)
    requires early <= order && Distinct(order) && a < |order|
    ensures a < |early| <==> order[a] in early
  {
    if a < |early| {
      assert early[a] in early;
    }
    if order[a] in early {
      var k :| 0 <= k < |early| && early[k] == order[a];
      assert order[k] == order[a];
    }
  }

  ghost function Elements<T>(s: seq<T>): set<T> { set x | x in s }

  lemma {:induction false} DistinctSize<T>(s: seq<T>)
    requires Distinct(s)
    ensures |Elements(s)| == |s|
    decreases |s|
  {
    if s != [] {
      DistinctSize(s[1..]);
      assert s == [s[0]] + s[1..];
      assert Elements(s) == {s[0]} + Elements(s[1..]);
    }
  }

  // ---------------------------------------------------------------- the best k

  function Min(a: nat, b: nat): nat { if a < b then a else b }

  /** `out` lists `k` best elements of `all`, best first; among ties it may choose. */
  ghost predicate IsBest<T(!new)>(lt: (T, T) -> bool, all: seq<T>, k: nat, out: seq<T>) {
    && |out| == Min(k, |all|)
    && Distinct(out)
    && (forall x :: x in out ==> x in all)
    && Sorted(lt, out)
    && forall x, omitted :: x in out && omitted in all && omitted !in out ==> !lt(omitted, x)
  }

  /** At no position has one choice an element that comes before the other choice's. */
  lemma BestNeverBetter<T(!new)>(lt: (T, T) -> bool, all: seq<T>, k: nat, a: seq<T>, b: seq<T>, i: nat)
    requires StrictWeak(lt) && IsBest(lt, all, k, a) && IsBest(lt, all, k, b) && i < |a|
    ensures !lt(a[i], b[i])
  {
    if lt(a[i], b[i]) {
      var ahead, room := a[..i + 1], b[..i];
      forall x | x in ahead ensures x in room {
        assert lt(x, b[i]);
        assert x in b;
      }
      DistinctSize(ahead);
      DistinctSize(room);
      SubsetSize(Elements(ahead), Elements(room));
      assert false;
    }
  }

  /** The best `k` are determined, position by position, up to ties. */
  lemma BestUniqueUpToTies<T(!new)>(lt: (T, T) -> bool, all: seq<T>, k: nat, a: seq<T>, b: seq<T>)
    requires StrictWeak(lt) && IsBest(lt, all, k, a) && IsBest(lt, all, k, b)
    ensures |a| == |b| && forall i :: 0 <= i < |a| ==> !lt(a[i], b[i]) && !lt(b[i], a[i])
  {
    forall i | 0 <= i < |a| ensures !lt(a[i], b[i]) && !lt(b[i], a[i]) {
      BestNeverBetter(lt, all, k, a, b, i);
      BestNeverBetter(lt, all, k, b, a, i);
    }
  }

  /** A prefix of a sorted arrangement lists the best. */
  lemma PrefixIsBest<T(!new)>(lt: (T, T) -> bool, all: seq<T>, k: nat, full: seq<T>)
    requires Sorted(lt, full) && Distinct(full) && Distinct(all)
    requires forall x :: x in full <==> x in all
    ensures IsBest(lt, all, k, full[..Min(k, |full|)])
  {
    DistinctSize(full);
    DistinctSize(all);
    assert Elements(full) == Elements(all);
    var m := Min(k, |full|);
    var out := full[..m];
    forall x, omitted | x in out && omitted in all && omitted !in out ensures !lt(omitted, x) {
      var i :| 0 <= i < m && full[i] == x;
      assert full == out + full[m..];
      var j :| 0 <= j < |full[m..]| && full[m..][j] == omitted;
      assert full[m + j] == omitted;
    }
  }

  // ---------------------------------------------------------------- rearrangements

  function Map<T, U>(f: T -> U, s: seq<T>): (r: seq<U>)
    ensures |r| == |s| && forall i :: 0 <= i < |s| ==> r[i] == f(s[i])
  {
    seq(|s|, i requires 0 <= i < |s| => f(s[i]))
  }

  function Sum<T>(f: T -> nat, s: seq<T>): nat {
    if s == [] then 0 else Sum(f, s[..|s| - 1]) + f(s[|s| - 1])
  }

  lemma {:induction false} SumAppend<T>(f: T -> nat, a: seq<T>, b: seq<T>)
    ensures Sum(f, a + b) == Sum(f, a) + Sum(f, b)
    decreases |b|
  {
    if b == [] {
      assert a + b == a;
    } else {
      assert (a + b)[..|a + b| - 1] == a + b[..|b| - 1];
      SumAppend(f, a, b[..|b| - 1]);
    }
  }

  /** Of two rearrangements, the first element of one taken out of the other. */
  lemma TakeOut<T>(a: seq<T>, b: seq<T>) returns (i: nat)
    requires a != [] && multiset(a) == multiset(b)
    ensures i < |b| && b[i] == a[0] && b == b[..i] + [a[0]] + b[i + 1..]
    ensures multiset(a[1..]) == multiset(b[..i] + b[i + 1..])
  {
    MultisetTail(a);
    assert a[0] in multiset(b);
    i :| 0 <= i < |b| && b[i] == a[0];
    assert b == b[..i] + [a[0]] + b[i + 1..];
  }

  lemma {:induction false} SumPermuted<T>(f: T -> nat, a: seq<T>, b: seq<T>)
    requires multiset(a) == multiset(b)
    ensures Sum(f, a) == Sum(f, b)
    decreases |a|
  {
    if a == [] {
      assert |multiset(b)| == 0;
    } else {
      var i := TakeOut(a, b);
      SumPermuted(f, a[1..], b[..i] + b[i + 1..]);
      assert a == [a[0]] + a[1..];
      SumAppend(f, [a[0]], a[1..]);
      SumAppend(f, b[..i] + [a[0]], b[i + 1..]);
      SumAppend(f, b[..i], [a[0]]);
      SumAppend(f, b[..i], b[i + 1..]);
    }
  }

  lemma MapAppend<T, U>(f: T -> U, a: seq<T>, b: seq<T>)
    ensures Map(f, a + b) == Map(f, a) + Map(f, b)
  {
  }

  lemma {:induction false} MapPermuted<T, U>(f: T -> U, a: seq<T>, b: seq<T>)
    requires multiset(a) == multiset(b)
    ensures multiset(Map(f, a)) == multiset(Map(f, b))
    decreases |a|
  {
    if a == [] {
      assert |multiset(b)| == 0;
    } else {
      var i := TakeOut(a, b);
      var rest := b[..i] + b[i + 1..];
      MapPermuted(f, a[1..], rest);
      MapAppend(f, b[..i] + [a[0]], b[i + 1..]);
      MapAppend(f, b[..i], [a[0]]);
      MapAppend(f, b[..i], b[i + 1..]);
      MapAppend(f, [a[0]], a[1..]);
      assert a == [a[0]] + a[1..];
    }
  }

  lemma {:induction false} FilterPermuted<T>(p: T -> bool, a: seq<T>, b: seq<T>)
    requires multiset(a) == multiset(b)
    ensures multiset(Filter(p, a)) == multiset(Filter(p, b))
    decreases |a|
  {
    if a == [] {
      assert |multiset(b)| == 0;
    } else {
      var i := TakeOut(a, b);
      FilterPermuted(p, a[1..], b[..i] + b[i + 1..]);
      FilterAppend(p, b[..i] + [a[0]], b[i + 1..]);
      FilterAppend(p, b[..i], [a[0]]);
      FilterAppend(p, b[..i], b[i + 1..]);
      FilterAppend(p, [a[0]], a[1..]);
      assert a == [a[0]] + a[1..];
    }
  }

  /** Mapping what a filter keeps is keeping what is mapped. */
  lemma {:induction false} MapFilter<T, U>(f: T -> U, p: T -> bool, q: U -> bool, s: seq<T>)
    requires forall x :: x in s ==> (p(x) <==> q(f(x)))
    ensures Map(f, Filter(p, s)) == Filter(q, Map(f, s))
    decreases |s|
  {
    if s != [] {
      assert forall x :: x in s[1..] ==> x in s;
      MapFilter(f, p, q, s[1..]);
      assert Map(f, s)[1..] == Map(f, s[1..]);
      var kept := Filter(p, s[1..]);
      assert Map(f, [s[0]] + kept) == [f(s[0])] + Map(f, kept);
    }
  }

  // ---------------------------------------------------------------- names

  /** Lexicographic order by code point, which is the byte order of UTF-8. */
  predicate NameLess(a: string, b: string) {
    b != "" && (a == "" || a[0] < b[0] || (a[0] == b[0] && NameLess(a[1..], b[1..])))
  }

  lemma {:induction false} NameTrichotomy(a: string, b: string)
    ensures NameLess(a, b) || a == b || NameLess(b, a)
    ensures !(NameLess(a, b) && NameLess(b, a)) && !NameLess(a, a)
    decreases |a|
  {
    if a != "" {
      NameTrichotomy(a[1..], a[1..]);
      if b != "" {
        NameTrichotomy(a[1..], b[1..]);
        assert a == [a[0]] + a[1..] && b == [b[0]] + b[1..];
      }
    }
  }

  lemma {:induction false} NameTransitive(a: string, b: string, c: string)
    requires NameLess(a, b) && NameLess(b, c)
    ensures NameLess(a, c)
    decreases |a|
  {
    if a != "" && a[0] == b[0] == c[0] {
      NameTransitive(a[1..], b[1..], c[1..]);
    }
  }
}
