/** Sorted sequences of byte strings: the one sorted enumeration of a finite set, its
    initial runs, and the contracts of the standard library's sort and partition point. */
module Sorting {
  import opened ByteStrings

  ghost predicate StrictlySorted(s: seq<Bytes>) {
    forall i, j | 0 <= i < j < |s| :: Lt(s[i], s[j])
  }

  function Elems<T>(s: seq<T>): set<T> {
    set x | x in s
  }

  function Filter<T(!new)>(s: seq<T>, keep: T -> bool): (r: seq<T>)
    ensures forall x :: x in r <==> x in s && keep(x)
    ensures |r| <= |s|
  {
    if s == [] then [] else
      var last := s[|s| - 1];
      Filter(s[..|s| - 1], keep) + if keep(last) then [last] else []
  }

  // ----- The sorted enumeration of a set

  lemma {:induction false} LeastExists(S: set<Bytes>)
    requires S != {}
    ensures exists m :: m in S && forall x | x in S :: Le(m, x)
  {
    var y :| y in S;
    if S != {y} {
      LeastExists(S - {y});
      var m :| m in S - {y} && forall x | x in S - {y} :: Le(m, x);
      LtTotal(m, y);
      var least := if Lt(y, m) then y else m;
      forall x | x in S
        ensures Le(least, x)
      {
        if x != y && Lt(y, m) { LeTransitive(y, m, x); }
      }
    }
  }

  ghost function Least(S: set<Bytes>): (m: Bytes)
    requires S != {}
    ensures m in S && forall x | x in S :: Le(m, x)
  {
    LeastExists(S);
    var m :| m in S && forall x | x in S :: Le(m, x);
    m
  }

  /** The elements of `S` in strictly increasing order. */
  ghost function SortedSet(S: set<Bytes>): (r: seq<Bytes>)
    ensures StrictlySorted(r) && |r| == |S|
    ensures forall x :: x in r <==> x in S
  {
    if S == {} then [] else
      var m := Least(S);
      var rest := SortedSet(S - {m});
      assert forall x | x in rest :: Lt(m, x);
      [m] + rest
  }

  lemma HeadIn(s: seq<Bytes>)
    ensures s == [] || s[0] in s
  {
  }

  /** Two strictly sorted sequences of the same elements are equal. */
  lemma {:induction false} SortedUnique(s: seq<Bytes>, t: seq<Bytes>)
    requires StrictlySorted(s) && StrictlySorted(t)
    requires forall x :: x in s <==> x in t
    ensures s == t
  {
    if s == [] {
      HeadIn(t);
    } else {
      assert s[0] in t && t != [];
      assert t[0] in s;
      if s[0] != t[0] {
        assert Lt(t[0], s[0]) && Lt(s[0], t[0]);
        LtAsymmetric(s[0], t[0]);
      }
      LtIrreflexive(s[0]);
      forall x
        ensures x in s[1..] <==> x in t[1..]
      {
        if x in s[1..] { assert x in s && Lt(s[0], x); assert x in t; }
        if x in t[1..] { assert x in t && Lt(t[0], x); assert x in s; }
      }
      SortedUnique(s[1..], t[1..]);
      assert s == [s[0]] + s[1..] && t == [t[0]] + t[1..];
    }
  }

  /** `run` lists elements of `S` in order and leaves out only larger ones. */
  ghost predicate InitialRun(run: seq<Bytes>, S: set<Bytes>) {
    && StrictlySorted(run)
    && (forall x | x in run :: x in S)
    && (forall x, y | x in run && y in S && y !in run :: Lt(x, y))
  }

  lemma InitialRunIsPrefix(run: seq<Bytes>, S: set<Bytes>)
    requires InitialRun(run, S)
    ensures |run| <= |S|
    ensures SortedSet(S) == run + SortedSet(S - Elems(run))
    ensures SortedSet(S)[..|run|] == run
  {
    var rest := SortedSet(S - Elems(run));
    var all := run + rest;
    forall i, j | 0 <= i < j < |all|
      ensures Lt(all[i], all[j])
    {
      if i < |run| <= j {
        assert all[i] in run && all[j] in rest;
      }
    }
    forall x
      ensures x in all <==> x in SortedSet(S)
    {
      assert x in all <==> x in run || x in rest;
    }
    SortedUnique(all, SortedSet(S));
  }

  lemma {:induction false} FilterSorted(s: seq<Bytes>, keep: Bytes -> bool)
    requires StrictlySorted(s)
    ensures StrictlySorted(Filter(s, keep))
  {
    if s != [] {
      var last := s[|s| - 1];
      var r := Filter(s[..|s| - 1], keep);
      FilterSorted(s[..|s| - 1], keep);
      forall x | x in r
        ensures Lt(x, last)
      {
        assert x in s[..|s| - 1];
      }
    }
  }

  /** Filtering the enumeration of a set enumerates the filtered set. */
  lemma FilterSortedSet(S: set<Bytes>, keep: Bytes -> bool)
    ensures Filter(SortedSet(S), keep) == SortedSet(set x | x in S && keep(x))
  {
    FilterSorted(SortedSet(S), keep);
    SortedUnique(Filter(SortedSet(S), keep), SortedSet(set x | x in S && keep(x)));
  }

  lemma FilterSnoc<T(!new)>(s: seq<T>, x: T, keep: T -> bool)
    ensures Filter(s + [x], keep) == Filter(s, keep) + if keep(x) then [x] else []
  {
    assert (s + [x])[..|s|] == s;
  }

  lemma ConcatAssociates<T>(a: seq<T>, b: seq<T>, c: seq<T>)
    ensures (a + b) + c == a + (b + c)
  {
  }

  lemma {:induction false} FilterConcat<T(!new)>(s: seq<T>, t: seq<T>, keep: T -> bool)
    ensures Filter(s + t, keep) == Filter(s, keep) + Filter(t, keep)
  {
    if t == [] {
      assert s + t == s;
    } else {
      var init, last := t[..|t| - 1], t[|t| - 1];
      var tail := if keep(last) then [last] else [];
      assert t == init + [last];
      calc {
        Filter(s + t, keep);
        { ConcatAssociates(s, init, [last]); }
        Filter((s + init) + [last], keep);
        { FilterSnoc(s + init, last, keep); }
        Filter(s + init, keep) + tail;
        { FilterConcat(s, init, keep); }
        (Filter(s, keep) + Filter(init, keep)) + tail;
        { ConcatAssociates(Filter(s, keep), Filter(init, keep), tail); }
        Filter(s, keep) + (Filter(init, keep) + tail);
        { FilterSnoc(init, last, keep); }
        Filter(s, keep) + Filter(t, keep);
      }
    }
  }

  lemma {:induction false} FilterAll<T(!new)>(s: seq<T>, keep: T -> bool)
    requires forall x | x in s :: keep(x)
    ensures Filter(s, keep) == s
  {
    if s != [] {
      var init, last := s[..|s| - 1], s[|s| - 1];
      hide Filter;
      assert s == init + [last];
      FilterAll(init, keep);
      FilterSnoc(init, last, keep);
    }
  }

  lemma {:induction false} FilterNone<T(!new)>(s: seq<T>, keep: T -> bool)
    requires forall x | x in s :: !keep(x)
    ensures Filter(s, keep) == []
  {
    if s != [] {
      assert s[|s| - 1] in s;
      FilterNone(s[..|s| - 1], keep);
    }
  }

  lemma {:induction false} FilterSame<T(!new)>(s: seq<T>, keep: T -> bool, keep': T -> bool)
    requires forall x | x in s :: keep(x) == keep'(x)
    ensures Filter(s, keep) == Filter(s, keep')
  {
    if s != [] {
      assert s[|s| - 1] in s;
      FilterSame(s[..|s| - 1], keep, keep');
    }
  }

  // ----- Standard-library contracts

  /** `[T]::partition_point`: the first index whose element fails the predicate, for a
      sequence that has all its passing elements first. */
  method PartitionPoint<T>(s: seq<T>, pred: T -> bool) returns (i: nat)
    requires forall j, k | 0 <= j < k < |s| :: pred(s[k]) ==> pred(s[j])
    ensures i <= |s|
    ensures forall j | 0 <= j < i :: pred(s[j])
    ensures forall j | i <= j < |s| :: !pred(s[j])
  {
    var lo, hi := 0, |s|;
    while lo < hi
      invariant 0 <= lo <= hi <= |s|
      invariant forall j | 0 <= j < lo :: pred(s[j])
      invariant forall j | hi <= j < |s| :: !pred(s[j])
    {
      var mid := (lo + hi) / 2;
      if pred(s[mid]) {
        lo := mid + 1;
      } else {
        hi := mid;
      }
    }
    i := lo;
  }

  ghost predicate SortedBy<T>(s: seq<T>, key: T -> Bytes) {
    forall i, j | 0 <= i < j < |s| :: Le(key(s[i]), key(s[j]))
  }

  ghost predicate Decides<T(!new)>(cmp: (T, T) -> Ordering, key: T -> Bytes) {
    forall a, b :: cmp(a, b) == Compare(key(a), key(b))
  }

  /** `[T]::sort_by` for a comparator that decides the order of a key: a permutation in
      key order. */
  method SortBy<T(!new)>(s: seq<T>, cmp: (T, T) -> Ordering, ghost key: T -> Bytes) returns (r: seq<T>)
    requires Decides(cmp, key)
    ensures SortedBy(r, key)
    ensures multiset(r) == multiset(s)
  {
    r := [];
    for n := 0 to |s|
      invariant SortedBy(r, key)
      invariant multiset(r) == multiset(s[..n])
    {
      assert s[..n + 1] == s[..n] + [s[n]];
      r := InsertBy(r, s[n], cmp, key);
    }
    assert s[..|s|] == s;
  }

  method InsertBy<T(!new)>(s: seq<T>, x: T, cmp: (T, T) -> Ordering, ghost key: T -> Bytes) returns (r: seq<T>)
    requires Decides(cmp, key) && SortedBy(s, key)
    ensures SortedBy(r, key)
    ensures multiset(r) == multiset(s) + multiset{x}
  {
    var i := |s|;
    while i > 0 && cmp(s[i - 1], x) == Greater
      invariant 0 <= i <= |s|
      invariant forall j | i <= j < |s| :: Lt(key(x), key(s[j]))
    {
      LtTotal(key(s[i - 1]), key(x));
      i := i - 1;
    }
    r := s[..i] + [x] + s[i..];
    if i > 0 { LtTotal(key(s[i - 1]), key(x)); }
    InsertedSorted(s, x, i, key);
  }

  lemma InsertedCounts<T>(s: seq<T>, x: T, i: nat)
    requires i <= |s|
    ensures multiset(s[..i] + [x] + s[i..]) == multiset(s) + multiset{x}
  {
    assert s == s[..i] + s[i..];
  }

  lemma InsertedSorted<T>(s: seq<T>, x: T, i: nat, key: T -> Bytes)
    requires SortedBy(s, key) && i <= |s|
    requires forall j | i <= j < |s| :: Lt(key(x), key(s[j]))
    requires i > 0 ==> Le(key(s[i - 1]), key(x))
    ensures SortedBy(s[..i] + [x] + s[i..], key)
    ensures multiset(s[..i] + [x] + s[i..]) == multiset(s) + multiset{x}
  {
    hide Lt;
    InsertedCounts(s, x, i);
    forall j | 0 <= j < i
      ensures Le(key(s[j]), key(x))
    {
      if j < i - 1 { LeTransitive(key(s[j]), key(s[i - 1]), key(x)); }
    }
  }

  ghost predicate Distinct<T>(s: seq<T>) {
    forall i, j | 0 <= i < j < |s| :: s[i] != s[j]
  }

  /** A permutation of distinct elements has distinct elements, and the same ones. */
  lemma PermutedDistinct<T>(r: seq<T>, s: seq<T>)
    requires multiset(r) == multiset(s) && Distinct(s)
    ensures Distinct(r)
    ensures forall x :: x in r <==> x in s
  {
    forall x
      ensures x in r <==> x in s
    {
      assert x in r <==> x in multiset(r);
      assert x in s <==> x in multiset(s);
    }
    forall i, j | 0 <= i < j < |r|
      ensures r[i] != r[j]
    {
      assert r == r[..j] + [r[j]] + r[j + 1..];
      assert r[i] in r[..j];
      DistinctCountsOne(s, r[j]);
      assert multiset(r) == multiset(r[..j]) + multiset{r[j]} + multiset(r[j + 1..]);
    }
  }

  lemma {:induction false} DistinctCountsOne<T>(s: seq<T>, x: T)
    requires Distinct(s)
    ensures multiset(s)[x] <= 1
  {
    if s != [] {
      var n := |s| - 1;
      assert s == s[..n] + [s[n]];
      DistinctCountsOne(s[..n], x);
      if s[n] == x {
        assert x !in s[..n];
        assert x !in multiset(s[..n]);
      }
    }
  }
}
