/** Grouping keys at a delimiter and cutting a listing into pages: the general paginator,
    the one-directory merge for `/`, and the page both are proved to return. */
module Pagination {
  import opened ByteStrings
  import opened Sorting
  import opened KeyOrder
  import opened Namespaces
  import opened Merge

  // ----- Grouping

  predicate OccursAt(s: Bytes, d: Bytes, i: nat) {
    i + |d| <= |s| && s[i..i + |d|] == d
  }

  lemma OccursInTail(s: Bytes, d: Bytes, i: nat)
    requires s != []
    ensures OccursAt(s, d, i + 1) <==> OccursAt(s[1..], d, i)
  {
    if i + 1 + |d| <= |s| {
      assert s[i + 1..i + 1 + |d|] == s[1..][i..i + |d|];
    }
  }

  lemma SlashOccurs(s: Bytes, i: nat)
    ensures OccursAt(s, [SLASH], i) <==> i < |s| && s[i] == SLASH
  {
    if i < |s| { assert s[i..i + 1] == [s[i]]; }
  }

  /** `find`: where `d` first occurs in `s`. */
  function Find(s: Bytes, d: Bytes): (r: Option<nat>)
    requires d != []
    ensures r.Some? ==> OccursAt(s, d, r.value) && forall i: nat | i < r.value :: !OccursAt(s, d, i)
    ensures r.None? ==> forall i: nat :: !OccursAt(s, d, i)
  {
    if |s| < |d| then None
    else if OccursAt(s, d, 0) then Some(0)
    else
      var tail := Find(s[1..], d);
      assert forall i: nat | i > 0 :: OccursAt(s, d, i) <==> OccursAt(s[1..], d, i - 1) by {
        forall i: nat | i > 0
          ensures OccursAt(s, d, i) <==> OccursAt(s[1..], d, i - 1)
        {
          OccursInTail(s, d, i - 1);
        }
      }
      match tail
      case None => None
      case Some(i) => Some(i + 1)
  }

  /** S3 treats an empty delimiter as none. */
  function Effective(delimiter: Option<Bytes>): Option<Bytes> {
    if delimiter == Some([]) then None else delimiter
  }

  /** The common prefix a matching key collapses to, if the delimiter follows the prefix. */
  function Collapse(key: Bytes, prefix: Bytes, delimiter: Option<Bytes>): Option<Bytes>
    requires prefix <= key
  {
    match Effective(delimiter)
    case None => None
    case Some(d) =>
      var rest := key[|prefix|..];
      match Find(rest, d)
      case None => None
      case Some(i) => Some(prefix + rest[..i + |d|])
  }

  predicate IsContent(key: Bytes, prefix: Bytes, delimiter: Option<Bytes>) {
    prefix <= key && Collapse(key, prefix, delimiter).None?
  }

  predicate IsGrouped(key: Bytes, prefix: Bytes, delimiter: Option<Bytes>) {
    prefix <= key && Collapse(key, prefix, delimiter).Some?
  }

  /** The keys listed as themselves. */
  ghost function ContentKeys(keys: set<Bytes>, prefix: Bytes, delimiter: Option<Bytes>): set<Bytes> {
    set k | k in keys && IsContent(k, prefix, delimiter)
  }

  /** The common prefixes the other matching keys collapse to. */
  ghost function CommonPrefixes(keys: set<Bytes>, prefix: Bytes, delimiter: Option<Bytes>): set<Bytes> {
    set k | k in keys && IsGrouped(k, prefix, delimiter) :: Collapse(k, prefix, delimiter).value
  }

  function KeysOf(entries: seq<ListEntry>): (r: seq<Bytes>)
    ensures |r| == |entries| && forall i | 0 <= i < |r| :: r[i] == entries[i].key
  {
    seq(|entries|, i requires 0 <= i < |entries| => entries[i].key)
  }

  ghost predicate OncePerKey(entries: seq<ListEntry>) {
    forall i, j | 0 <= i < j < |entries| :: entries[i].key != entries[j].key
  }

  function ContentTest(prefix: Bytes, delimiter: Option<Bytes>): ListEntry -> bool {
    (e: ListEntry) => IsContent(e.key, prefix, delimiter)
  }

  /** `list_to_contents`. */
  method ListToContents(entries: seq<ListEntry>, prefix: Bytes, delimiter: Option<Bytes>)
    returns (contents: seq<ListEntry>, common: set<Bytes>)
    ensures contents == Filter(entries, ContentTest(prefix, delimiter))
    ensures common == CommonPrefixes(Elems(KeysOf(entries)), prefix, delimiter)
  {
    hide CommonPrefixes, Filter, KeysOf;
    contents, common := [], {};
    NoEntriesNoPrefixes(prefix, delimiter);
    var delim := Effective(delimiter);
    for i := 0 to |entries|
      invariant contents == Filter(entries[..i], ContentTest(prefix, delimiter))
      invariant common == CommonPrefixes(Elems(KeysOf(entries[..i])), prefix, delimiter)
    {
      var entry := entries[i];
      ghost var before := entries[..i];
      assert entries[..i + 1] == before + [entry];
      FilterSnoc(before, entry, ContentTest(prefix, delimiter));
      CommonStep(before, entry, prefix, delimiter);
      if prefix <= entry.key {
        var rest := entry.key[|prefix|..];
        var found := if delim.Some? then Find(rest, delim.value) else None;
        if found.Some? {
          common := common + {prefix + rest[..found.value + |delim.value|]};
        } else {
          contents := contents + [entry];
        }
      }
    }
    assert entries[..|entries|] == entries;
  }

  lemma NoEntriesNoPrefixes(prefix: Bytes, delimiter: Option<Bytes>)
    ensures CommonPrefixes(Elems(KeysOf([])), prefix, delimiter) == {}
  {
  }

  lemma CommonStep(entries: seq<ListEntry>, e: ListEntry, prefix: Bytes, delimiter: Option<Bytes>)
    ensures CommonPrefixes(Elems(KeysOf(entries + [e])), prefix, delimiter)
         == CommonPrefixes(Elems(KeysOf(entries)), prefix, delimiter)
            + if IsGrouped(e.key, prefix, delimiter) then {Collapse(e.key, prefix, delimiter).value} else {}
  {
    assert KeysOf(entries + [e]) == KeysOf(entries) + [e.key];
    assert Elems(KeysOf(entries) + [e.key]) == Elems(KeysOf(entries)) + {e.key};
  }

  // ----- Pages

  datatype Page = Page(contents: seq<ListEntry>, commonPrefixes: seq<Bytes>, isTruncated: bool,
                       nextToken: Option<Bytes>)

  const EMPTY_PAGE := Page([], [], false, None)

  function InSet(S: set<Bytes>): Bytes -> bool {
    x => x in S
  }

  ghost function Marked(S: set<Bytes>, marker: Option<Bytes>): set<Bytes> {
    set x | x in S && Past(marker, x)
  }

  /** The outputs on the page: the first `maxKeys` of contents and common prefixes in
      order. */
  ghost function Taken(outputs: set<Bytes>, maxKeys: nat): seq<Bytes> {
    if |outputs| <= maxKeys then SortedSet(outputs) else SortedSet(outputs)[..maxKeys]
  }

  /** The page of contents `C` and common prefixes `P`. */
  ghost predicate HasPage(page: Page, C: set<Bytes>, P: set<Bytes>, maxKeys: nat) {
    if maxKeys == 0 then page == EMPTY_PAGE else
      var taken := Taken(C + P, maxKeys);
      && KeysOf(page.contents) == Filter(taken, InSet(C))
      && page.commonPrefixes == Filter(taken, InSet(P))
      && page.isTruncated == (|C + P| > maxKeys)
      && page.nextToken == if page.isTruncated then Some(taken[maxKeys - 1]) else None
  }

  lemma EmptyPage(C: set<Bytes>, P: set<Bytes>)
    ensures HasPage(EMPTY_PAGE, C, P, 0)
  {
  }

  /** Contents and common prefixes determine the page. */
  lemma PageUnique(page: Page, page': Page, files: seq<ListEntry>, C: set<Bytes>, P: set<Bytes>, maxKeys: nat)
    requires HasPage(page, C, P, maxKeys) && HasPage(page', C, P, maxKeys)
    requires OncePerKey(files)
    requires forall e | e in page.contents + page'.contents :: e in files
    ensures page == page'
  {
    hide Filter, Taken;
    if maxKeys > 0 {
      SameEntries(page.contents, page'.contents, files);
    }
  }

  lemma SameEntries(a: seq<ListEntry>, b: seq<ListEntry>, files: seq<ListEntry>)
    requires OncePerKey(files) && KeysOf(a) == KeysOf(b)
    requires forall e | e in a + b :: e in files
    ensures a == b
  {
    assert |a| == |KeysOf(a)| == |b|;
    forall i | 0 <= i < |a|
      ensures a[i] == b[i]
    {
      assert a[i] == (a + b)[i] && b[i] == (a + b)[|a| + i];
      assert a[i] in a + b && b[i] in a + b;
      assert KeysOf(a)[i] == KeysOf(b)[i];
      var j :| 0 <= j < |files| && files[j] == a[i];
      var j' :| 0 <= j' < |files| && files[j'] == b[i];
    }
  }

  // ----- The general paginator

  /** What a child directory collapses to under `/`. */
  function DirCollapse(dir: Bytes, prefix: Bytes): Bytes
    requires prefix <= dir
  {
    var rest := dir[|prefix|..];
    match Find(rest, [SLASH])
    case Some(i) => prefix + rest[..i + 1]
    case None => DirOut(dir)
  }

  ghost function DirPrefixes(dirs: seq<Bytes>, prefix: Bytes): set<Bytes> {
    set d | d in dirs && prefix <= d :: DirCollapse(d, prefix)
  }

  /** Every common prefix of the general paginator, before the marker is applied. */
  ghost function AllPrefixes(files: seq<ListEntry>, dirs: seq<Bytes>, prefix: Bytes,
                             delimiter: Option<Bytes>): set<Bytes> {
    CommonPrefixes(Elems(KeysOf(files)), prefix, delimiter) +
    if delimiter == Some([SLASH]) then DirPrefixes(dirs, prefix) else {}
  }

  /** A common prefix holds the delimiter right after the prefix part; a content's key does
      not. */
  lemma CollapseShape(key: Bytes, prefix: Bytes, delimiter: Option<Bytes>)
    requires IsGrouped(key, prefix, delimiter)
    ensures var p := Collapse(key, prefix, delimiter).value;
            && prefix <= p && p <= key
            && !IsContent(p, prefix, delimiter)
  {
    var d := Effective(delimiter).value;
    var rest := key[|prefix|..];
    var i := Find(rest, d).value;
    var p := prefix + rest[..i + |d|];
    assert key == prefix + rest;
    assert p == key[..|prefix| + i + |d|];
    assert p[|prefix|..] == rest[..i + |d|];
    assert p[|prefix|..][i..i + |d|] == rest[i..i + |d|];
    assert OccursAt(p[|prefix|..], d, i);
  }

  lemma DirCollapseShape(dir: Bytes, prefix: Bytes)
    requires prefix <= dir
    ensures prefix <= DirCollapse(dir, prefix)
    ensures !IsContent(DirCollapse(dir, prefix), prefix, Some([SLASH]))
  {
    var rest := dir[|prefix|..];
    assert dir == prefix + rest;
    var p := DirCollapse(dir, prefix);
    var i := match Find(rest, [SLASH]) case Some(i) => i case None => |rest|;
    assert p[|prefix|..] == rest[..i] + [SLASH] by {
      if Find(rest, [SLASH]).Some? {
        assert rest[i..i + 1] == [SLASH];
        assert rest[..i + 1] == rest[..i] + [SLASH];
      } else {
        assert rest[..i] == rest;
      }
    }
    assert OccursAt(p[|prefix|..], [SLASH], i);
  }

  /** No common prefix is also a content. */
  lemma PrefixesAreNotContents(files: seq<ListEntry>, dirs: seq<Bytes>, prefix: Bytes, delimiter: Option<Bytes>,
                               p: Bytes)
    requires p in AllPrefixes(files, dirs, prefix, delimiter)
    ensures !IsContent(p, prefix, delimiter)
  {
    if p in CommonPrefixes(Elems(KeysOf(files)), prefix, delimiter) {
      var k :| k in Elems(KeysOf(files)) && IsGrouped(k, prefix, delimiter)
          && Collapse(k, prefix, delimiter).value == p;
      CollapseShape(k, prefix, delimiter);
    } else {
      var d :| d in dirs && prefix <= d && DirCollapse(d, prefix) == p;
      DirCollapseShape(d, prefix);
    }
  }

  /** `BTreeSet::into_iter`: the elements in order. */
  method IntoVec(S: set<Bytes>) returns (r: seq<Bytes>)
    ensures r == SortedSet(S)
  {
    var rest := S;
    var v: seq<Bytes> := [];
    while rest != {}
      invariant forall x :: x in S <==> x in rest || x in v
    {
      var x :| x in rest;
      rest := rest - {x};
      v := v + [x];
    }
    r := SortDedup(v);
    SortedUnique(r, SortedSet(S));
  }

  /** `sort` and `dedup`. */
  method SortDedup(v: seq<Bytes>) returns (r: seq<Bytes>)
    ensures StrictlySorted(r) && forall x :: x in r <==> x in v
  {
    var id := (x: Bytes) => x;
    var sorted := SortBy(v, Compare, id);
    SortedSame(sorted, v, id);
    r := Dedup(sorted);
  }

  lemma SortedSame<T>(sorted: seq<T>, v: seq<T>, key: T -> Bytes)
    requires SortedBy(sorted, key) && multiset(sorted) == multiset(v)
    ensures forall i, j | 0 <= i < j < |sorted| :: Le(key(sorted[i]), key(sorted[j]))
    ensures forall x :: x in sorted <==> x in v
  {
    forall x
      ensures x in sorted <==> x in v
    {
      assert x in sorted <==> x in multiset(sorted);
      assert x in v <==> x in multiset(v);
    }
  }

  /** `dedup`: drops an element equal to the one kept last. */
  method Dedup(v: seq<Bytes>) returns (r: seq<Bytes>)
    requires forall i, j | 0 <= i < j < |v| :: Le(v[i], v[j])
    ensures StrictlySorted(r) && forall x :: x in r <==> x in v
  {
    r := [];
    for n := 0 to |v|
      invariant StrictlySorted(r)
      invariant forall x :: x in r <==> x in v[..n]
      invariant |r| > 0 <==> n > 0
      invariant n > 0 ==> r[|r| - 1] == v[n - 1]
    {
      hide Lt;
      assert v[..n + 1] == v[..n] + [v[n]];
      if r == [] || r[|r| - 1] != v[n] {
        forall i | 0 <= i < |r|
          ensures Lt(r[i], v[n])
        {
          assert Le(r[i], r[|r| - 1]);
          LeTransitive(r[i], v[n - 1], v[n]);
        }
        r := r + [v[n]];
      }
    }
    assert v[..|v|] == v;
  }

  lemma {:induction false} FilterOncePerKey(entries: seq<ListEntry>, keep: ListEntry -> bool)
    requires OncePerKey(entries)
    ensures OncePerKey(Filter(entries, keep))
  {
    if entries != [] {
      var n := |entries| - 1;
      var kept := Filter(entries[..n], keep);
      FilterOncePerKey(entries[..n], keep);
      forall i | 0 <= i < |kept|
        ensures kept[i].key != entries[n].key
      {
        assert kept[i] in entries[..n];
      }
    }
  }

  function KeyOfEntry(): ListEntry -> Bytes {
    (e: ListEntry) => e.key
  }

  /** Sorting entries with distinct keys lists their keys in strict order. */
  lemma SortedEntries(sorted: seq<ListEntry>, entries: seq<ListEntry>)
    requires SortedBy(sorted, KeyOfEntry()) && multiset(sorted) == multiset(entries) && OncePerKey(entries)
    ensures KeysOf(sorted) == SortedSet(Elems(KeysOf(entries)))
    ensures forall e :: e in sorted <==> e in entries
  {
    hide Lt;
    SortedSame(sorted, entries, KeyOfEntry());
    var keys := KeysOf(sorted);
    forall i, j | 0 <= i < j < |keys|
      ensures Lt(keys[i], keys[j])
    {
      EntriesDiffer(sorted, entries, i, j);
      assert Le(KeyOfEntry()(sorted[i]), KeyOfEntry()(sorted[j]));
    }
    KeysOfSame(sorted, entries);
    SortedUnique(keys, SortedSet(Elems(KeysOf(entries))));
  }

  lemma KeysOfSame(a: seq<ListEntry>, b: seq<ListEntry>)
    requires forall e :: e in a <==> e in b
    ensures forall k :: k in KeysOf(a) <==> k in KeysOf(b)
  {
    forall k
      ensures k in KeysOf(a) <==> k in KeysOf(b)
    {
      KeyIn(a, k);
      KeyIn(b, k);
    }
  }

  lemma KeyIn(a: seq<ListEntry>, k: Bytes)
    ensures k in KeysOf(a) <==> exists e | e in a :: e.key == k
  {
    if k in KeysOf(a) {
      var i :| 0 <= i < |a| && KeysOf(a)[i] == k;
      assert a[i] in a;
    }
    if exists e | e in a :: e.key == k {
      var e :| e in a && e.key == k;
      var i :| 0 <= i < |a| && a[i] == e;
      assert KeysOf(a)[i] == k;
    }
  }

  lemma EntriesDiffer(sorted: seq<ListEntry>, entries: seq<ListEntry>, i: nat, j: nat)
    requires multiset(sorted) == multiset(entries) && OncePerKey(entries) && i < j < |sorted|
    ensures sorted[i].key != sorted[j].key
  {
    PermutedDistinct(sorted, entries);
    assert sorted[i] in entries && sorted[j] in entries;
    var x :| 0 <= x < |entries| && entries[x] == sorted[i];
    var y :| 0 <= y < |entries| && entries[y] == sorted[j];
  }

  function PastEntry(marker: Option<Bytes>): ListEntry -> bool {
    (e: ListEntry) => Past(marker, e.key)
  }

  function Itself(): Bytes -> Bytes {
    (x: Bytes) => x
  }

  function PastTest(marker: Option<Bytes>): Bytes -> bool {
    x => Past(marker, x)
  }

  function InEntries(S: set<Bytes>): ListEntry -> bool {
    (e: ListEntry) => e.key in S
  }

  lemma {:induction false} FilterKeys(entries: seq<ListEntry>, keep: ListEntry -> bool, keepKey: Bytes -> bool)
    requires forall e | e in entries :: keep(e) == keepKey(e.key)
    ensures KeysOf(Filter(entries, keep)) == Filter(KeysOf(entries), keepKey)
  {
    if entries != [] {
      var n := |entries| - 1;
      assert entries[n] in entries;
      FilterKeys(entries[..n], keep, keepKey);
      assert KeysOf(entries)[..n] == KeysOf(entries[..n]);
      var tail := if keep(entries[n]) then [entries[n]] else [];
      assert KeysOf(Filter(entries[..n], keep) + tail) == KeysOf(Filter(entries[..n], keep)) + KeysOf(tail);
    }
  }

  /** The entries a listing shows as themselves, past the marker. */
  function ListedTest(prefix: Bytes, delimiter: Option<Bytes>, marker: Option<Bytes>): ListEntry -> bool {
    (e: ListEntry) => IsContent(e.key, prefix, delimiter) && Past(marker, e.key)
  }

  function FirstOf(s: seq<Bytes>, n: nat): seq<Bytes> {
    if n <= |s| then s[..n] else s
  }

  /** The page cut from listed entries, which may repeat keys, and common prefixes: all keys
      in weak order, the first `maxKeys` of them taken, the entries and prefixes of those. */
  ghost predicate IsCut(page: Page, listed: seq<ListEntry>, P: set<Bytes>, maxKeys: nat) {
    if maxKeys == 0 then page == EMPTY_PAGE else
      exists sorted: seq<ListEntry>, all: seq<Bytes> :: CutFrom(page, listed, P, maxKeys, sorted, all)
  }

  ghost predicate CutFrom(page: Page, listed: seq<ListEntry>, P: set<Bytes>, maxKeys: nat, sorted: seq<ListEntry>,
                          all: seq<Bytes>) {
    var taken := FirstOf(all, maxKeys);
    && SortedBy(sorted, KeyOfEntry()) && multiset(sorted) == multiset(listed)
    && SortedBy(all, Itself()) && multiset(all) == multiset(KeysOf(sorted) + SortedSet(P))
    && page.contents == Filter(sorted, InEntries(Elems(taken)))
    && page.commonPrefixes == Filter(SortedSet(P), InSet(Elems(taken)))
    && page.isTruncated == (|all| > maxKeys)
    && page.nextToken == if page.isTruncated && taken != [] then Some(taken[|taken| - 1]) else None
  }

  lemma CutAs(page: Page, listed: seq<ListEntry>, P: set<Bytes>, maxKeys: nat, sorted: seq<ListEntry>, all: seq<Bytes>)
    requires maxKeys > 0 && CutFrom(page, listed, P, maxKeys, sorted, all)
    ensures IsCut(page, listed, P, maxKeys)
  {
    hide CutFrom;
  }

  /** Sorted distinct keys and prefixes are the enumeration of both. */
  lemma CutInOrder(listed: seq<ListEntry>, C: set<Bytes>, P: set<Bytes>, sorted: seq<ListEntry>, all: seq<Bytes>)
    requires OncePerKey(listed) && Elems(KeysOf(listed)) == C && C !! P
    requires SortedBy(sorted, KeyOfEntry()) && multiset(sorted) == multiset(listed)
    requires SortedBy(all, Itself()) && multiset(all) == multiset(KeysOf(sorted) + SortedSet(P))
    ensures KeysOf(sorted) == SortedSet(C) && all == SortedSet(C + P)
    ensures forall e | e in sorted :: e in listed
  {
    hide Lt, SortedBy, Elems, KeysOf;
    SortedEntries(sorted, listed);
    InterleaveSorted(all, KeysOf(sorted) + SortedSet(P), C, P, Itself());
  }

  /** Of entries with distinct keys, none of them a common prefix, it is the page. */
  lemma CutIsPage(page: Page, listed: seq<ListEntry>, C: set<Bytes>, P: set<Bytes>, maxKeys: nat)
    requires IsCut(page, listed, P, maxKeys) && OncePerKey(listed)
    requires Elems(KeysOf(listed)) == C && C !! P
    ensures HasPage(page, C, P, maxKeys)
    ensures forall e | e in page.contents :: e in listed
  {
    hide Filter, KeysOf, Elems, CutFrom, HasPage, OncePerKey;
    if maxKeys > 0 {
      var sorted: seq<ListEntry>, all: seq<Bytes> :| CutFrom(page, listed, P, maxKeys, sorted, all);
      CutFromIsPage(page, listed, C, P, maxKeys, sorted, all);
    } else {
      EmptyPage(C, P);
    }
  }

  lemma CutFromIsPage(page: Page, listed: seq<ListEntry>, C: set<Bytes>, P: set<Bytes>, maxKeys: nat,
                      sorted: seq<ListEntry>, all: seq<Bytes>)
    requires maxKeys > 0 && CutFrom(page, listed, P, maxKeys, sorted, all) && OncePerKey(listed)
    requires Elems(KeysOf(listed)) == C && C !! P
    ensures HasPage(page, C, P, maxKeys)
    ensures forall e | e in page.contents :: e in listed
  {
    hide Lt, Filter, KeysOf, SortedBy, Elems, Taken, OncePerKey, SortedSet, StrictlySorted;
    CutInOrder(listed, C, P, sorted, all);
    var taken := FirstOf(all, maxKeys);
    assert |all| == |C + P|;
    TakenIs(taken, C + P, maxKeys);
    KeptContents(sorted, taken, C, P);
    KeptPrefixes(taken, C, P);
  }

  lemma {:induction false} FilterCounts<T(!new)>(s: seq<T>, keep: T -> bool, x: T)
    ensures multiset(Filter(s, keep))[x] == if keep(x) then multiset(s)[x] else 0
  {
    if s != [] {
      var init, last := s[..|s| - 1], s[|s| - 1];
      FilterCounts(init, keep, x);
      assert s == init + [last];
    }
  }

  lemma FilterPermutes<T(!new)>(s: seq<T>, t: seq<T>, keep: T -> bool)
    requires multiset(s) == multiset(t)
    ensures multiset(Filter(s, keep)) == multiset(Filter(t, keep))
  {
    hide Filter;
    forall x
      ensures multiset(Filter(s, keep))[x] == multiset(Filter(t, keep))[x]
    {
      FilterCounts(s, keep, x);
      FilterCounts(t, keep, x);
    }
  }

  lemma {:induction false} FilterTwice(s: seq<ListEntry>, prefix: Bytes, delimiter: Option<Bytes>,
                                       marker: Option<Bytes>)
    ensures Filter(Filter(s, ContentTest(prefix, delimiter)), PastEntry(marker))
              == Filter(s, ListedTest(prefix, delimiter, marker))
  {
    hide IsContent;
    if s != [] {
      var init, last := s[..|s| - 1], s[|s| - 1];
      var content, past, listed := ContentTest(prefix, delimiter), PastEntry(marker),
          ListedTest(prefix, delimiter, marker);
      assert s == init + [last];
      FilterTwice(init, prefix, delimiter, marker);
      hide Filter;
      FilterSnoc(init, last, content);
      FilterSnoc(init, last, listed);
      if content(last) {
        FilterSnoc(Filter(init, content), last, past);
      } else {
        assert Filter(init, content) + [] == Filter(init, content) && Filter(init, listed) + [] == Filter(init, listed);
      }
    }
  }

  lemma {:induction false} FilterOrdered(s: seq<ListEntry>, keep: ListEntry -> bool)
    requires SortedBy(s, KeyOfEntry())
    ensures SortedBy(Filter(s, keep), KeyOfEntry())
  {
    if s != [] {
      var init, last := s[..|s| - 1], s[|s| - 1];
      var kept := Filter(init, keep);
      FilterOrdered(init, keep);
      forall i | 0 <= i < |kept|
        ensures Le(kept[i].key, last.key)
      {
        assert kept[i] in init;
        var j :| 0 <= j < |init| && init[j] == kept[i];
        assert Le(KeyOfEntry()(s[j]), KeyOfEntry()(s[|s| - 1]));
      }
    }
  }

  /** Sorting the contents and dropping what is not past the marker leaves the listed ones. */
  lemma SortedAndPast(sorted: seq<ListEntry>, files: seq<ListEntry>, prefix: Bytes, delimiter: Option<Bytes>,
                      marker: Option<Bytes>)
    requires SortedBy(sorted, KeyOfEntry())
              && multiset(sorted) == multiset(Filter(files, ContentTest(prefix, delimiter)))
    ensures var past := Filter(sorted, PastEntry(marker));
            SortedBy(past, KeyOfEntry())
                && multiset(past) == multiset(Filter(files, ListedTest(prefix, delimiter, marker)))
    ensures marker.None? ==> Filter(sorted, PastEntry(marker)) == sorted
  {
    hide SortedBy, Filter;
    FilterOrdered(sorted, PastEntry(marker));
    FilterPermutes(sorted, Filter(files, ContentTest(prefix, delimiter)), PastEntry(marker));
    FilterTwice(files, prefix, delimiter, marker);
    if marker.None? { FilterAll(sorted, PastEntry(marker)); }
  }

  /** The listed entries have distinct keys, the contents' keys past the marker. */
  lemma ListedKeys(files: seq<ListEntry>, prefix: Bytes, delimiter: Option<Bytes>, marker: Option<Bytes>)
    ensures var listed := Filter(files, ListedTest(prefix, delimiter, marker));
            && (OncePerKey(files) ==> OncePerKey(listed))
            && Elems(KeysOf(listed)) == Marked(ContentKeys(Elems(KeysOf(files)), prefix, delimiter), marker)
  {
    hide IsContent;
    if OncePerKey(files) { FilterOncePerKey(files, ListedTest(prefix, delimiter, marker)); }
    var keep := (k: Bytes) => IsContent(k, prefix, delimiter) && Past(marker, k);
    FilterKeys(files, ListedTest(prefix, delimiter, marker), keep);
  }

  /** `paginate`: the page cut from the listed files and the common prefixes past the marker;
      for files with distinct keys, the page of their contents and common prefixes. */
  method Paginate(files: seq<ListEntry>, dirs: seq<Bytes>, prefix: Bytes, delimiter: Option<Bytes>,
                  marker: Option<Bytes>, maxKeys: nat) returns (page: Page)
    ensures IsCut(page, Filter(files, ListedTest(prefix, delimiter, marker)),
                  Marked(AllPrefixes(files, dirs, prefix, delimiter), marker), maxKeys)
    ensures OncePerKey(files) ==>
              && HasPage(page, Marked(ContentKeys(Elems(KeysOf(files)), prefix, delimiter), marker),
                               Marked(AllPrefixes(files, dirs, prefix, delimiter), marker), maxKeys)
              && forall e | e in page.contents :: e in files
  {
    page := PaginateAny(files, dirs, prefix, delimiter, marker, maxKeys);
    if OncePerKey(files) {
      hide IsCut, HasPage, OncePerKey, AllPrefixes, ContentKeys, Marked, KeysOf;
      var listed := Filter(files, ListedTest(prefix, delimiter, marker));
      ListedKeys(files, prefix, delimiter, marker);
      MarkedDisjoint(files, dirs, prefix, delimiter, marker);
      CutIsPage(page, listed, Marked(ContentKeys(Elems(KeysOf(files)), prefix, delimiter), marker),
                Marked(AllPrefixes(files, dirs, prefix, delimiter), marker), maxKeys);
    }
  }

  method PaginateAny(files: seq<ListEntry>, dirs: seq<Bytes>, prefix: Bytes, delimiter: Option<Bytes>,
                     marker: Option<Bytes>, maxKeys: nat) returns (page: Page)
    ensures IsCut(page, Filter(files, ListedTest(prefix, delimiter, marker)),
                  Marked(AllPrefixes(files, dirs, prefix, delimiter), marker), maxKeys)
  {
    hide Lt, Filter, IsContent, Collapse, StrictlySorted, CommonPrefixes, ContentKeys, DirPrefixes, SortedBy, KeysOf,
        CutFrom;
    if maxKeys == 0 {
      return EMPTY_PAGE;
    }
    ghost var P := AllPrefixes(files, dirs, prefix, delimiter);
    var contents, common := ListToContents(files, prefix, delimiter);
    var commonVec := IntoVec(common);
    if delimiter == Some([SLASH]) {
      commonVec := PushDirPrefixes(commonVec, dirs, prefix);
    }
    commonVec := SortDedup(commonVec);
    SortedUnique(commonVec, SortedSet(P));
    contents := SortBy(contents, (a: ListEntry, b: ListEntry) => Compare(a.key, b.key), KeyOfEntry());
    SortedAndPast(contents, files, prefix, delimiter, marker);
    RetainPrefixes(P, marker);
    if marker.Some? {
      contents := Filter(contents, PastEntry(marker));
      commonVec := Filter(commonVec, PastTest(marker));
    } else {
      EverythingIsPast(P);
    }
    page := CutPage(contents, commonVec, maxKeys, Filter(files, ListedTest(prefix, delimiter, marker)),
                    Marked(P, marker));
  }

  lemma EverythingIsPast(S: set<Bytes>)
    ensures Marked(S, None) == S
  {
  }

  lemma RetainPrefixes(P: set<Bytes>, marker: Option<Bytes>)
    ensures Filter(SortedSet(P), PastTest(marker)) == SortedSet(Marked(P, marker))
  {
    hide Lt, StrictlySorted, Filter;
    FilterSortedSet(P, PastTest(marker));
    assert (set x | x in P && PastTest(marker)(x)) == Marked(P, marker);
  }

  lemma MarkedDisjoint(files: seq<ListEntry>, dirs: seq<Bytes>, prefix: Bytes, delimiter: Option<Bytes>,
                       marker: Option<Bytes>)
    ensures Marked(ContentKeys(Elems(KeysOf(files)), prefix, delimiter), marker)
         !! Marked(AllPrefixes(files, dirs, prefix, delimiter), marker)
  {
    forall p | p in AllPrefixes(files, dirs, prefix, delimiter)
      ensures p !in ContentKeys(Elems(KeysOf(files)), prefix, delimiter)
    {
      PrefixesAreNotContents(files, dirs, prefix, delimiter, p);
    }
  }

  /** The loop over the child directories. */
  method PushDirPrefixes(common: seq<Bytes>, dirs: seq<Bytes>, prefix: Bytes) returns (r: seq<Bytes>)
    ensures forall x :: x in r <==> x in common || x in DirPrefixes(dirs, prefix)
  {
    r := common;
    for i := 0 to |dirs|
      invariant forall x :: x in r <==> x in common || x in DirPrefixes(dirs[..i], prefix)
    {
      var dir := dirs[i];
      assert dirs[..i + 1] == dirs[..i] + [dir];
      ghost var before := r;
      if prefix <= dir {
        var rest := dir[|prefix|..];
        var found := Find(rest, [SLASH]);
        var commonPrefix := if found.Some? then prefix + rest[..found.value + 1] else dir + [SLASH];
        assert commonPrefix == DirCollapse(dir, prefix);
        r := r + [commonPrefix];
      }
      DirPrefixesStep(dirs[..i], dir, prefix);
    }
    assert dirs[..|dirs|] == dirs;
  }

  lemma DirPrefixesStep(dirs: seq<Bytes>, d: Bytes, prefix: Bytes)
    ensures DirPrefixes(dirs + [d], prefix)
         == DirPrefixes(dirs, prefix) + if prefix <= d then {DirCollapse(d, prefix)} else {}
  {
    assert Elems(dirs + [d]) == Elems(dirs) + {d};
    forall x
      ensures x in DirPrefixes(dirs + [d], prefix)
         <==> x in DirPrefixes(dirs, prefix) || (prefix <= d && x == DirCollapse(d, prefix))
    {
      if prefix <= d && x == DirCollapse(d, prefix) {
        assert d in dirs + [d];
      }
      if x in DirPrefixes(dirs, prefix) {
        var c :| c in dirs && prefix <= c && DirCollapse(c, prefix) == x;
        assert c in dirs + [d];
      }
    }
  }

  /** Interleaves contents and common prefixes and keeps the first `maxKeys`. */
  method CutPage(contents: seq<ListEntry>, commonVec: seq<Bytes>, maxKeys: nat, ghost listed: seq<ListEntry>,
                 ghost P: set<Bytes>)
    returns (page: Page)
    requires SortedBy(contents, KeyOfEntry()) && multiset(contents) == multiset(listed)
    requires commonVec == SortedSet(P) && maxKeys > 0
    ensures IsCut(page, listed, P, maxKeys)
  {
    hide Lt, StrictlySorted, Filter, KeysOf, SortedBy, Elems, SortedSet, IsCut;
    var allKeys := KeysOf(contents) + commonVec;
    CompareDecides();
    var sorted := SortBy(allKeys, Compare, Itself());
    var take := if maxKeys <= |sorted| then maxKeys else |sorted|;
    var taken := sorted[..take];
    assert taken == FirstOf(sorted, maxKeys);
    var isTruncated := take < |sorted|;
    var pageSet := Elems(taken);
    page := Page(Filter(contents, InEntries(pageSet)), Filter(commonVec, InSet(pageSet)), isTruncated,
                 if isTruncated then Some(taken[|taken| - 1]) else None);
    CutAs(page, listed, P, maxKeys, contents, sorted);
  }

  lemma CompareDecides()
    ensures Decides(Compare, Itself())
  {
    hide Lt;
  }

  lemma TakenIs(taken: seq<Bytes>, outputs: set<Bytes>, maxKeys: nat)
    requires taken == FirstOf(SortedSet(outputs), maxKeys)
    ensures taken == Taken(outputs, maxKeys)
  {
  }

  lemma InterleaveSorted(sorted: seq<Bytes>, allKeys: seq<Bytes>, C: set<Bytes>, P: set<Bytes>, id: Bytes -> Bytes)
    requires allKeys == SortedSet(C) + SortedSet(P) && C !! P
    requires SortedBy(sorted, id) && multiset(sorted) == multiset(allKeys) && forall x :: id(x) == x
    ensures sorted == SortedSet(C + P)
  {
    SortedDistinct(SortedSet(C));
    SortedDistinct(SortedSet(P));
    ConcatDistinct(SortedSet(C), SortedSet(P));
    PermutedDistinct(sorted, allKeys);
    forall i, j | 0 <= i < j < |sorted|
      ensures Lt(sorted[i], sorted[j])
    {
      assert Le(id(sorted[i]), id(sorted[j]));
    }
    SortedUnique(sorted, SortedSet(C + P));
  }

  lemma SortedDistinct(s: seq<Bytes>)
    requires StrictlySorted(s)
    ensures Distinct(s)
  {
    forall i, j | 0 <= i < j < |s|
      ensures s[i] != s[j]
    {
      LtIrreflexive(s[i]);
    }
  }

  lemma ConcatDistinct(a: seq<Bytes>, b: seq<Bytes>)
    requires Distinct(a) && Distinct(b) && forall x | x in a :: x !in b
    ensures Distinct(a + b)
  {
    forall i, j | 0 <= i < j < |a + b|
      ensures (a + b)[i] != (a + b)[j]
    {
      assert i < |a| <= j ==> a[i] in a && b[j - |a|] in b;
    }
  }

  /** Selecting a part of `S` from what was taken of it and other keys. */
  lemma KeptPart(S: set<Bytes>, outputs: set<Bytes>, taken: seq<Bytes>)
    requires S <= outputs && taken <= SortedSet(outputs)
    ensures Filter(SortedSet(S), InSet(Elems(taken))) == Filter(taken, InSet(S))
  {
    hide Lt;
    assert StrictlySorted(taken);
    FilterSorted(SortedSet(S), InSet(Elems(taken)));
    FilterSorted(taken, InSet(S));
    SortedUnique(Filter(SortedSet(S), InSet(Elems(taken))), Filter(taken, InSet(S)));
  }

  lemma KeptContents(contents: seq<ListEntry>, taken: seq<Bytes>, C: set<Bytes>, P: set<Bytes>)
    requires KeysOf(contents) == SortedSet(C) && taken <= SortedSet(C + P)
    ensures KeysOf(Filter(contents, InEntries(Elems(taken)))) == Filter(taken, InSet(C))
  {
    hide Lt, StrictlySorted, Filter;
    FilterKeys(contents, InEntries(Elems(taken)), InSet(Elems(taken)));
    KeptPart(C, C + P, taken);
  }

  lemma KeptPrefixes(taken: seq<Bytes>, C: set<Bytes>, P: set<Bytes>)
    requires taken <= SortedSet(C + P)
    ensures Filter(SortedSet(P), InSet(Elems(taken))) == Filter(taken, InSet(P))
  {
    hide Lt, StrictlySorted, Filter;
    KeptPart(P, C + P, taken);
  }

  // ----- The one-directory merge for `/`

  function OutsOf(dirs: seq<Bytes>): (r: seq<Bytes>)
    ensures |r| == |dirs| && forall i | 0 <= i < |r| :: r[i] == DirOut(dirs[i])
  {
    seq(|dirs|, i requires 0 <= i < |dirs| => DirOut(dirs[i]))
  }

  /** The elements of a stream of outputs that match the prefix and exceed the marker. */
  ghost function Selected(s: seq<Bytes>, prefix: Bytes, marker: Option<Bytes>): set<Bytes> {
    set x | x in s && prefix <= x && Past(marker, x)
  }

  /** A stream read up to `i`: what was selected before is emitted, the rest is past the
      marker and not emitted. */
  ghost predicate ReadTo(s: seq<Bytes>, i: nat, prefix: Bytes, marker: Option<Bytes>, emitted: seq<Bytes>) {
    && i <= |s|
    && (forall j | 0 <= j < i :: s[j] in Selected(s, prefix, marker) ==> s[j] in emitted)
    && (forall j | i <= j < |s| :: s[j] !in emitted && Past(marker, s[j]))
  }

  /** The two streams have been merged up to `fi` and `di`. */
  ghost predicate Merged(f: seq<Bytes>, d: seq<Bytes>, fi: nat, di: nat, prefix: Bytes, marker: Option<Bytes>,
                         emitted: seq<Bytes>) {
    && ReadTo(f, fi, prefix, marker, emitted) && ReadTo(d, di, prefix, marker, emitted)
    && InitialRun(emitted, Selected(f, prefix, marker) + Selected(d, prefix, marker))
  }

  /** Starting at the later of the two lower bounds leaves out nothing selected. */
  lemma BoundsSkipNothing(s: seq<Bytes>, i: nat, p: nat, m: nat, prefix: Bytes, marker: Option<Bytes>)
    requires p <= |s| && m <= |s| && i == (if p >= m then p else m)
    requires forall j | 0 <= j < p :: Lt(s[j], prefix)
    requires marker.Some? ==> forall j | 0 <= j < |s| :: j < m <==> Le(s[j], marker.value)
    requires marker.None? ==> m == 0
    ensures ReadTo(s, i, prefix, marker, [])
  {
    hide Lt;
    forall j | 0 <= j < |s|
      ensures j < p ==> !(prefix <= s[j])
      ensures marker.Some? && j < m ==> !Past(marker, s[j])
      ensures i <= j ==> Past(marker, s[j])
    {
      if prefix <= s[j] { PrefixLe(prefix, s[j]); LtNotLe(s[j], prefix); }
      if marker.Some? { LtNotLe(marker.value, s[j]); }
    }
  }

  /** Past the prefix's range a sorted stream is finished. */
  lemma RangeIsOver(s: seq<Bytes>, i: nat, prefix: Bytes, marker: Option<Bytes>, emitted: seq<Bytes>)
    requires StrictlySorted(s) && i < |s| && ReadTo(s, i, prefix, marker, emitted)
    requires !(prefix <= s[i]) && Lt(prefix, s[i])
    ensures ReadTo(s, |s|, prefix, marker, emitted)
  {
    hide Lt;
    forall j | i <= j < |s|
      ensures !(prefix <= s[j])
    {
      if prefix <= s[j] {
        AbovePrefixRange(prefix, s[j], s[i]);
        LtAsymmetric(s[j], s[i]);
      }
    }
  }

  lemma SkipOne(s: seq<Bytes>, i: nat, prefix: Bytes, marker: Option<Bytes>, emitted: seq<Bytes>)
    requires i < |s| && ReadTo(s, i, prefix, marker, emitted) && !(prefix <= s[i])
    ensures ReadTo(s, i + 1, prefix, marker, emitted)
  {
  }

  /** Emitting the smaller of the two next outputs. */
  lemma EmitLeast(f: seq<Bytes>, d: seq<Bytes>, fi: nat, di: nat, prefix: Bytes, marker: Option<Bytes>,
                  emitted: seq<Bytes>)
    requires StrictlySorted(f) && StrictlySorted(d) && forall x | x in f :: x !in d
    requires Merged(f, d, fi, di, prefix, marker, emitted)
    requires fi < |f| && prefix <= f[fi]
    requires di < |d| ==> Lt(f[fi], d[di])
    ensures Merged(f, d, fi + 1, di, prefix, marker, emitted + [f[fi]])
  {
    hide Lt;
    var u := f[fi];
    var next := emitted + [u];
    var S := Selected(f, prefix, marker) + Selected(d, prefix, marker);
    assert u in S && u !in emitted;
    forall j | fi < j < |f|
      ensures f[j] !in next && Lt(u, f[j])
    {
      LtIrreflexive(u);
    }
    forall j | di <= j < |d|
      ensures d[j] !in next && Lt(u, d[j])
    {
      assert d[j] in d && u in f;
      LeTransitive(u, d[di], d[j]);
    }
    forall y | y in S && y !in next
      ensures Lt(u, y)
    {
      if y in f {
        var j :| 0 <= j < |f| && f[j] == y;
      } else {
        var j :| 0 <= j < |d| && d[j] == y;
      }
    }
  }

  lemma MergedSym(f: seq<Bytes>, d: seq<Bytes>, fi: nat, di: nat, prefix: Bytes, marker: Option<Bytes>,
                  emitted: seq<Bytes>)
    requires Merged(f, d, fi, di, prefix, marker, emitted)
    ensures Merged(d, f, di, fi, prefix, marker, emitted)
  {
    assert Selected(f, prefix, marker) + Selected(d, prefix, marker)
        == Selected(d, prefix, marker) + Selected(f, prefix, marker);
  }

  /** Both streams read to the end: everything selected is emitted. */
  lemma MergedAll(f: seq<Bytes>, d: seq<Bytes>, prefix: Bytes, marker: Option<Bytes>, emitted: seq<Bytes>)
    requires Merged(f, d, |f|, |d|, prefix, marker, emitted)
    ensures emitted == SortedSet(Selected(f, prefix, marker) + Selected(d, prefix, marker))
  {
    hide Lt;
    SortedUnique(emitted, SortedSet(Selected(f, prefix, marker) + Selected(d, prefix, marker)));
  }

  /** A page cut while a stream still has a selected output. */
  lemma MergedCut(f: seq<Bytes>, d: seq<Bytes>, fi: nat, di: nat, prefix: Bytes, marker: Option<Bytes>,
                  emitted: seq<Bytes>, next: Bytes)
    requires Merged(f, d, fi, di, prefix, marker, emitted)
    requires next in Selected(f, prefix, marker) + Selected(d, prefix, marker) && next !in emitted
    ensures var S := Selected(f, prefix, marker) + Selected(d, prefix, marker);
            |S| > |emitted| && SortedSet(S)[..|emitted|] == emitted
  {
    var S := Selected(f, prefix, marker) + Selected(d, prefix, marker);
    InitialRunIsPrefix(emitted, S);
    assert next in S - Elems(emitted);
    assert |SortedSet(S - Elems(emitted))| > 0;
  }

  /** The page built so far. */
  ghost predicate PageSoFar(files: seq<ListEntry>, contents: seq<ListEntry>, prefixes: seq<Bytes>, d: seq<Bytes>,
                            emitted: seq<Bytes>) {
    var f := KeysOf(files);
    && (forall e | e in contents :: e in files)
    && KeysOf(contents) == Filter(emitted, InSet(Elems(f)))
    && prefixes == Filter(emitted, InSet(Elems(d)))
    && |contents| + |prefixes| == |emitted|
  }

  lemma FileGrows(files: seq<ListEntry>, contents: seq<ListEntry>, prefixes: seq<Bytes>, d: seq<Bytes>,
                  emitted: seq<Bytes>, e: ListEntry)
    requires PageSoFar(files, contents, prefixes, d, emitted) && forall x | x in KeysOf(files) :: x !in d
    requires e in files && e.key in KeysOf(files)
    ensures PageSoFar(files, contents + [e], prefixes, d, emitted + [e.key])
  {
    FilterSnoc(emitted, e.key, InSet(Elems(KeysOf(files))));
    FilterSnoc(emitted, e.key, InSet(Elems(d)));
    assert KeysOf(contents + [e]) == KeysOf(contents) + [e.key];
  }

  lemma DirGrows(files: seq<ListEntry>, contents: seq<ListEntry>, prefixes: seq<Bytes>, d: seq<Bytes>,
                 emitted: seq<Bytes>, u: Bytes)
    requires PageSoFar(files, contents, prefixes, d, emitted) && forall x | x in KeysOf(files) :: x !in d
    requires u in d
    ensures PageSoFar(files, contents, prefixes + [u], d, emitted + [u])
  {
    FilterSnoc(emitted, u, InSet(Elems(KeysOf(files))));
    FilterSnoc(emitted, u, InSet(Elems(d)));
  }

  /** What was emitted from a stream is what the page selects from it. */
  lemma SameSelection(s: seq<Bytes>, other: seq<Bytes>, prefix: Bytes, marker: Option<Bytes>, emitted: seq<Bytes>)
    requires forall x | x in s :: x !in other
    requires forall x | x in emitted :: x in Selected(s, prefix, marker) + Selected(other, prefix, marker)
    ensures Filter(emitted, InSet(Elems(s))) == Filter(emitted, InSet(Selected(s, prefix, marker)))
  {
    FilterSame(emitted, InSet(Elems(s)), InSet(Selected(s, prefix, marker)));
  }

  /** Children as the merge expects them: files by key, directories by output, and no file
      named like a directory's output. */
  ghost predicate SlashInput(files: seq<ListEntry>, dirs: seq<Bytes>) {
    && StrictlySorted(KeysOf(files)) && StrictlySorted(OutsOf(dirs))
    && forall x | x in KeysOf(files) :: x !in OutsOf(dirs)
  }

  lemma BoundsMonotone(s: seq<Bytes>)
    requires StrictlySorted(s)
    ensures forall j, k, y: Bytes | 0 <= j < k < |s| && Le(s[k], y) :: Lt(s[j], y)
  {
    hide Lt;
    forall j, k, y: Bytes | 0 <= j < k < |s| && Le(s[k], y)
      ensures Lt(s[j], y)
    {
      LeTransitive(s[j], s[k], y);
    }
  }

  /** Where the files that match the prefix and exceed the marker begin. */
  method FilesLowerBound(files: seq<ListEntry>, ghost dirs: seq<Bytes>, prefix: Bytes, marker: Option<Bytes>)
    returns (fi: nat)
    requires SlashInput(files, dirs)
    ensures fi <= |files| && ReadTo(KeysOf(files), fi, prefix, marker, [])
  {
    hide Lt, StrictlySorted;
    ghost var f := KeysOf(files);
    BoundsMonotone(f);
    assert forall i | 0 <= i < |files| :: files[i].key == f[i];
    fi := PartitionPoint(files, (e: ListEntry) => Lt(e.key, prefix));
    ghost var p, m := fi, 0;
    if marker.Some? {
      var bound := PartitionPoint(files, (e: ListEntry) => Le(e.key, marker.value));
      m := bound;
      fi := if bound > fi then bound else fi;
    }
    BoundsSkipNothing(f, fi, p, m, prefix, marker);
  }

  /** Where the directories whose outputs match and exceed begin. */
  method DirsLowerBound(ghost files: seq<ListEntry>, dirs: seq<Bytes>, prefix: Bytes, marker: Option<Bytes>)
    returns (di: nat)
    requires SlashInput(files, dirs)
    ensures di <= |dirs| && ReadTo(OutsOf(dirs), di, prefix, marker, [])
  {
    hide Lt, StrictlySorted, CmpDirOutput;
    ghost var d := OutsOf(dirs);
    BoundsMonotone(d);
    CmpIsOrder(dirs);
    di := PartitionPoint(dirs, (x: Bytes) => CmpDirOutput(x, prefix) == Less);
    ghost var p, m := di, 0;
    if marker.Some? {
      var bound := PartitionPoint(dirs, (x: Bytes) => CmpDirOutput(x, marker.value) != Greater);
      m := bound;
      di := if bound > di then bound else di;
    }
    BoundsSkipNothing(d, di, p, m, prefix, marker);
  }

  lemma CmpIsOrder(dirs: seq<Bytes>)
    ensures forall i, y: Bytes | 0 <= i < |dirs| ::
              && (CmpDirOutput(dirs[i], y) == Less <==> Lt(OutsOf(dirs)[i], y))
              && (CmpDirOutput(dirs[i], y) != Greater <==> Le(OutsOf(dirs)[i], y))
              && (CmpDirOutput(dirs[i], y) == Greater <==> Lt(y, OutsOf(dirs)[i]))
  {
    hide Lt;
    forall i, y: Bytes | 0 <= i < |dirs|
      ensures CmpDirOutput(dirs[i], y) == Less <==> Lt(OutsOf(dirs)[i], y)
      ensures CmpDirOutput(dirs[i], y) != Greater <==> Le(OutsOf(dirs)[i], y)
      ensures CmpDirOutput(dirs[i], y) == Greater <==> Lt(y, OutsOf(dirs)[i])
    {
      CmpAt(dirs[i], y);
    }
  }

  lemma CmpAt(dir: Bytes, y: Bytes)
    ensures CmpDirOutput(dir, y) == Less <==> Lt(DirOut(dir), y)
    ensures CmpDirOutput(dir, y) != Greater <==> Le(DirOut(dir), y)
    ensures CmpDirOutput(dir, y) == Greater <==> Lt(y, DirOut(dir))
  {
    hide Lt;
    LtNotLe(y, DirOut(dir));
    LtIrreflexive(y);
  }

  /** Drops files outside the prefix's range. */
  method SkipFiles(files: seq<ListEntry>, i: nat, prefix: Bytes, ghost marker: Option<Bytes>, ghost emitted: seq<Bytes>)
    returns (fi: nat)
    requires StrictlySorted(KeysOf(files)) && ReadTo(KeysOf(files), i, prefix, marker, emitted)
    ensures ReadTo(KeysOf(files), fi, prefix, marker, emitted)
    ensures i <= fi <= |files| && (fi < |files| ==> prefix <= files[fi].key)
  {
    hide Lt, ReadTo;
    fi := i;
    while fi < |files| && !(prefix <= files[fi].key)
      invariant i <= fi && (fi <= |files| || fi == i) && ReadTo(KeysOf(files), fi, prefix, marker, emitted)
      decreases |files| - fi
    {
      if Lt(prefix, files[fi].key) {
        RangeIsOver(KeysOf(files), fi, prefix, marker, emitted);
        fi := |files|;
      } else {
        SkipOne(KeysOf(files), fi, prefix, marker, emitted);
        fi := fi + 1;
      }
    }
    ReadWithin(KeysOf(files), fi, prefix, marker, emitted);
  }

  /** Drops directories outside the prefix's range. */
  method SkipDirs(dirs: seq<Bytes>, i: nat, prefix: Bytes, ghost marker: Option<Bytes>, ghost emitted: seq<Bytes>)
    returns (di: nat)
    requires StrictlySorted(OutsOf(dirs)) && ReadTo(OutsOf(dirs), i, prefix, marker, emitted)
    ensures ReadTo(OutsOf(dirs), di, prefix, marker, emitted)
    ensures i <= di <= |dirs| && (di < |dirs| ==> prefix <= DirOut(dirs[di]))
  {
    hide Lt, ReadTo;
    CmpIsOrder(dirs);
    di := i;
    while di < |dirs| && !DirOutputStartsWith(dirs[di], prefix)
      invariant i <= di && (di <= |dirs| || di == i) && ReadTo(OutsOf(dirs), di, prefix, marker, emitted)
      decreases |dirs| - di
    {
      if CmpDirOutput(dirs[di], prefix) == Greater {
        RangeIsOver(OutsOf(dirs), di, prefix, marker, emitted);
        di := |dirs|;
      } else {
        SkipOne(OutsOf(dirs), di, prefix, marker, emitted);
        di := di + 1;
      }
    }
    ReadWithin(OutsOf(dirs), di, prefix, marker, emitted);
  }

  lemma ReadWithin(s: seq<Bytes>, i: nat, prefix: Bytes, marker: Option<Bytes>, emitted: seq<Bytes>)
    requires ReadTo(s, i, prefix, marker, emitted)
    ensures i <= |s|
  {
  }

  lemma NothingMerged(files: seq<ListEntry>, d: seq<Bytes>, fi: nat, di: nat, prefix: Bytes, marker: Option<Bytes>)
    requires ReadTo(KeysOf(files), fi, prefix, marker, []) && ReadTo(d, di, prefix, marker, [])
    ensures Merged(KeysOf(files), d, fi, di, prefix, marker, [])
    ensures PageSoFar(files, [], [], d, [])
  {
  }

  /** Taking the next file. */
  lemma EmitFile(files: seq<ListEntry>, dirs: seq<Bytes>, fi: nat, di: nat, prefix: Bytes, marker: Option<Bytes>,
                 emitted: seq<Bytes>, contents: seq<ListEntry>, prefixes: seq<Bytes>)
    requires SlashInput(files, dirs) && fi < |files| && prefix <= files[fi].key && di <= |dirs|
    requires Merged(KeysOf(files), OutsOf(dirs), fi, di, prefix, marker, emitted)
    requires PageSoFar(files, contents, prefixes, OutsOf(dirs), emitted)
    requires di < |dirs| ==> CmpDirOutput(dirs[di], files[fi].key) == Greater
    ensures Merged(KeysOf(files), OutsOf(dirs), fi + 1, di, prefix, marker, emitted + [files[fi].key])
    ensures PageSoFar(files, contents + [files[fi]], prefixes, OutsOf(dirs), emitted + [files[fi].key])
  {
    hide Lt, Merged, StrictlySorted, PageSoFar;
    if di < |dirs| { CmpAt(dirs[di], files[fi].key); }
    assert KeysOf(files)[fi] == files[fi].key;
    EmitLeast(KeysOf(files), OutsOf(dirs), fi, di, prefix, marker, emitted);
    FileGrows(files, contents, prefixes, OutsOf(dirs), emitted, files[fi]);
  }

  /** Taking the next directory. */
  lemma EmitDir(files: seq<ListEntry>, dirs: seq<Bytes>, fi: nat, di: nat, prefix: Bytes, marker: Option<Bytes>,
                emitted: seq<Bytes>, contents: seq<ListEntry>, prefixes: seq<Bytes>)
    requires SlashInput(files, dirs) && di < |dirs| && prefix <= DirOut(dirs[di]) && fi <= |files|
    requires Merged(KeysOf(files), OutsOf(dirs), fi, di, prefix, marker, emitted)
    requires PageSoFar(files, contents, prefixes, OutsOf(dirs), emitted)
    requires fi < |files| ==> CmpDirOutput(dirs[di], files[fi].key) != Greater
    ensures Merged(KeysOf(files), OutsOf(dirs), fi, di + 1, prefix, marker, emitted + [DirOut(dirs[di])])
    ensures PageSoFar(files, contents, prefixes + [DirOut(dirs[di])], OutsOf(dirs), emitted + [DirOut(dirs[di])])
  {
    hide Lt, Merged, StrictlySorted, PageSoFar;
    if fi < |files| { CmpAt(dirs[di], files[fi].key); }
    var f, d := KeysOf(files), OutsOf(dirs);
    assert d[di] == DirOut(dirs[di]) && d[di] in d;
    assert fi < |f| ==> f[fi] in f && f[fi] != d[di];
    MergedSym(f, d, fi, di, prefix, marker, emitted);
    EmitLeast(d, f, di, fi, prefix, marker, emitted);
    MergedSym(d, f, di + 1, fi, prefix, marker, emitted + [d[di]]);
    DirGrows(files, contents, prefixes, d, emitted, d[di]);
  }

  lemma SelectionsAgree(f: seq<Bytes>, d: seq<Bytes>, prefix: Bytes, marker: Option<Bytes>, emitted: seq<Bytes>)
    requires forall x | x in f :: x !in d
    requires InitialRun(emitted, Selected(f, prefix, marker) + Selected(d, prefix, marker))
    ensures Filter(emitted, InSet(Elems(f))) == Filter(emitted, InSet(Selected(f, prefix, marker)))
    ensures Filter(emitted, InSet(Elems(d))) == Filter(emitted, InSet(Selected(d, prefix, marker)))
  {
    hide Lt;
    SameSelection(f, d, prefix, marker, emitted);
    SameSelection(d, f, prefix, marker, emitted);
  }

  /** The page when both streams are read to the end. */
  lemma WholeSlashPage(files: seq<ListEntry>, dirs: seq<Bytes>, contents: seq<ListEntry>, prefixes: seq<Bytes>,
                       prefix: Bytes, marker: Option<Bytes>, emitted: seq<Bytes>, maxKeys: nat)
    requires SlashInput(files, dirs)
    requires Merged(KeysOf(files), OutsOf(dirs), |files|, |dirs|, prefix, marker, emitted)
    requires PageSoFar(files, contents, prefixes, OutsOf(dirs), emitted)
    requires |emitted| <= maxKeys && maxKeys > 0
    ensures HasPage(Page(contents, prefixes, false, None),
                    Selected(KeysOf(files), prefix, marker), Selected(OutsOf(dirs), prefix, marker), maxKeys)
  {
    hide Lt, Filter, Selected, ReadTo;
    var d := OutsOf(dirs);
    SelectionsAgree(KeysOf(files), d, prefix, marker, emitted);
    MergedAll(KeysOf(files), d, prefix, marker, emitted);
  }

  /** The page when it is full and a selected output is left. */
  lemma CutSlashPage(files: seq<ListEntry>, dirs: seq<Bytes>, contents: seq<ListEntry>, prefixes: seq<Bytes>, fi: nat,
                     di: nat, prefix: Bytes, marker: Option<Bytes>, emitted: seq<Bytes>, maxKeys: nat)
    requires SlashInput(files, dirs)
    requires Merged(KeysOf(files), OutsOf(dirs), fi, di, prefix, marker, emitted)
    requires PageSoFar(files, contents, prefixes, OutsOf(dirs), emitted)
    requires (fi < |files| && prefix <= files[fi].key) || (di < |dirs| && prefix <= DirOut(dirs[di]))
    requires |emitted| == maxKeys && maxKeys > 0
    ensures HasPage(Page(contents, prefixes, true, Some(emitted[maxKeys - 1])),
                    Selected(KeysOf(files), prefix, marker), Selected(OutsOf(dirs), prefix, marker), maxKeys)
  {
    hide Lt, Filter;
    var f, d := KeysOf(files), OutsOf(dirs);
    SelectionsAgree(f, d, prefix, marker, emitted);
    var next := if fi < |files| && prefix <= files[fi].key then f[fi] else d[di];
    MergedCut(f, d, fi, di, prefix, marker, emitted, next);
  }

  /** `paginate_slash`: the page of the children that match the prefix and exceed the
      marker, each directory as its output. */
  method PaginateSlash(files: seq<ListEntry>, dirs: seq<Bytes>, prefix: Bytes, marker: Option<Bytes>, maxKeys: nat)
    returns (page: Page)
    requires SlashInput(files, dirs)
    ensures HasPage(page, Selected(KeysOf(files), prefix, marker), Selected(OutsOf(dirs), prefix, marker), maxKeys)
    ensures forall e | e in page.contents :: e in files
  {
    hide Lt, Filter, Merged, ReadTo, PageSoFar, StrictlySorted, HasPage, Selected, KeysOf, OutsOf, InitialRun,
        SlashInput, CmpDirOutput;
    if maxKeys == 0 {
      EmptyPage(Selected(KeysOf(files), prefix, marker), Selected(OutsOf(dirs), prefix, marker));
      return EMPTY_PAGE;
    }
    ghost var d := OutsOf(dirs);
    var fi := FilesLowerBound(files, dirs, prefix, marker);
    var di := DirsLowerBound(files, dirs, prefix, marker);
    var contents: seq<ListEntry>, commonPrefixes: seq<Bytes> := [], [];
    var lastKey: Option<Bytes> := None;
    var isTruncated := false;
    ghost var emitted: seq<Bytes> := [];
    NothingMerged(files, d, fi, di, prefix, marker);
    PageParts(files, contents, commonPrefixes, d, emitted);
    while true
      invariant 0 <= fi && 0 <= di && Merged(KeysOf(files), d, fi, di, prefix, marker, emitted)
      invariant PageSoFar(files, contents, commonPrefixes, d, emitted)
      invariant fi <= |files| && di <= |dirs| && |contents| + |commonPrefixes| == |emitted| <= maxKeys
      invariant lastKey == if emitted == [] then None else Some(emitted[|emitted| - 1])
      decreases |files| - fi + |dirs| - di
    {
      fi, di := SkipOutside(files, dirs, fi, di, prefix, marker, emitted);
      if fi == |files| && di == |dirs| {
        WholeSlashPage(files, dirs, contents, commonPrefixes, prefix, marker, emitted, maxKeys);
        break;
      }
      if |contents| + |commonPrefixes| == maxKeys {
        isTruncated := true;
        CutSlashPage(files, dirs, contents, commonPrefixes, fi, di, prefix, marker, emitted, maxKeys);
        break;
      }
      var output: Bytes;
      fi, di, contents, commonPrefixes, output :=
        TakeNext(files, dirs, fi, di, prefix, marker, emitted, contents, commonPrefixes);
      emitted := emitted + [output];
      lastKey := Some(output);
      PageParts(files, contents, commonPrefixes, d, emitted);
    }
    PageParts(files, contents, commonPrefixes, d, emitted);
    page := Page(contents, commonPrefixes, isTruncated, if isTruncated then lastKey else None);
  }

  /** Moves the smaller of the two next outputs to the page. */
  method TakeNext(files: seq<ListEntry>, dirs: seq<Bytes>, i: nat, j: nat, ghost prefix: Bytes,
                  ghost marker: Option<Bytes>,
                  ghost emitted: seq<Bytes>, contents0: seq<ListEntry>, prefixes0: seq<Bytes>)
    returns (fi: nat, di: nat, contents: seq<ListEntry>, commonPrefixes: seq<Bytes>, output: Bytes)
    requires SlashInput(files, dirs) && Merged(KeysOf(files), OutsOf(dirs), i, j, prefix, marker, emitted)
    requires PageSoFar(files, contents0, prefixes0, OutsOf(dirs), emitted)
    requires i <= |files| && (i < |files| ==> prefix <= files[i].key)
    requires j <= |dirs| && (j < |dirs| ==> prefix <= DirOut(dirs[j]))
    requires i < |files| || j < |dirs|
    ensures i <= fi <= |files| && j <= di <= |dirs| && fi + di == i + j + 1
    ensures Merged(KeysOf(files), OutsOf(dirs), fi, di, prefix, marker, emitted + [output])
    ensures PageSoFar(files, contents, commonPrefixes, OutsOf(dirs), emitted + [output])
  {
    hide Lt, Filter, Merged, ReadTo, PageSoFar, StrictlySorted, Selected, KeysOf, OutsOf, SlashInput, CmpDirOutput;
    fi, di, contents, commonPrefixes := i, j, contents0, prefixes0;
    var takeFile := if fi < |files| && di < |dirs| then CmpDirOutput(dirs[di], files[fi].key) == Greater
                    else fi < |files|;
    if takeFile {
      EmitFile(files, dirs, fi, di, prefix, marker, emitted, contents, commonPrefixes);
      output := files[fi].key;
      contents := contents + [files[fi]];
      fi := fi + 1;
    } else {
      EmitDir(files, dirs, fi, di, prefix, marker, emitted, contents, commonPrefixes);
      output := DirOut(dirs[di]);
      commonPrefixes := commonPrefixes + [output];
      di := di + 1;
    }
  }

  lemma PageParts(files: seq<ListEntry>, contents: seq<ListEntry>, prefixes: seq<Bytes>, d: seq<Bytes>,
                  emitted: seq<Bytes>)
    requires PageSoFar(files, contents, prefixes, d, emitted)
    ensures |contents| + |prefixes| == |emitted| && forall e | e in contents :: e in files
  {
  }

  /** Drops candidates outside the prefix's range from both streams. */
  method SkipOutside(files: seq<ListEntry>, dirs: seq<Bytes>, i: nat, j: nat, prefix: Bytes,
                     ghost marker: Option<Bytes>, ghost emitted: seq<Bytes>)
    returns (fi: nat, di: nat)
    requires SlashInput(files, dirs) && Merged(KeysOf(files), OutsOf(dirs), i, j, prefix, marker, emitted)
    ensures Merged(KeysOf(files), OutsOf(dirs), fi, di, prefix, marker, emitted)
    ensures i <= fi <= |files| && (fi < |files| ==> prefix <= files[fi].key)
    ensures j <= di <= |dirs| && (di < |dirs| ==> prefix <= DirOut(dirs[di]) && OutsOf(dirs)[di] == DirOut(dirs[di]))
  {
    hide Lt, ReadTo, StrictlySorted, Selected;
    fi := SkipFiles(files, i, prefix, marker, emitted);
    di := SkipDirs(dirs, j, prefix, marker, emitted);
  }
}
