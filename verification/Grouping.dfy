/** Why the three listing strategies agree: the one-directory merge with the general
    paginator, one directory with the whole subtree, and the marker pushed down before
    grouping with the marker applied after. */
module Grouping {
  import opened ByteStrings
  import opened Sorting
  import opened Paths
  import opened Namespaces
  import opened Merge
  import opened Pagination

  // ----- What a delimiter groups

  /** `d` occurs in `s` at `i` when that many bytes stand before it and something after. */
  lemma OccursAtIff(s: Bytes, d: Bytes, i: nat)
    ensures OccursAt(s, d, i) <==> exists before: Bytes, after: Bytes :: s == before + d + after && |before| == i
  {
    if OccursAt(s, d, i) {
      assert s == s[..i] + d + s[i + |d|..];
    }
  }

  ghost predicate FirstAt(s: Bytes, d: Bytes, i: nat) {
    OccursAt(s, d, i) && forall j: nat | j < i :: !OccursAt(s, d, j)
  }

  ghost predicate Nowhere(s: Bytes, d: Bytes) {
    forall j: nat :: !OccursAt(s, d, j)
  }

  lemma FindIff(s: Bytes, d: Bytes, i: nat)
    requires d != []
    ensures Find(s, d) == Some(i) <==> FirstAt(s, d, i)
    ensures Find(s, d).None? <==> Nowhere(s, d)
  {
  }

  /** A matching key collapses to its part up to and with the first delimiter after the
      prefix. */
  lemma CollapseAt(key: Bytes, prefix: Bytes, d: Bytes)
    requires prefix <= key && d != []
    ensures var found := Find(key[|prefix|..], d);
            (found.Some? ==> |prefix| + found.value + |d| <= |key|) &&
            Collapse(key, prefix, Some(d)) ==
              if found.None? then None else Some(key[..|prefix| + found.value + |d|])
  {
    hide Find, OccursAt;
    var rest := key[|prefix|..];
    if Find(rest, d).Some? {
      var i := Find(rest, d).value;
      FirstFits(rest, d, i);
      PartOfKey(key, prefix, i + |d|);
    }
  }

  lemma FirstFits(s: Bytes, d: Bytes, i: nat)
    requires OccursAt(s, d, i)
    ensures i + |d| <= |s|
  {
  }

  lemma PartOfKey(key: Bytes, prefix: Bytes, n: nat)
    requires prefix <= key && n <= |key| - |prefix|
    ensures prefix + key[|prefix|..][..n] == key[..|prefix| + n]
  {
  }

  /** `k` starts with `prefix`, and `u` is its part up to and with the first `d` after that. */
  ghost predicate UpToFirst(k: Bytes, prefix: Bytes, d: Bytes, u: Bytes) {
    && prefix <= k
    && exists i: nat ::
        FirstAt(k[|prefix|..], d, i) && i + |d| <= |k| - |prefix| && u == k[..|prefix| + i + |d|]
  }

  lemma CollapseIff(k: Bytes, prefix: Bytes, d: Bytes, u: Bytes)
    requires d != []
    ensures IsGrouped(k, prefix, Some(d)) && Collapse(k, prefix, Some(d)).value == u <==> UpToFirst(k, prefix, d, u)
  {
    if prefix <= k {
      CollapseAt(k, prefix, d);
      hide Collapse, FirstAt;
      var rest := k[|prefix|..];
      forall i: nat
        ensures Find(rest, d) == Some(i) <==> FirstAt(rest, d, i)
      {
        FindIff(rest, d, i);
      }
      if Find(rest, d).Some? { assert FirstAt(rest, d, Find(rest, d).value); }
    }
  }

  /** The common prefixes: each matching key's part up to and with the first delimiter after
      the prefix, whatever the delimiter. */
  lemma CommonPrefixesAre(keys: set<Bytes>, prefix: Bytes, d: Bytes, u: Bytes)
    requires d != []
    ensures u in CommonPrefixes(keys, prefix, Some(d)) <==>
              exists k | k in keys :: UpToFirst(k, prefix, d, u)
  {
    hide Collapse, UpToFirst;
    if u in CommonPrefixes(keys, prefix, Some(d)) {
      var k :| k in keys && IsGrouped(k, prefix, Some(d)) && Collapse(k, prefix, Some(d)).value == u;
      CollapseIff(k, prefix, d, u);
    }
    if k :| k in keys && UpToFirst(k, prefix, d, u) {
      CollapseIff(k, prefix, d, u);
    }
  }

  /** The contents: the matching keys with no delimiter after the prefix. */
  lemma ContentKeysAre(keys: set<Bytes>, prefix: Bytes, d: Bytes, k: Bytes)
    requires d != []
    ensures k in ContentKeys(keys, prefix, Some(d)) <==> k in keys && prefix <= k && Nowhere(k[|prefix|..], d)
  {
    if prefix <= k {
      CollapseAt(k, prefix, d);
      FindIff(k[|prefix|..], d, 0);
    }
  }

  /** Without a delimiter, or with an empty one, every matching key is a content. */
  lemma WithoutDelimiter(keys: set<Bytes>, prefix: Bytes, delimiter: Option<Bytes>)
    requires delimiter.None? || delimiter.value == []
    ensures ContentKeys(keys, prefix, delimiter) == set k | k in keys && prefix <= k
    ensures CommonPrefixes(keys, prefix, delimiter) == {}
  {
  }

  /** A child directory collapses as its output does. */
  lemma DirCollapseIff(dir: Bytes, prefix: Bytes, u: Bytes)
    requires prefix <= dir
    ensures DirCollapse(dir, prefix) == u <==> UpToFirst(DirOut(dir), prefix, [SLASH], u)
  {
    var out := DirOut(dir);
    assert out[|prefix|..] == dir[|prefix|..] + [SLASH];
    CollapseIff(out, prefix, [SLASH], u);
    CollapseAt(out, prefix, [SLASH]);
    hide Collapse, Find, UpToFirst;
    FindInOutput(dir[|prefix|..]);
    match Find(dir[|prefix|..], [SLASH])
    case Some(i) => PartOfKey(out, prefix, i + 1);
    case None => assert out[..|prefix| + (|dir| - |prefix|) + 1] == out;
  }

  /** Where the first slash of an output is. */
  lemma FindInOutput(s: Bytes)
    ensures Find(s + [SLASH], [SLASH]) == match Find(s, [SLASH]) case Some(i) => Some(i) case None => Some(|s|)
  {
    forall i: nat
      ensures OccursAt(s + [SLASH], [SLASH], i) <==> i == |s| || OccursAt(s, [SLASH], i)
    {
      SlashOccurs(s + [SLASH], i);
      SlashOccurs(s, i);
    }
    hide OccursAt;
    var i := match Find(s, [SLASH]) case Some(i) => i case None => |s|;
    FindIff(s + [SLASH], [SLASH], i);
  }

  /** The general paginator's common prefixes: the keys', and for `/` the directories'. */
  lemma AllPrefixesAre(files: seq<ListEntry>, dirs: seq<Bytes>, prefix: Bytes, delimiter: Option<Bytes>, u: Bytes)
    ensures u in AllPrefixes(files, dirs, prefix, delimiter) <==>
              || u in CommonPrefixes(Elems(KeysOf(files)), prefix, delimiter)
              || (delimiter == Some([SLASH]) &&
                  exists dir | dir in dirs && prefix <= dir :: UpToFirst(DirOut(dir), prefix, [SLASH], u))
  {
    hide UpToFirst, DirCollapse, CommonPrefixes;
    forall dir | dir in dirs && prefix <= dir
      ensures DirCollapse(dir, prefix) == u <==> UpToFirst(DirOut(dir), prefix, [SLASH], u)
    {
      DirCollapseIff(dir, prefix, u);
    }
  }

  // ----- Marker pushdown

  /** A common prefix past the marker only comes from keys past the marker. */
  lemma CollapsePast(key: Bytes, prefix: Bytes, delimiter: Option<Bytes>, marker: Option<Bytes>)
    requires IsGrouped(key, prefix, delimiter)
    requires Past(marker, Collapse(key, prefix, delimiter).value)
    ensures Past(marker, key)
  {
    if marker.Some? {
      var p := Collapse(key, prefix, delimiter).value;
      CollapseShape(key, prefix, delimiter);
      BelowPrefixRange(p, key, marker.value);
    }
  }

  /** Dropping the keys up to the marker before grouping changes nothing past it. */
  lemma PushdownCommutes(keys: set<Bytes>, prefix: Bytes, delimiter: Option<Bytes>, marker: Option<Bytes>)
    ensures Marked(ContentKeys(Marked(keys, marker), prefix, delimiter), marker)
         == Marked(ContentKeys(keys, prefix, delimiter), marker)
    ensures Marked(CommonPrefixes(Marked(keys, marker), prefix, delimiter), marker)
         == Marked(CommonPrefixes(keys, prefix, delimiter), marker)
  {
    hide Lt, Collapse;
    forall p
      ensures p in Marked(CommonPrefixes(Marked(keys, marker), prefix, delimiter), marker)
         <==> p in Marked(CommonPrefixes(keys, prefix, delimiter), marker)
    {
      if p in Marked(CommonPrefixes(keys, prefix, delimiter), marker) {
        var k :| k in keys && IsGrouped(k, prefix, delimiter) && Collapse(k, prefix, delimiter).value == p;
        CollapsePast(k, prefix, delimiter, marker);
        assert k in Marked(keys, marker);
      }
      if p in Marked(CommonPrefixes(Marked(keys, marker), prefix, delimiter), marker) {
        var k :| k in Marked(keys, marker) && IsGrouped(k, prefix, delimiter)
            && Collapse(k, prefix, delimiter).value == p;
        assert k in keys;
      }
    }
  }

  // ----- One directory

  /** The prefix lies within the names of the directory whose keys start with `dp`. */
  ghost predicate WithinDir(dp: Bytes, prefix: Bytes) {
    dp <= prefix && forall i | |dp| <= i < |prefix| :: prefix[i] != SLASH
  }

  lemma NoSlashNoCollapse(key: Bytes, prefix: Bytes)
    requires prefix <= key && forall i | |prefix| <= i < |key| :: key[i] != SLASH
    ensures Collapse(key, prefix, Some([SLASH])) == None
    ensures Find(key[|prefix|..], [SLASH]) == None
  {
    var rest := key[|prefix|..];
    forall i: nat
      ensures !OccursAt(rest, [SLASH], i)
    {
      SlashOccurs(rest, i);
    }
  }

  /** A child of the directory is a content, or collapses to its output. */
  lemma ChildCollapse(dp: Bytes, prefix: Bytes, child: Bytes)
    requires WithinDir(dp, prefix) && ChildOf(dp, child)
    ensures prefix <= child ==> IsContent(child, prefix, Some([SLASH])) && DirCollapse(child, prefix) == DirOut(child)
    ensures prefix <= DirOut(child) <==> prefix <= child
  {
    ChildHasNoSlash(dp, child);
    if prefix <= child {
      NoSlashNoCollapse(child, prefix);
      PrefixTransitive(prefix, child, DirOut(child));
    }
    if prefix <= DirOut(child) {
      PrefixAgrees(prefix, DirOut(child), |child|);
      if |prefix| <= |child| { PrefixesNest(prefix, child, DirOut(child)); }
    }
  }

  lemma PrefixAgrees(p: Bytes, s: Bytes, i: nat)
    requires p <= s && i < |s|
    ensures i < |p| ==> p[i] == s[i]
  {
  }

  /** On the sorted children of the prefix's directory the two paginators select the same. */
  lemma SlashSelects(dp: Bytes, files: seq<ListEntry>, dirs: seq<Bytes>, prefix: Bytes, marker: Option<Bytes>)
    requires WithinDir(dp, prefix)
    requires forall i | 0 <= i < |files| :: ChildOf(dp, files[i].key)
    requires forall i | 0 <= i < |dirs| :: ChildOf(dp, dirs[i])
    ensures Selected(KeysOf(files), prefix, marker)
         == Marked(ContentKeys(Elems(KeysOf(files)), prefix, Some([SLASH])), marker)
    ensures Selected(OutsOf(dirs), prefix, marker)
         == Marked(AllPrefixes(files, dirs, prefix, Some([SLASH])), marker)
  {
    hide Lt, Collapse, DirCollapse, IsContent;
    var f, d := KeysOf(files), OutsOf(dirs);
    forall k | k in f && prefix <= k
      ensures IsContent(k, prefix, Some([SLASH]))
    {
      var i :| 0 <= i < |f| && f[i] == k;
      ChildCollapse(dp, prefix, files[i].key);
    }
    ContentsDoNotGroup(f, prefix);
    ContentsMatch(f, prefix);
    forall u
      ensures u in d && prefix <= u <==> u in DirPrefixes(dirs, prefix)
    {
      if u in d && prefix <= u {
        var i :| 0 <= i < |d| && d[i] == u;
        ChildCollapse(dp, prefix, dirs[i]);
        assert dirs[i] in dirs;
      }
      if u in DirPrefixes(dirs, prefix) {
        var c :| c in dirs && prefix <= c && DirCollapse(c, prefix) == u;
        var i :| 0 <= i < |dirs| && dirs[i] == c;
        ChildCollapse(dp, prefix, c);
        assert d[i] == u;
      }
    }
  }

  lemma ContentsMatch(f: seq<Bytes>, prefix: Bytes)
    requires forall k | k in f && prefix <= k :: IsContent(k, prefix, Some([SLASH]))
    ensures forall k :: k in ContentKeys(Elems(f), prefix, Some([SLASH])) <==> k in f && prefix <= k
  {
  }

  lemma ContentsDoNotGroup(f: seq<Bytes>, prefix: Bytes)
    requires forall k | k in f && prefix <= k :: IsContent(k, prefix, Some([SLASH]))
    ensures CommonPrefixes(Elems(f), prefix, Some([SLASH])) == {}
  {
  }

  /** The fast paginator returns the page of the general one. */
  lemma FastIsSimple(dp: Bytes, files: seq<ListEntry>, dirs: seq<Bytes>, prefix: Bytes, marker: Option<Bytes>,
                     maxKeys: nat, fast: Page, simple: Page)
    requires WithinDir(dp, prefix)
    requires forall i | 0 <= i < |files| :: ChildOf(dp, files[i].key)
    requires forall i | 0 <= i < |dirs| :: ChildOf(dp, dirs[i])
    requires OncePerKey(files) && forall e | e in fast.contents + simple.contents :: e in files
    requires HasPage(fast, Selected(KeysOf(files), prefix, marker), Selected(OutsOf(dirs), prefix, marker), maxKeys)
    requires HasPage(simple, Marked(ContentKeys(Elems(KeysOf(files)), prefix, Some([SLASH])), marker),
                             Marked(AllPrefixes(files, dirs, prefix, Some([SLASH])), marker), maxKeys)
    ensures fast == simple
  {
    hide HasPage, Marked, Selected, ContentKeys, AllPrefixes;
    SlashSelects(dp, files, dirs, prefix, marker);
    PageUnique(fast, simple, files, Selected(KeysOf(files), prefix, marker), Selected(OutsOf(dirs), prefix, marker),
               maxKeys);
  }

  // ----- One directory against the whole subtree

  /** Child directories that match the prefix and have no file below them. */
  ghost function EmptyDirs(ns: Namespace, dp: Bytes, prefix: Bytes): set<Bytes> {
    set d | d in ns.dirs && ChildOf(dp, d) && prefix <= d && (forall k | k in ns.files :: !(DirOut(d) <= k)) ::
        DirOut(d)
  }

  /** A matching file with a slash after the prefix lies below a child directory, and
      collapses to its output. */
  lemma GroupedIsBelowChild(ns: Namespace, dp: Bytes, prefix: Bytes, k: Bytes) returns (d: Bytes)
    requires ns.Valid() && WithinDir(dp, prefix) && (dp == [] || IsDirItem(dp))
    requires k in ns.files && IsGrouped(k, prefix, Some([SLASH]))
    ensures d in ns.dirs && ChildOf(dp, d) && prefix <= d && DirOut(d) <= k
    ensures Collapse(k, prefix, Some([SLASH])).value == DirOut(d)
  {
    hide Canonical, Split;
    var rest := k[|prefix|..];
    var i := Find(rest, [SLASH]).value;
    assert rest[i] == rest[i..i + 1][0] == SLASH;
    forall j | 0 <= j < i
      ensures rest[j] != SLASH
    {
      assert !OccursAt(rest, [SLASH], j);
      assert rest[j..j + 1] == [rest[j]];
    }
    var n := |prefix| + i;
    d := k[..n];
    assert k[n] == SLASH;
    assert d in ns.dirs;
    KeyShape(ns, d);
    assert DirOut(d) == k[..n + 1];
    assert prefix + rest[..i + 1] == k[..n + 1];
    assert prefix <= d && dp <= d;
    assert |dp| == |d| ==> d == dp;
    forall j | |dp| <= j < |d|
      ensures d[j] != SLASH
    {
      if j < |prefix| { assert d[j] == prefix[j]; } else { assert d[j] == rest[j - |prefix|]; }
    }
  }

  /** What lies below a matching child directory collapses to its output. */
  lemma BelowChildIsGrouped(dp: Bytes, prefix: Bytes, d: Bytes, k: Bytes)
    requires WithinDir(dp, prefix) && ChildOf(dp, d) && prefix <= d && DirOut(d) <= k
    ensures IsGrouped(k, prefix, Some([SLASH])) && Collapse(k, prefix, Some([SLASH])).value == DirOut(d)
  {
    ChildHasNoSlash(dp, d);
    PrefixTransitive(prefix, d, DirOut(d));
    PrefixTransitive(prefix, DirOut(d), k);
    var rest := k[|prefix|..];
    var n := |d| - |prefix|;
    assert k[|d|] == DirOut(d)[|d|];
    assert rest[n..n + 1] == [rest[n]] && OccursAt(rest, [SLASH], n);
    forall j: nat | j < n
      ensures !OccursAt(rest, [SLASH], j)
    {
      assert rest[j..j + 1] == [rest[j]];
      assert rest[j] == k[|prefix| + j] == DirOut(d)[|prefix| + j] == d[|prefix| + j];
    }
    assert prefix + rest[..n + 1] == k[..|d| + 1] == DirOut(d);
  }

  /** The one-directory listing for `/` lists what grouping every key of the subtree lists,
      and one common prefix for each matching child directory with no file below it. */
  lemma OneDirectoryIsSubtree(ns: Namespace, dp: Bytes, prefix: Bytes, marker: Option<Bytes>, l: DirListing)
    requires ns.Valid() && WithinDir(dp, prefix) && (dp == [] || IsDirItem(dp)) && IsListing(ns, dp, l)
    ensures Selected(KeysOf(l.files), prefix, marker)
         == Marked(ContentKeys(ns.files.Keys, prefix, Some([SLASH])), marker)
    ensures Selected(OutsOf(l.dirs), prefix, marker)
         == Marked(CommonPrefixes(ns.files.Keys, prefix, Some([SLASH])) + EmptyDirs(ns, dp, prefix), marker)
  {
    hide Lt, Collapse, IsListing;
    forall u
      ensures u in KeysOf(l.files) && prefix <= u <==> u in ContentKeys(ns.files.Keys, prefix, Some([SLASH]))
    {
      ListedContents(ns, dp, prefix, l, u);
    }
    forall u
      ensures u in OutsOf(l.dirs) && prefix <= u
         <==> u in CommonPrefixes(ns.files.Keys, prefix, Some([SLASH])) + EmptyDirs(ns, dp, prefix)
    {
      ListedPrefixes(ns, dp, prefix, l, u);
    }
  }

  lemma ListedContents(ns: Namespace, dp: Bytes, prefix: Bytes, l: DirListing, u: Bytes)
    requires ns.Valid() && WithinDir(dp, prefix) && (dp == [] || IsDirItem(dp)) && IsListing(ns, dp, l)
    ensures u in KeysOf(l.files) && prefix <= u <==> u in ContentKeys(ns.files.Keys, prefix, Some([SLASH]))
  {
    if u in KeysOf(l.files) && prefix <= u {
      var i :| 0 <= i < |l.files| && l.files[i].key == u;
      ChildCollapse(dp, prefix, u);
    }
    if u in ContentKeys(ns.files.Keys, prefix, Some([SLASH])) {
      ContentIsChild(ns, dp, prefix, u);
      var i :| 0 <= i < |l.files| && l.files[i] == ns.Entry(u);
      assert KeysOf(l.files)[i] == u;
    }
  }

  lemma ContentIsChild(ns: Namespace, dp: Bytes, prefix: Bytes, k: Bytes)
    requires ns.Valid() && WithinDir(dp, prefix) && (dp == [] || IsDirItem(dp))
    requires k in ns.files && IsContent(k, prefix, Some([SLASH]))
    ensures ChildOf(dp, k)
  {
    KeyShape(ns, k);
    var rest := k[|prefix|..];
    forall i | |dp| <= i < |k|
      ensures k[i] != SLASH
    {
      if i < |prefix| {
        assert k[i] == prefix[i];
      } else {
        assert !OccursAt(rest, [SLASH], i - |prefix|);
        assert rest[i - |prefix|..i - |prefix| + 1] == [k[i]];
      }
    }
    assert k[..|dp|] == prefix[..|dp|] == dp;
    assert k != dp;
  }

  lemma ListedPrefixes(ns: Namespace, dp: Bytes, prefix: Bytes, l: DirListing, u: Bytes)
    requires ns.Valid() && WithinDir(dp, prefix) && (dp == [] || IsDirItem(dp)) && IsListing(ns, dp, l)
    ensures u in OutsOf(l.dirs) && prefix <= u
       <==> u in CommonPrefixes(ns.files.Keys, prefix, Some([SLASH])) + EmptyDirs(ns, dp, prefix)
  {
    hide Collapse;
    if u in OutsOf(l.dirs) && prefix <= u {
      var i :| 0 <= i < |l.dirs| && OutsOf(l.dirs)[i] == u;
      var d := l.dirs[i];
      assert d in l.dirs;
      ChildCollapse(dp, prefix, d);
      if exists k | k in ns.files :: DirOut(d) <= k {
        var k :| k in ns.files && DirOut(d) <= k;
        BelowChildIsGrouped(dp, prefix, d, k);
      } else {
        assert u in EmptyDirs(ns, dp, prefix);
      }
    }
    if u in CommonPrefixes(ns.files.Keys, prefix, Some([SLASH])) {
      var k :| k in ns.files && IsGrouped(k, prefix, Some([SLASH])) && Collapse(k, prefix, Some([SLASH])).value == u;
      var d := GroupedIsBelowChild(ns, dp, prefix, k);
      ListedDir(ns, dp, prefix, l, d);
    }
    if u in EmptyDirs(ns, dp, prefix) {
      var d :| d in ns.dirs && ChildOf(dp, d) && prefix <= d && DirOut(d) == u;
      ListedDir(ns, dp, prefix, l, d);
    }
  }

  lemma ListedDir(ns: Namespace, dp: Bytes, prefix: Bytes, l: DirListing, d: Bytes)
    requires IsListing(ns, dp, l) && d in ns.dirs && ChildOf(dp, d) && prefix <= d
    ensures DirOut(d) in OutsOf(l.dirs) && prefix <= DirOut(d)
  {
    PrefixTransitive(prefix, d, DirOut(d));
    var i :| 0 <= i < |l.dirs| && l.dirs[i] == d;
    assert OutsOf(l.dirs)[i] == DirOut(d);
  }
}
