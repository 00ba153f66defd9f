/** `ListObjectsV2`: the choice of strategy, the page it answers with, and what a client
    sees that follows the continuation tokens. */
module ListObjects {
  import opened ByteStrings
  import opened Sorting
  import opened Paths
  import opened Namespaces
  import opened Merge
  import opened DirLister
  import opened SortedListings
  import opened FlatListing
  import opened Pagination
  import opened Grouping

  const SLASH_DELIMITER: Option<Bytes> := Some([SLASH])

  // ----- The start of a listing

  /** No key, and no directory's output, starts with the prefix. */
  ghost predicate Unmatched(prefix: Bytes) {
    forall k | Canonical(k) :: !(prefix <= k) && !(prefix <= DirOut(k))
  }

  /** The directory part of a prefix that a key or a directory's output starts with. */
  lemma MatchedStart(m: PathMapper, prefix: Bytes, k: Bytes) returns (sp: Bytes)
    requires m.Valid() && m.ListStart(prefix).Some?
    requires Canonical(k) && (prefix <= k || prefix <= DirOut(k))
    ensures StartsAt(sp, prefix) && m.ListStart(prefix) == Some(StartPath(m, sp))
  {
    if prefix <= k {
      sp := MatchedPrefixStarts(prefix, k);
    } else {
      PrefixOfOutput(prefix, k);
      sp := prefix;
      DirItem(k);
    }
    if prefix == [DOT] || prefix == [DOT, DOT] { SplitNoSlash(prefix); }
    ListStartCanonical(m, prefix, sp);
  }

  lemma PrefixOfOutput(prefix: Bytes, k: Bytes)
    requires prefix <= DirOut(k)
    ensures prefix <= k || prefix == DirOut(k)
  {
    if |prefix| <= |k| {
      assert prefix == DirOut(k)[..|prefix|] == k[..|prefix|];
    }
  }

  /** Where a listing of the prefix starts: at the prefix's own directory part, or anywhere
      if nothing can match. */
  lemma StartOf(m: PathMapper, prefix: Bytes) returns (sp: Bytes)
    requires m.Valid() && m.ListStart(prefix).Some?
    ensures sp == [] || (IsDirItem(sp) && Canonical(DirOf(sp)))
    ensures m.ListStart(prefix) == Some(StartPath(m, sp)) && DirPart(m, m.ListStart(prefix).value) == sp
    ensures StartsAt(sp, prefix) || Unmatched(prefix)
  {
    hide Split, Join, Resolve, Render, Normalize, Canonical, PathMapper.ListStart, PathMapper.KeyToHdfsPath,
      TrimSlashes, LastSlash;
    var p := m.ListStart(prefix).value;
    if Unmatched(prefix) {
      ListStartContained(m, prefix);
      if p == m.root {
        sp := [];
      } else {
        var d := p[|m.Base()|..];
        assert p == m.Base() + d;
        DirItem(d);
        sp := DirOut(d);
      }
    } else {
      var k :| Canonical(k) && (prefix <= k || prefix <= DirOut(k));
      sp := MatchedStart(m, prefix, k);
    }
    StartPartOf(m, sp);
  }

  // ----- The reference listing

  /** The keys the request can list: all of them, or those below listable directories. */
  ghost function Listable(ns: Namespace, sp: Bytes, delimiter: Option<Bytes>): Namespace {
    if delimiter == SLASH_DELIMITER then ns else Pruned(ns, sp)
  }

  /** The contents of the whole listing, whatever the page. */
  ghost function AllContents(ns: Namespace, prefix: Bytes, delimiter: Option<Bytes>): set<Bytes> {
    ContentKeys(ns.files.Keys, prefix, delimiter)
  }

  /** The common prefixes of the whole listing; with `/` also matching directories that
      hold no file. */
  ghost function AllCommon(ns: Namespace, sp: Bytes, prefix: Bytes, delimiter: Option<Bytes>): set<Bytes> {
    CommonPrefixes(ns.files.Keys, prefix, delimiter) +
    if delimiter == SLASH_DELIMITER then EmptyDirs(ns, sp, prefix) else {}
  }

  ghost predicate Accurate(ns: Namespace, page: Page) {
    forall e | e in page.contents :: e.key in ns.files && e == ns.Entry(e.key)
  }

  /** The page of the request is that of the reference listing. */
  ghost predicate IsReferencePage(ns: Namespace, sp: Bytes, prefix: Bytes, delimiter: Option<Bytes>,
                                  marker: Option<Bytes>, maxKeys: nat, page: Page) {
    var vis := Listable(ns, sp, delimiter);
    && HasPage(page, Marked(AllContents(vis, prefix, delimiter), marker),
                     Marked(AllCommon(vis, sp, prefix, delimiter), marker), maxKeys)
    && Accurate(ns, page)
  }

  /** The flat walk reaches a directory that cannot be listed for another reason than
      denial or deletion. */
  ghost predicate WalkFails(ns: Namespace, q: Query, limit: nat) {
    exists u | u in WantedItems(ns, q) :: Fatal(ns, u) && BeforeCut(ns, q, limit, u)
  }

  /** The answer to a listing request, in all three modes. */
  ghost predicate IsListed(ns: Namespace, m: PathMapper, prefix: Bytes, delimiter: Option<Bytes>,
                           marker: Option<Bytes>, maxKeys: nat, r: Result<Page, HdfsError>) {
    if m.ListStart(prefix).None? then r == Ok(EMPTY_PAGE)
    else
      var sp := DirPart(m, m.ListStart(prefix).value);
      var q := Query(sp, prefix, marker);
      var limit := if delimiter.None? then maxKeys else USIZE_MAX;
      if maxKeys == 0 && delimiter != SLASH_DELIMITER then r == Ok(EMPTY_PAGE)
      else if !StartOpens(ns, sp) then
        r == if StartError(ns, sp).FileNotFound? then Ok(EMPTY_PAGE) else Err(StartError(ns, sp))
      else
        && (r.Err? <==> delimiter != SLASH_DELIMITER && WalkFails(ns, q, limit))
        && match r
           case Ok(page) => IsReferencePage(ns, sp, prefix, delimiter, marker, maxKeys, page)
           case Err(e) => exists u | u in ns.errors && ns.errors[u] == e :: FirstFailure(ns, q, limit, u)
  }

  // ----- The answer is unique

  lemma AccurateUnique(ns: Namespace, page: Page, page': Page, C: set<Bytes>, P: set<Bytes>, maxKeys: nat)
    requires HasPage(page, C, P, maxKeys) && HasPage(page', C, P, maxKeys)
    requires Accurate(ns, page) && Accurate(ns, page')
    ensures page == page'
  {
    hide Filter, Taken;
    if maxKeys > 0 {
      var a, b := page.contents, page'.contents;
      assert |a| == |KeysOf(a)| == |b|;
      forall i | 0 <= i < |a|
        ensures a[i] == b[i]
      {
        assert a[i] in a && b[i] in b && KeysOf(a)[i] == KeysOf(b)[i];
      }
    }
  }

  lemma FirstFailureUnique(ns: Namespace, q: Query, limit: nat, u: Bytes, u': Bytes)
    requires FirstFailure(ns, q, limit, u) && FirstFailure(ns, q, limit, u')
    ensures u == u'
  {
    hide Lt, WantedItems, Fatal, BeforeCut;
    assert Le(u, u') && Le(u', u);
    if u != u' { LtAsymmetric(u, u'); }
  }

  /** A listing request has one answer, whatever is cached. */
  lemma ListedUnique(ns: Namespace, m: PathMapper, prefix: Bytes, delimiter: Option<Bytes>, marker: Option<Bytes>,
                     maxKeys: nat, r: Result<Page, HdfsError>, s: Result<Page, HdfsError>)
    requires IsListed(ns, m, prefix, delimiter, marker, maxKeys, r)
    requires IsListed(ns, m, prefix, delimiter, marker, maxKeys, s)
    ensures r == s
  {
    hide HasPage, Accurate, FirstFailure, WalkFails, AllContents, AllCommon, Listable, Marked, PathMapper.ListStart;
    if r != s {
      var sp := DirPart(m, m.ListStart(prefix).value);
      var q, limit := Query(sp, prefix, marker), if delimiter.None? then maxKeys else USIZE_MAX;
      if r.Ok? {
        var seen := Listable(ns, sp, delimiter);
        AccurateUnique(ns, r.value, s.value, Marked(AllContents(seen, prefix, delimiter), marker),
                       Marked(AllCommon(seen, sp, prefix, delimiter), marker), maxKeys);
      } else {
        var u :| u in ns.errors && ns.errors[u] == r.error && FirstFailure(ns, q, limit, u);
        var u' :| u' in ns.errors && ns.errors[u'] == s.error && FirstFailure(ns, q, limit, u');
        FirstFailureUnique(ns, q, limit, u, u');
      }
    }
  }

  // ----- Lemmas for the three modes

  lemma EmptyPageOnly(page: Page, maxKeys: nat)
    requires HasPage(page, {}, {}, maxKeys)
    ensures page == EMPTY_PAGE
  {
    if maxKeys > 0 {
      var none: set<Bytes> := {};
      assert none + none == none;
      assert Taken(none, maxKeys) == [];
    }
  }

  lemma EmptyPageHas(maxKeys: nat)
    ensures HasPage(EMPTY_PAGE, {}, {}, maxKeys)
  {
    var none: set<Bytes> := {};
    assert SortedSet(none) == [];
    assert none + none == none;
  }

  lemma ListingIsSlashInput(ns: Namespace, dp: Bytes, l: DirListing)
    requires IsListing(ns, dp, l)
    ensures SlashInput(l.files, l.dirs)
  {
    var f, d := KeysOf(l.files), OutsOf(l.dirs);
    forall i, j | 0 <= i < |f| && 0 <= j < |d|
      ensures f[i] != d[j]
    {
      assert l.dirs[j] in l.dirs;
      var k := l.files[i].key;
      ChildHasNoSlash(dp, k);
      assert d[j][|d[j]| - 1] == SLASH;
    }
  }

  /** Nothing matches: every set of outputs is empty. */
  lemma UnmatchedIsEmpty(ns: Namespace, sp: Bytes, prefix: Bytes, delimiter: Option<Bytes>, marker: Option<Bytes>)
    requires ns.Valid() && Unmatched(prefix)
    ensures AllContents(ns, prefix, delimiter) == {} && AllCommon(ns, sp, prefix, delimiter) == {}
    ensures AllContents(Pruned(ns, sp), prefix, delimiter) == {}
              && AllCommon(Pruned(ns, sp), sp, prefix, delimiter) == {}
    ensures MatchingKeys(ns, prefix, marker) == {}
    ensures WantedFiles(ns, Query(sp, prefix, marker)) == {}
  {
    assert MatchingKeys(ns, prefix, None) == {};
    NothingWanted(ns, Query(sp, prefix, marker));
  }

  lemma UnmatchedListing(ns: Namespace, dp: Bytes, l: DirListing, prefix: Bytes, marker: Option<Bytes>)
    requires ns.Valid() && Unmatched(prefix) && IsListing(ns, dp, l)
    ensures Selected(KeysOf(l.files), prefix, marker) == {} && Selected(OutsOf(l.dirs), prefix, marker) == {}
  {
    forall i | 0 <= i < |l.files|
      ensures !(prefix <= KeysOf(l.files)[i])
    {
      assert Canonical(l.files[i].key);
    }
    forall i | 0 <= i < |l.dirs|
      ensures !(prefix <= OutsOf(l.dirs)[i])
    {
      assert l.dirs[i] in l.dirs;
      assert Canonical(l.dirs[i]);
    }
  }

  lemma StartIsWithin(sp: Bytes, prefix: Bytes)
    requires StartsAt(sp, prefix)
    ensures WithinDir(sp, prefix)
  {
    NoSlashAfterStart(sp, prefix);
  }

  /** `/`: the page of the one listing is the reference page. */
  lemma SlashIsReference(ns: Namespace, sp: Bytes, prefix: Bytes, marker: Option<Bytes>, maxKeys: nat, l: DirListing,
                         page: Page)
    requires ns.Valid() && IsListing(ns, sp, l) && (sp == [] || IsDirItem(sp))
    requires StartsAt(sp, prefix) || Unmatched(prefix)
    requires HasPage(page, Selected(KeysOf(l.files), prefix, marker), Selected(OutsOf(l.dirs), prefix, marker), maxKeys)
    requires forall e | e in page.contents :: e in l.files
    ensures IsReferencePage(ns, sp, prefix, SLASH_DELIMITER, marker, maxKeys, page)
  {
    hide HasPage, Lt, Collapse, Selected, Canonical;
    if StartsAt(sp, prefix) {
      StartIsWithin(sp, prefix);
      OneDirectoryIsSubtree(ns, sp, prefix, marker, l);
    } else {
      UnmatchedListing(ns, sp, l, prefix, marker);
      UnmatchedIsEmpty(ns, sp, prefix, SLASH_DELIMITER, marker);
      assert Marked({}, marker) == {};
    }
    FilesAreAccurate(ns, sp, l);
  }

  lemma FilesAreAccurate(ns: Namespace, dp: Bytes, l: DirListing)
    requires IsListing(ns, dp, l)
    ensures forall e | e in l.files :: e.key in ns.files && e == ns.Entry(e.key)
  {
  }

  /** The wanted files of the walk are the listable keys that match and exceed the marker. */
  lemma WantedAre(ns: Namespace, sp: Bytes, prefix: Bytes, marker: Option<Bytes>)
    requires ns.Valid() && (StartsAt(sp, prefix) || Unmatched(prefix))
    ensures WantedFiles(ns, Query(sp, prefix, marker)) == set k | k in Pruned(ns, sp).files && prefix <= k
              && Past(marker, k)
  {
    hide Lt, Canonical;
    var q := Query(sp, prefix, marker);
    if StartsAt(sp, prefix) {
      WantedFilesAre(ns, q);
    } else {
      UnmatchedIsEmpty(ns, sp, prefix, None, marker);
      NoFilesMatch(ns, prefix);
    }
  }

  lemma NoFilesMatch(ns: Namespace, prefix: Bytes)
    requires ns.Valid() && Unmatched(prefix)
    ensures forall k | k in ns.files :: !(prefix <= k)
  {
    forall k | k in ns.files
      ensures !(prefix <= k)
    {
      assert k in ns.files.Keys + ns.dirs && Canonical(k);
    }
  }

  /** Grouping only what matches and exceeds the marker selects the same outputs. */
  lemma PushedDown(keys: set<Bytes>, prefix: Bytes, delimiter: Option<Bytes>, marker: Option<Bytes>, wanted: set<Bytes>)
    requires wanted == set k | k in keys && prefix <= k && Past(marker, k)
    ensures Marked(ContentKeys(wanted, prefix, delimiter), marker)
              == Marked(ContentKeys(keys, prefix, delimiter), marker)
    ensures Marked(CommonPrefixes(wanted, prefix, delimiter), marker)
              == Marked(CommonPrefixes(keys, prefix, delimiter), marker)
  {
    hide Lt, Collapse;
    PushdownCommutes(keys, prefix, delimiter, marker);
    assert wanted == set k | k in Marked(keys, marker) && prefix <= k;
    OnlyMatchesCount(wanted, Marked(keys, marker), prefix, delimiter);
  }

  /** Keys that do not start with the prefix play no part. */
  lemma OnlyMatchesCount(a: set<Bytes>, b: set<Bytes>, prefix: Bytes, delimiter: Option<Bytes>)
    requires a == set k | k in b && prefix <= k
    ensures ContentKeys(a, prefix, delimiter) == ContentKeys(b, prefix, delimiter)
    ensures CommonPrefixes(a, prefix, delimiter) == CommonPrefixes(b, prefix, delimiter)
  {
    hide Collapse;
    forall p
      ensures p in CommonPrefixes(a, prefix, delimiter) <==> p in CommonPrefixes(b, prefix, delimiter)
    {
      if p in CommonPrefixes(a, prefix, delimiter) {
        var k :| k in a && IsGrouped(k, prefix, delimiter) && Collapse(k, prefix, delimiter).value == p;
        assert k in b;
      }
      if p in CommonPrefixes(b, prefix, delimiter) {
        var k :| k in b && IsGrouped(k, prefix, delimiter) && Collapse(k, prefix, delimiter).value == p;
        assert k in a;
      }
    }
  }

  lemma EmitsKeys(ns: Namespace, keys: seq<Bytes>, entries: seq<ListEntry>)
    requires Emits(ns, keys, entries)
    ensures KeysOf(entries) == keys
    ensures forall e | e in entries :: e.key in ns.files && e == ns.Entry(e.key)
  {
  }

  /** Without a delimiter everything wanted is a content. */
  lemma FlatIsReference(ns: Namespace, sp: Bytes, prefix: Bytes, marker: Option<Bytes>, maxKeys: nat,
                        entries: seq<ListEntry>, truncated: bool)
    requires ns.Valid() && (StartsAt(sp, prefix) || Unmatched(prefix)) && maxKeys > 0
    requires IsPage(ns, Query(sp, prefix, marker), maxKeys, Ok((entries, truncated)))
    ensures truncated ==> entries != []
    ensures IsReferencePage(ns, sp, prefix, None, marker, maxKeys,
                            Page(entries, [], truncated, if truncated then Some(entries[|entries| - 1].key) else None))
  {
    hide Lt, Canonical, Pruned, HasPage, FirstFailure, BeforeCut, Fatal;
    var q := Query(sp, prefix, marker);
    var vis := Pruned(ns, sp);
    WantedAre(ns, sp, prefix, marker);
    NoDelimiter(vis.files.Keys, prefix, marker);
    assert WantedFiles(ns, q) == Marked(AllContents(vis, prefix, None), marker);
    assert Marked(AllCommon(vis, sp, prefix, None), marker) == {};
    var keys := Keys(ns, q);
    var taken := if truncated then keys[..maxKeys] else keys;
    EmitsKeys(ns, taken, entries);
    FlatPage(WantedFiles(ns, q), taken, maxKeys, entries, truncated);
  }

  lemma NoDelimiter(keys: set<Bytes>, prefix: Bytes, marker: Option<Bytes>)
    ensures Marked(ContentKeys(keys, prefix, None), marker) == set k | k in keys && prefix <= k && Past(marker, k)
    ensures CommonPrefixes(keys, prefix, None) == {}
  {
  }

  lemma FlatPage(C: set<Bytes>, taken: seq<Bytes>, maxKeys: nat, entries: seq<ListEntry>, truncated: bool)
    requires maxKeys > 0 && truncated == (|C| > maxKeys)
    requires taken == if truncated then SortedSet(C)[..maxKeys] else SortedSet(C)
    requires KeysOf(entries) == taken
    ensures truncated ==> entries != []
    ensures HasPage(Page(entries, [], truncated, if truncated then Some(entries[|entries| - 1].key) else None), C,
                    {}, maxKeys)
  {
    hide Filter, Lt, StrictlySorted, SortedSet;
    var none: set<Bytes> := {};
    assert C + none == C;
    TakenFilters(C, taken);
    assert |entries| == |taken|;
    if truncated {
      assert KeysOf(entries)[maxKeys - 1] == entries[maxKeys - 1].key;
    }
  }

  lemma TakenFilters(C: set<Bytes>, taken: seq<Bytes>)
    requires taken <= SortedSet(C)
    ensures Filter(taken, InSet(C)) == taken && Filter(taken, InSet({})) == []
  {
    hide Lt, StrictlySorted;
    forall x | x in taken
      ensures x in C
    {
      assert x in SortedSet(C);
    }
    FilterAll(taken, InSet(C));
    FilterNone(taken, InSet({}));
  }

  lemma EntriesAreWanted(ns: Namespace, q: Query, entries: seq<ListEntry>)
    requires Emits(ns, Keys(ns, q), entries)
    ensures Elems(KeysOf(entries)) == WantedFiles(ns, q)
    ensures forall e | e in entries :: e.key in ns.files && e == ns.Entry(e.key)
  {
    hide WantedFiles, Emits, KeysOf;
    EmitsKeys(ns, Keys(ns, q), entries);
  }

  lemma GroupedIsReference(ns: Namespace, sp: Bytes, prefix: Bytes, delimiter: Option<Bytes>, marker: Option<Bytes>,
                           maxKeys: nat, entries: seq<ListEntry>, page: Page)
    requires ns.Valid() && (StartsAt(sp, prefix) || Unmatched(prefix)) && delimiter != SLASH_DELIMITER
    requires Emits(ns, Keys(ns, Query(sp, prefix, marker)), entries)
    requires HasPage(page, Marked(ContentKeys(Elems(KeysOf(entries)), prefix, delimiter), marker),
                           Marked(AllPrefixes(entries, [], prefix, delimiter), marker), maxKeys)
    requires forall e | e in page.contents :: e in entries
    ensures IsReferencePage(ns, sp, prefix, delimiter, marker, maxKeys, page)
  {
    hide HasPage, Lt, Canonical, Pruned, Collapse, Marked, ContentKeys, CommonPrefixes, StartsAt, Unmatched,
      WantedItems, Keys, KeysOf, Elems, Emits, Namespace.Valid, SortedSet;
    var q := Query(sp, prefix, marker);
    WantedAre(ns, sp, prefix, marker);
    EntriesAreWanted(ns, q, entries);
    PushedDown(Pruned(ns, sp).files.Keys, prefix, delimiter, marker, WantedFiles(ns, q));
    assert AllPrefixes(entries, [], prefix, delimiter) == CommonPrefixes(WantedFiles(ns, q), prefix, delimiter);
    assert AllCommon(Pruned(ns, sp), sp, prefix, delimiter)
        == CommonPrefixes(Pruned(ns, sp).files.Keys, prefix, delimiter);
  }

  lemma EmitsDistinct(ns: Namespace, q: Query, entries: seq<ListEntry>)
    requires Emits(ns, Keys(ns, q), entries)
    ensures Pagination.OncePerKey(entries)
  {
    EmitsKeys(ns, Keys(ns, q), entries);
    Pagination.SortedDistinct(Keys(ns, q));
    forall i, j | 0 <= i < j < |entries|
      ensures entries[i].key != entries[j].key
    {
      assert KeysOf(entries)[i] != KeysOf(entries)[j];
    }
  }

  /** There cannot be more keys than a vector can hold. */
  lemma NoMoreThanFiles(ns: Namespace, q: Query)
    requires ns.Valid()
    ensures |Keys(ns, q)| <= |ns.files|
  {
    forall u | u in WantedFiles(ns, q)
      ensures u in ns.files.Keys
    {
      ItemKinds(ns, u);
    }
    SubsetSize(WantedFiles(ns, q), ns.files.Keys);
  }

  lemma SubsetSize(a: set<Bytes>, b: set<Bytes>)
    requires a <= b
    ensures |a| <= |b|
  {
    assert b == a + (b - a);
  }

  // ----- The request

  /** The strategy choice of `list_objects_v2`, for an effective delimiter. */
  method ListPage(lister: HdfsDirLister, mapper: PathMapper, prefix: Bytes, delimiter: Option<Bytes>,
                  startAfter: Option<Bytes>, maxKeys: nat)
    returns (r: Result<Page, HdfsError>)
    requires lister.Valid() && mapper == lister.mapper && delimiter != Some([])
    requires |lister.ns.files| <= USIZE_MAX
    modifies lister`listed, lister.cache
    ensures lister.Valid()
    ensures IsListed(lister.ns, mapper, prefix, delimiter, startAfter, maxKeys, r)
  {
    hide Namespace.Valid, PathMapper.ListStart, HasPage, IsReferencePage, StartsAt, Unmatched, IsPage, WalkFails,
        WantedItems, FirstFailure;
    if delimiter == SLASH_DELIMITER {
      r := ListSlash(lister, mapper, prefix, startAfter, maxKeys);
    } else if delimiter.Some? {
      if maxKeys == 0 {
        var page := Paginate([], [], prefix, delimiter, startAfter, maxKeys);
        ZeroKeys(page, [], [], prefix, delimiter, startAfter);
        return Ok(page);
      }
      r := ListGrouped(lister, mapper, prefix, delimiter, startAfter, maxKeys);
    } else {
      r := ListFlat(lister, mapper, prefix, startAfter, maxKeys);
    }
  }

  lemma ZeroKeys(page: Page, files: seq<ListEntry>, dirs: seq<Bytes>, prefix: Bytes, delimiter: Option<Bytes>,
                 marker: Option<Bytes>)
    requires HasPage(page, Marked(ContentKeys(Elems(KeysOf(files)), prefix, delimiter), marker),
                           Marked(AllPrefixes(files, dirs, prefix, delimiter), marker), 0)
    ensures page == EMPTY_PAGE
  {
  }

  /** `/`: one listing of the prefix's directory. */
  method ListSlash(lister: HdfsDirLister, mapper: PathMapper, prefix: Bytes, startAfter: Option<Bytes>, maxKeys: nat)
    returns (r: Result<Page, HdfsError>)
    requires lister.Valid() && mapper == lister.mapper
    modifies lister`listed, lister.cache
    ensures lister.Valid()
    ensures IsListed(lister.ns, mapper, prefix, SLASH_DELIMITER, startAfter, maxKeys, r)
  {
    hide Namespace.Valid, PathMapper.ListStart, HasPage, IsReferencePage, StartsAt, Unmatched, IsListing, SlashInput,
        Selected;
    var listing := DirListing([], []);
    var start := mapper.ListStart(prefix);
    ghost var sp: Bytes := [];
    if start.Some? {
      sp := StartOf(mapper, prefix);
      var listed := lister.ListDir(start.value);
      match listed
      case Ok(l) => listing := l;
      case Err(e) =>
        if !e.FileNotFound? {
          return Err(e);
        }
    }
    if start.Some? && StartOpens(lister.ns, sp) {
      ListingIsSlashInput(lister.ns, sp, listing);
    } else {
      NoListing();
    }
    var page := PaginateSlash(listing.files, listing.dirs, prefix, startAfter, maxKeys);
    if start.Some? && StartOpens(lister.ns, sp) {
      SlashIsReference(lister.ns, sp, prefix, startAfter, maxKeys, listing, page);
    } else {
      NothingSelected(prefix, startAfter);
      EmptyPageOnly(page, maxKeys);
    }
    r := Ok(page);
  }

  lemma NoListing()
    ensures SlashInput([], [])
  {
  }

  lemma NothingSelected(prefix: Bytes, marker: Option<Bytes>)
    ensures Selected(KeysOf([]), prefix, marker) == {} && Selected(OutsOf([]), prefix, marker) == {}
  {
  }

  /** No delimiter: the lazy merge. */
  method ListFlat(lister: HdfsDirLister, mapper: PathMapper, prefix: Bytes, startAfter: Option<Bytes>, maxKeys: nat)
    returns (r: Result<Page, HdfsError>)
    requires lister.Valid() && mapper == lister.mapper
    modifies lister`listed, lister.cache
    ensures lister.Valid()
    ensures IsListed(lister.ns, mapper, prefix, None, startAfter, maxKeys, r)
  {
    hide Namespace.Valid, PathMapper.ListStart, HasPage, IsReferencePage, StartsAt, Unmatched, WantedItems,
      FirstFailure, Fatal, BeforeCut, Keys, Emits, OpenedItems, PathsIn;
    match mapper.ListStart(prefix)
    case None =>
      r := Ok(EMPTY_PAGE);
    case Some(hdfsStart) =>
      ghost var sp := StartOf(mapper, prefix);
      var listing := new SortedListing(lister, hdfsStart, prefix, startAfter, mapper, sp);
      var collected := listing.CollectPage(maxKeys);
      match collected
      case Err(e) => r := Err(e);
      case Ok((entries, isTruncated)) =>
        var nextToken := if isTruncated && entries != [] then Some(entries[|entries| - 1].key) else None;
        if maxKeys > 0 && StartOpens(lister.ns, sp) {
          FlatIsReference(lister.ns, sp, prefix, startAfter, maxKeys, entries, isTruncated);
        }
        r := Ok(Page(entries, [], isTruncated, nextToken));
  }

  /** Any other delimiter: the merge past the marker, then the general paginator. */
  method ListGrouped(lister: HdfsDirLister, mapper: PathMapper, prefix: Bytes, delimiter: Option<Bytes>,
                     startAfter: Option<Bytes>, maxKeys: nat)
    returns (r: Result<Page, HdfsError>)
    requires lister.Valid() && mapper == lister.mapper && maxKeys > 0
    requires delimiter.Some? && delimiter != SLASH_DELIMITER && |lister.ns.files| <= USIZE_MAX
    modifies lister`listed, lister.cache
    ensures lister.Valid()
    ensures IsListed(lister.ns, mapper, prefix, delimiter, startAfter, maxKeys, r)
  {
    hide Namespace.Valid, PathMapper.ListStart, HasPage, IsCut, Filter, ListedTest, Elems, IsReferencePage,
      StartsAt, Unmatched, WantedItems, FirstFailure, Fatal, BeforeCut, Keys, Emits, Marked, AllPrefixes,
      ContentKeys, KeysOf, Pagination.OncePerKey, SortedSet, StartOpens, StartError, OpenedItems, PathsIn;
    var entries: seq<ListEntry> := [];
    var start := mapper.ListStart(prefix);
    ghost var sp: Bytes := [];
    ghost var q := Query(sp, prefix, startAfter);
    if start.Some? {
      sp := StartOf(mapper, prefix);
      q := Query(sp, prefix, startAfter);
      var listing := new SortedListing(lister, start.value, prefix, startAfter, mapper, sp);
      var collected := listing.CollectPage(USIZE_MAX);
      match collected
      case Err(e) => return Err(e);
      case Ok((all, _)) => entries := all;
    }
    if start.Some? && StartOpens(lister.ns, sp) {
      NoMoreThanFiles(lister.ns, q);
      EmitsDistinct(lister.ns, q, entries);
    } else {
      NoEntries(prefix, delimiter, startAfter);
    }
    var page := Paginate(entries, [], prefix, delimiter, startAfter, maxKeys);
    if start.Some? && StartOpens(lister.ns, sp) {
      GroupedIsReference(lister.ns, sp, prefix, delimiter, startAfter, maxKeys, entries, page);
    } else {
      EmptyPageOnly(page, maxKeys);
    }
    r := Ok(page);
  }

  lemma NoEntries(prefix: Bytes, delimiter: Option<Bytes>, marker: Option<Bytes>)
    requires delimiter != SLASH_DELIMITER
    ensures Pagination.OncePerKey([])
    ensures Marked(ContentKeys(Elems(KeysOf([])), prefix, delimiter), marker) == {}
    ensures Marked(AllPrefixes([], [], prefix, delimiter), marker) == {}
  {
    NoEntriesNoPrefixes(prefix, delimiter);
  }
}
