/** Listing one directory: the NameNode's statuses mapped to sorted S3 keys, behind the
    listing cache. */
module DirLister {
  import opened ByteStrings
  import opened Sorting
  import opened KeyOrder
  import opened Paths
  import opened Namespaces
  import opened Cache

  datatype FileStatus = FileStatus(path: Bytes, length: nat, isdir: bool, modificationTime: nat)

  // ----- From statuses to a listing

  /** The key a status is listed under, unless it is the root or outside it. */
  function KeyOf(m: PathMapper, st: FileStatus): Option<Bytes> {
    match m.HdfsPathToKey(st.path)
    case None => None
    case Some(k) => if k == [] then None else Some(k)
  }

  function FileOf(key: Option<Bytes>, st: FileStatus): seq<ListEntry> {
    if key.None? || st.isdir then [] else [ListEntry(key.value, st.length, st.modificationTime)]
  }

  function DirKeyOf(key: Option<Bytes>, st: FileStatus): seq<Bytes> {
    if key.None? || !st.isdir then [] else [key.value]
  }

  function MappedFiles(m: PathMapper, statuses: seq<FileStatus>): seq<ListEntry> {
    if statuses == [] then [] else
      var st := statuses[|statuses| - 1];
      MappedFiles(m, statuses[..|statuses| - 1]) + FileOf(KeyOf(m, st), st)
  }

  function MappedDirs(m: PathMapper, statuses: seq<FileStatus>): seq<Bytes> {
    if statuses == [] then [] else
      var st := statuses[|statuses| - 1];
      MappedDirs(m, statuses[..|statuses| - 1]) + DirKeyOf(KeyOf(m, st), st)
  }

  /** A status makes `e` a file of the listing. */
  ghost predicate IsFileStatus(m: PathMapper, st: FileStatus, e: ListEntry) {
    && !st.isdir && st.length == e.size && st.modificationTime == e.modificationTime
    && e.key != [] && m.HdfsPathToKey(st.path) == Some(e.key)
  }

  /** ... and `d` a directory. */
  ghost predicate IsDirStatus(m: PathMapper, st: FileStatus, d: Bytes) {
    st.isdir && d != [] && m.HdfsPathToKey(st.path) == Some(d)
  }

  /** The listing holds what statuses below the root say, of each kind, and nothing else. */
  lemma {:induction false} MappedAre(m: PathMapper, statuses: seq<FileStatus>, e: ListEntry, d: Bytes)
    ensures e in MappedFiles(m, statuses) <==> exists st | st in statuses :: IsFileStatus(m, st, e)
    ensures d in MappedDirs(m, statuses) <==> exists st | st in statuses :: IsDirStatus(m, st, d)
    ensures |MappedFiles(m, statuses)| + |MappedDirs(m, statuses)| <= |statuses|
  {
    hide PathMapper.HdfsPathToKey;
    if statuses != [] {
      var init, last := statuses[..|statuses| - 1], statuses[|statuses| - 1];
      MappedAre(m, init, e, d);
      assert statuses == init + [last];
      OneMapped(m, last, e, d);
      hide KeyOf, FileOf, DirKeyOf, IsFileStatus, IsDirStatus;
    }
  }

  lemma OneMapped(m: PathMapper, st: FileStatus, e: ListEntry, d: Bytes)
    ensures e in FileOf(KeyOf(m, st), st) <==> IsFileStatus(m, st, e)
    ensures d in DirKeyOf(KeyOf(m, st), st) <==> IsDirStatus(m, st, d)
    ensures |FileOf(KeyOf(m, st), st)| + |DirKeyOf(KeyOf(m, st), st)| <= 1
  {
    hide PathMapper.HdfsPathToKey;
  }

  /** The loop over the statuses. */
  method MapStatuses(m: PathMapper, statuses: seq<FileStatus>) returns (files: seq<ListEntry>, dirs: seq<Bytes>)
    ensures files == MappedFiles(m, statuses) && dirs == MappedDirs(m, statuses)
  {
    hide PathMapper.HdfsPathToKey;
    files, dirs := [], [];
    for i := 0 to |statuses|
      invariant files == MappedFiles(m, statuses[..i])
      invariant dirs == MappedDirs(m, statuses[..i])
    {
      var status := statuses[i];
      assert statuses[..i + 1][..i] == statuses[..i];
      var key := m.HdfsPathToKey(status.path);
      if key.Some? && key.value != [] {
        if status.isdir {
          dirs := dirs + [key.value];
        } else {
          files := files + [ListEntry(key.value, status.length, status.modificationTime)];
        }
      }
    }
    assert statuses[..|statuses|] == statuses;
  }

  /** `listing_from_statuses`: every addressable status once, files in key order and
      directories in output order. */
  method ListingFromStatuses(m: PathMapper, statuses: seq<FileStatus>) returns (l: DirListing)
    ensures SortedBy(l.files, (e: ListEntry) => e.key)
    ensures SortedBy(l.dirs, DirOut)
    ensures multiset(l.files) == multiset(MappedFiles(m, statuses))
    ensures multiset(l.dirs) == multiset(MappedDirs(m, statuses))
  {
    hide PathMapper.HdfsPathToKey, Normalize, Lt, SortedBy;
    var files, dirs := MapStatuses(m, statuses);
    files := SortBy(files, (a: ListEntry, b: ListEntry) => Compare(a.key, b.key), (e: ListEntry) => e.key);
    dirs := SortBy(dirs, CmpDirKeys, DirOut);
    l := DirListing(files, dirs);
  }

  // ----- The NameNode

  /** The status HDFS keeps for the file or directory of a key. */
  function StatusOf(ns: Namespace, m: PathMapper, k: Bytes): FileStatus {
    if k in ns.files
    then FileStatus(m.Base() + k, ns.files[k].size, false, ns.files[k].modificationTime)
    else FileStatus(m.Base() + k, 0, true, 0)
  }

  function Children(ns: Namespace, dp: Bytes): set<Bytes> {
    set k | k in ns.files.Keys + ns.dirs && ChildOf(dp, k)
  }

  function StatusesOf(ns: Namespace, m: PathMapper, keys: seq<Bytes>): (r: seq<FileStatus>)
    ensures |r| == |keys|
  {
    if keys == [] then [] else
      StatusesOf(ns, m, keys[..|keys| - 1]) + [StatusOf(ns, m, keys[|keys| - 1])]
  }

  /** A non-recursive `getListing`: the children's statuses, each once, in any order. */
  method ListStatus(ns: Namespace, m: PathMapper, dp: Bytes)
    returns (r: Result<seq<FileStatus>, HdfsError>, ghost keys: seq<Bytes>)
    ensures r == if dp in ns.errors then Err(ns.errors[dp])
                 else if ns.IsDirPart(dp) then Ok(StatusesOf(ns, m, keys))
                 else Err(FileNotFound)
    ensures Distinct(keys) && forall k :: k in keys <==> k in Children(ns, dp)
  {
    var rest := Children(ns, dp);
    var statuses := [];
    keys := [];
    while rest != {}
      invariant statuses == StatusesOf(ns, m, keys)
      invariant Distinct(keys)
      invariant forall k :: k in Children(ns, dp) <==> k in rest || k in keys
      invariant forall k | k in rest :: k !in keys
    {
      var k :| k in rest;
      rest := rest - {k};
      statuses := statuses + [StatusOf(ns, m, k)];
      ghost var before := keys;
      keys := keys + [k];
      assert keys[..|keys| - 1] == before;
    }
    if dp in ns.errors {
      r := Err(ns.errors[dp]);
    } else if ns.IsDirPart(dp) {
      r := Ok(statuses);
    } else {
      r := Err(FileNotFound);
    }
  }

  // ----- The listing of a directory's statuses is its listing

  lemma StatusKey(ns: Namespace, m: PathMapper, k: Bytes)
    requires ns.Valid() && m.Valid() && k in ns.files.Keys + ns.dirs
    ensures KeyOf(m, StatusOf(ns, m, k)) == Some(k)
  {
    KeyRoundTrip(m, k);
    CanonicalShape(k);
  }

  ghost function EntriesOf(ns: Namespace, keys: seq<Bytes>): (r: seq<ListEntry>)
    requires forall k | k in keys :: k in ns.files
    ensures |r| == |keys| && forall i | 0 <= i < |keys| :: r[i] == ns.Entry(keys[i])
  {
    seq(|keys|, i requires 0 <= i < |keys| => assert keys[i] in keys; ns.Entry(keys[i]))
  }

  function IsFile(ns: Namespace): Bytes -> bool {
    k => k in ns.files
  }

  function IsDir(ns: Namespace): Bytes -> bool {
    k => k in ns.dirs
  }

  /** Each listed key maps back from its status. */
  ghost predicate MapsBack(ns: Namespace, m: PathMapper, keys: seq<Bytes>) {
    forall k | k in keys :: KeyOf(m, StatusOf(ns, m, k)) == Some(k)
  }

  lemma MappedFile(ns: Namespace, m: PathMapper, k: Bytes)
    requires KeyOf(m, StatusOf(ns, m, k)) == Some(k)
    ensures FileOf(KeyOf(m, StatusOf(ns, m, k)), StatusOf(ns, m, k)) == if k in ns.files then [ns.Entry(k)] else []
    ensures k in ns.files ==> EntriesOf(ns, [k]) == [ns.Entry(k)]
  {
    hide KeyOf;
  }

  lemma {:induction false} MappedFileStatuses(ns: Namespace, m: PathMapper, keys: seq<Bytes>)
    requires MapsBack(ns, m, keys)
    ensures MappedFiles(m, StatusesOf(ns, m, keys)) == EntriesOf(ns, Filter(keys, IsFile(ns)))
  {
    hide KeyOf, FileOf, StatusOf, EntriesOf;
    if keys != [] {
      var n, k := |keys| - 1, keys[|keys| - 1];
      var st := StatusOf(ns, m, k);
      assert k in keys;
      assert StatusesOf(ns, m, keys)[..n] == StatusesOf(ns, m, keys[..n]);
      MappedFileStatuses(ns, m, keys[..n]);
      MappedFile(ns, m, k);
      EntriesOfConcat(ns, Filter(keys[..n], IsFile(ns)), if k in ns.files then [k] else []);
    }
  }

  lemma EntriesOfConcat(ns: Namespace, a: seq<Bytes>, b: seq<Bytes>)
    requires forall k | k in a + b :: k in ns.files
    ensures (forall k | k in a :: k in ns.files) && (forall k | k in b :: k in ns.files)
    ensures EntriesOf(ns, a + b) == EntriesOf(ns, a) + EntriesOf(ns, b)
  {
    assert forall k | k in a :: k in a + b;
    assert forall k | k in b :: k in a + b;
  }

  lemma {:induction false} MappedDirStatuses(ns: Namespace, m: PathMapper, keys: seq<Bytes>)
    requires MapsBack(ns, m, keys) && ns.files.Keys !! ns.dirs
    requires forall k | k in keys :: k in ns.files.Keys + ns.dirs
    ensures MappedDirs(m, StatusesOf(ns, m, keys)) == Filter(keys, IsDir(ns))
  {
    if keys != [] {
      var n, k := |keys| - 1, keys[|keys| - 1];
      var st := StatusOf(ns, m, k);
      assert k in keys;
      assert StatusesOf(ns, m, keys)[..n] == StatusesOf(ns, m, keys[..n]);
      MappedDirStatuses(ns, m, keys[..n]);
      assert DirKeyOf(KeyOf(m, st), st) == if k in ns.dirs then [k] else [];
    }
  }

  lemma {:induction false} FilterDistinct(s: seq<Bytes>, keep: Bytes -> bool)
    requires Distinct(s)
    ensures Distinct(Filter(s, keep))
  {
    if s != [] {
      FilterDistinct(s[..|s| - 1], keep);
      var r := Filter(s[..|s| - 1], keep);
      assert forall x | x in r :: x in s[..|s| - 1];
    }
  }

  lemma ChildrenMapBack(ns: Namespace, m: PathMapper, dp: Bytes, keys: seq<Bytes>)
    requires ns.Valid() && m.Valid()
    requires forall k | k in keys :: k in Children(ns, dp)
    ensures MapsBack(ns, m, keys) && ns.files.Keys !! ns.dirs
    ensures forall k | k in keys :: k in ns.files.Keys + ns.dirs
  {
    forall k | k in keys
      ensures KeyOf(m, StatusOf(ns, m, k)) == Some(k)
    {
      StatusKey(ns, m, k);
    }
  }

  lemma StatusesAreListed(ns: Namespace, m: PathMapper, dp: Bytes, keys: seq<Bytes>, l: DirListing)
    requires ns.Valid() && m.Valid()
    requires Distinct(keys) && forall k :: k in keys <==> k in Children(ns, dp)
    requires SortedBy(l.files, (e: ListEntry) => e.key) && SortedBy(l.dirs, DirOut)
    requires multiset(l.files) == multiset(MappedFiles(m, StatusesOf(ns, m, keys)))
    requires multiset(l.dirs) == multiset(MappedDirs(m, StatusesOf(ns, m, keys)))
    ensures IsListing(ns, dp, l)
  {
    hide MappedFiles, MappedDirs, StatusesOf, KeyOf, Filter, EntriesOf, MapsBack, SortedBy;
    ChildrenMapBack(ns, m, dp, keys);
    MappedFileStatuses(ns, m, keys);
    MappedDirStatuses(ns, m, keys);
    var fileKeys, dirKeys := Filter(keys, IsFile(ns)), Filter(keys, IsDir(ns));
    FilterDistinct(keys, IsFile(ns));
    FilterDistinct(keys, IsDir(ns));
    ListedDirs(ns, dp, dirKeys, l.dirs);
    ListedFiles(ns, dp, fileKeys, l.files);
  }

  lemma ListedDirs(ns: Namespace, dp: Bytes, keys: seq<Bytes>, dirs: seq<Bytes>)
    requires Distinct(keys) && forall k :: k in keys <==> k in ns.dirs && ChildOf(dp, k)
    requires SortedBy(dirs, DirOut) && multiset(dirs) == multiset(keys)
    ensures OutputSorted(dirs)
    ensures forall d :: d in dirs <==> d in ns.dirs && ChildOf(dp, d)
  {
    PermutedDistinct(dirs, keys);
    forall i, j | 0 <= i < j < |dirs|
      ensures Lt(DirOut(dirs[i]), DirOut(dirs[j]))
    {
      assert dirs[i] == DirOut(dirs[i])[..|dirs[i]|] && dirs[j] == DirOut(dirs[j])[..|dirs[j]|];
      assert Le(DirOut(dirs[i]), DirOut(dirs[j]));
    }
  }

  lemma ListedFiles(ns: Namespace, dp: Bytes, keys: seq<Bytes>, files: seq<ListEntry>)
    requires Distinct(keys) && forall k :: k in keys <==> k in ns.files && ChildOf(dp, k)
    requires SortedBy(files, (e: ListEntry) => e.key)
    requires multiset(files) == multiset(EntriesOf(ns, keys))
    ensures forall i, j | 0 <= i < j < |files| :: Lt(files[i].key, files[j].key)
    ensures forall i | 0 <= i < |files| :: files[i].key in ns.files && files[i] == ns.Entry(files[i].key)
                                            && ChildOf(dp, files[i].key)
    ensures forall k | k in ns.files && ChildOf(dp, k) :: ns.Entry(k) in files
  {
    var entries := EntriesOf(ns, keys);
    forall i, j | 0 <= i < j < |entries|
      ensures entries[i] != entries[j]
    {
      assert entries[i].key == keys[i] && entries[j].key == keys[j];
    }
    PermutedDistinct(files, entries);
    forall i | 0 <= i < |files|
      ensures files[i].key in keys && files[i] == ns.Entry(files[i].key)
    {
      assert files[i] in files;
      var j :| 0 <= j < |entries| && entries[j] == files[i];
      assert keys[j] in keys;
    }
    var key := (e: ListEntry) => e.key;
    assert forall i, j | 0 <= i < j < |files| :: Le(key(files[i]), key(files[j]));
    forall k | k in keys
      ensures ns.Entry(k) in files
    {
      var i :| 0 <= i < |keys| && keys[i] == k;
      assert entries[i] in entries;
    }
  }

  // ----- The lister

  /** The directory part of the keys below an HDFS directory at or under the root. */
  function DirPart(m: PathMapper, path: Bytes): Bytes {
    if path == m.root || |path| < |m.Base()| then [] else path[|m.Base()|..] + [SLASH]
  }

  function Size(l: DirListing): nat {
    |l.files| + |l.dirs|
  }

  /** The cached listings after one answer: a hit is refreshed, a listing that was fetched
      is kept with its size as weight, unless it is oversized. */
  function CacheAfter(s: Entries<Bytes, DirListing>, limits: Limits, maxDirEntries: nat, path: Bytes,
                      answer: Result<DirListing, HdfsError>, readAt: nat, storedAt: nat): Entries<Bytes, DirListing>
  {
    var read := GetEntries(s, limits, path, readAt);
    if GetValue(s, limits, path, readAt).None? && answer.Ok? && Size(answer.value) <= maxDirEntries
    then InsertEntries(read, limits, path, answer.value, Size(answer.value), storedAt)
    else read
  }

  /** ... at some times of reading and writing. */
  ghost predicate Updates(s: Entries<Bytes, DirListing>, s': Entries<Bytes, DirListing>, limits: Limits,
                          maxDirEntries: nat, path: Bytes, answer: Result<DirListing, HdfsError>)
  {
    exists readAt: nat, storedAt: nat :: s' == CacheAfter(s, limits, maxDirEntries, path, answer, readAt, storedAt)
  }

  lemma UpdatedAt(s: Entries<Bytes, DirListing>, limits: Limits, maxDirEntries: nat, path: Bytes,
                  answer: Result<DirListing, HdfsError>, readAt: nat, storedAt: nat)
    ensures Updates(s, CacheAfter(s, limits, maxDirEntries, path, answer, readAt, storedAt), limits, maxDirEntries,
                    path, answer)
  {
  }

  /** What the cached listings are: answers of the namespace, weighed by their size, and
      none of them oversized. */
  ghost predicate Remembered(ns: Namespace, m: PathMapper, maxDirEntries: nat, s: Entries<Bytes, DirListing>) {
    forall e | e in s :: IsAnswer(ns, DirPart(m, e.key), Ok(e.value)) && e.weight == Size(e.value) <= maxDirEntries
  }

  /** What the cache answers is the namespace's answer. */
  lemma HitIsAnswer(ns: Namespace, m: PathMapper, limits: Limits, maxDirEntries: nat, s: Entries<Bytes, DirListing>,
                    path: Bytes, readAt: nat)
    requires Remembered(ns, m, maxDirEntries, s) && GetValue(s, limits, path, readAt).Some?
    ensures IsAnswer(ns, DirPart(m, path), Ok(GetValue(s, limits, path, readAt).value))
  {
    hide IsListing, Namespace.Valid;
  }

  lemma StillRemembered(ns: Namespace, m: PathMapper, limits: Limits, maxDirEntries: nat,
                        s: Entries<Bytes, DirListing>, path: Bytes,
                        answer: Result<DirListing, HdfsError>, readAt: nat, storedAt: nat)
    requires Remembered(ns, m, maxDirEntries, s) && IsAnswer(ns, DirPart(m, path), answer)
    ensures Remembered(ns, m, maxDirEntries, CacheAfter(s, limits, maxDirEntries, path, answer, readAt, storedAt))
  {
    hide IsListing, GetEntries, GetValue, InsertEntries, Namespace.Valid;
    var read := GetEntries(s, limits, path, readAt);
    GetBringsNothing(s, limits, path, readAt);
    forall e | e in CacheAfter(s, limits, maxDirEntries, path, answer, readAt, storedAt)
      ensures IsAnswer(ns, DirPart(m, e.key), Ok(e.value)) && e.weight == Size(e.value) <= maxDirEntries
    {
      if answer.Ok? { EntriesComeFrom(read, limits, path, answer.value, Size(answer.value), storedAt, e); }
    }
  }

  /** A listing that was fetched, and is not oversized, answers again until it expires; one
      that was read from the cache goes on answering. */
  lemma ListingIsRemembered(s: Entries<Bytes, DirListing>, limits: Limits, maxDirEntries: nat, path: Bytes,
                            answer: Result<DirListing, HdfsError>, readAt: nat, storedAt: nat, later: nat)
    requires limits.capacity >= 1 && readAt <= later
    ensures var r := GetValue(CacheAfter(s, limits, maxDirEntries, path, answer, readAt, storedAt), limits, path,
                              later);
            if GetValue(s, limits, path, readAt).None? && answer.Ok? && limits.ttl > 0
               && |answer.value.files| + |answer.value.dirs| <= maxDirEntries
               && |answer.value.files| + |answer.value.dirs| <= limits.maxWeight
            then r == if later < storedAt + limits.ttl then Some(answer.value) else None
            else r == GetValue(s, limits, path, later)
  {
    hide GetEntries, GetValue, InsertEntries;
    GetChangesNoAnswer(s, limits, path, readAt, path, later);
    if answer.Ok? {
      InsertAnswers(GetEntries(s, limits, path, readAt), limits, path, answer.value, Size(answer.value), storedAt, path,
                    later);
    }
  }

  /** `HdfsDirLister` over an unchanging namespace. `listed` is the list of requests. */
  class HdfsDirLister {
    const ns: Namespace
    const mapper: PathMapper
    const maxDirEntries: nat
    const cache: TtlCache<Bytes, DirListing>
    ghost var listed: seq<Bytes>

    ghost predicate Valid()
      reads this, cache
    {
      && ns.Valid() && mapper.Valid() && cache.Valid()
      && Remembered(ns, mapper, maxDirEntries, cache.entries)
    }

    constructor (ns: Namespace, mapper: PathMapper, maxDirEntries: nat, cache: TtlCache<Bytes, DirListing>)
      requires ns.Valid() && mapper.Valid() && cache.Valid()
      requires Remembered(ns, mapper, maxDirEntries, cache.entries)
      ensures Valid() && listed == []
      ensures this.ns == ns && this.mapper == mapper && this.cache == cache
    {
      this.ns := ns;
      this.mapper := mapper;
      this.maxDirEntries := maxDirEntries;
      this.cache := cache;
      this.listed := [];
    }

    /** One `getListing`, mapped and sorted. */
    method Fetch(path: Bytes) returns (r: Result<DirListing, HdfsError>)
      requires ns.Valid() && mapper.Valid()
      ensures IsAnswer(ns, DirPart(mapper, path), r)
    {
      var dp := DirPart(mapper, path);
      var statuses, keys := ListStatus(ns, mapper, dp);
      if statuses.Err? {
        return Err(statuses.error);
      }
      var listing := ListingFromStatuses(mapper, statuses.value);
      StatusesAreListed(ns, mapper, dp, keys, listing);
      r := Ok(listing);
    }

    /** `list_dir`: whatever the cache holds, and whenever its entries were read and
        written, the answer is the namespace's. */
    method ListDir(path: Bytes) returns (r: Result<DirListing, HdfsError>)
      requires Valid()
      modifies this`listed, cache
      ensures Valid()
      ensures IsAnswer(ns, DirPart(mapper, path), r)
      ensures listed == old(listed) + [path]
      ensures Updates(old(cache.entries), cache.entries, cache.limits, maxDirEntries, path, r)
    {
      hide IsAnswer, GetEntries, GetValue, InsertEntries, Namespace.Valid, TtlCache.Valid, Remembered;
      listed := listed + [path];
      var readAt: nat := *;
      var storedAt: nat := *;
      ghost var before := cache.entries;
      var cached := cache.Get(path, readAt);
      if cached.Some? {
        HitIsAnswer(ns, mapper, cache.limits, maxDirEntries, before, path, readAt);
        r := Ok(cached.value);
      } else {
        r := Fetch(path);
        if r.Ok? {
          var weight := |r.value.files| + |r.value.dirs|;
          if weight <= maxDirEntries {
            cache.Insert(path, r.value, weight, storedAt);
          }
        }
      }
      assert cache.entries == CacheAfter(before, cache.limits, maxDirEntries, path, r, readAt, storedAt);
      UpdatedAt(before, cache.limits, maxDirEntries, path, r, readAt, storedAt);
      StillRemembered(ns, mapper, cache.limits, maxDirEntries, before, path, r, readAt, storedAt);
    }
  }
}
