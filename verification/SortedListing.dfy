/** The flat listing: a lazy merge over per-directory listings. */
module SortedListings {
  import opened ByteStrings
  import opened Sorting
  import opened KeyOrder
  import opened Paths
  import opened Namespaces
  import opened Merge
  import opened DirLister

  function IsFileItem(): Bytes -> bool {
    u => !IsDirItem(u)
  }

  /** The emitted keys among the items taken. */
  function FilesIn(trace: seq<Bytes>): seq<Bytes> {
    Filter(trace, IsFileItem())
  }

  /** The HDFS paths of the directories opened among the items taken. */
  function PathsIn(m: PathMapper, trace: seq<Bytes>): seq<Bytes> {
    if trace == [] then [] else
      var u := trace[|trace| - 1];
      PathsIn(m, trace[..|trace| - 1]) + if IsDirItem(u) then [m.Base() + DirOf(u)] else []
  }

  /** A directory whose listing fails for a reason the walk does not pass over. */
  predicate Fatal(ns: Namespace, u: Bytes) {
    IsDirItem(u) && u in ns.errors && !Skippable(ns.errors[u])
  }

  /** The start directory can be listed. */
  predicate StartOpens(ns: Namespace, sp: Bytes) {
    sp !in ns.errors && ns.IsDirPart(sp)
  }

  /** The answer when it cannot: nothing there is an empty listing, any other failure is
      the request's. */
  function StartError(ns: Namespace, sp: Bytes): HdfsError {
    if sp in ns.errors then ns.errors[sp] else FileNotFound
  }

  class SortedListing {
    const lister: HdfsDirLister
    const mapper: PathMapper
    const prefix: Bytes
    const after: Option<Bytes>
    const start: Bytes
    var heap: Frontier
    var startSeeded: bool
    var exhausted: bool
    /** The output of the start directory, the requests made before, the wanted items
        taken so far, and whether an error was returned. */
    ghost const sp: Bytes
    ghost const before: seq<Bytes>
    ghost var trace: seq<Bytes>
    ghost var failed: bool

    ghost function Q(): Query {
      Query(sp, prefix, after)
    }

    /** What no call changes. */
    ghost predicate Steady()
      reads lister, lister.cache
    {
      && lister.Valid()
      && mapper == lister.mapper
      && start == StartPath(mapper, sp)
      && DirPart(mapper, start) == sp
      && (sp == [] || IsDirItem(sp))
    }

    ghost predicate Valid()
      reads this, lister, lister.cache
    {
      && Steady()
      && lister.ns.Valid()
      && lister.listed == before + (if startSeeded then [start] else []) + PathsIn(mapper, trace)
      && (!startSeeded ==> heap == {} && trace == [] && !exhausted && !failed)
      && (startSeeded && !StartOpens(lister.ns, sp) ==> trace == [] && (failed || exhausted))
      && (startSeeded && !failed ==> !StartOpens(lister.ns, sp) || Going())
    }

    /** The walk has taken an initial run of the wanted items, without a fatal one. */
    ghost predicate Going()
      reads this, lister
    {
      && MergeOk(lister.ns, Q(), heap, trace)
      && (forall u | u in trace :: !Fatal(lister.ns, u))
      && (exhausted ==> heap == {})
    }

    constructor (lister: HdfsDirLister, start: Bytes, prefix: Bytes, after: Option<Bytes>, mapper: PathMapper,
                 ghost sp: Bytes)
      requires lister.Valid() && mapper == lister.mapper
      requires sp == [] || (IsDirItem(sp) && Canonical(DirOf(sp)))
      requires start == StartPath(mapper, sp)
      ensures Valid() && !startSeeded
      ensures this.lister == lister && this.start == start && this.sp == sp
      ensures this.prefix == prefix && this.after == after && before == lister.listed
    {
      this.lister := lister;
      this.mapper := mapper;
      this.prefix := prefix;
      this.after := after;
      this.start := start;
      this.heap := {};
      this.startSeeded := false;
      this.exhausted := false;
      this.sp := sp;
      this.before := lister.listed;
      this.trace := [];
      this.failed := false;
      new;
      StartPartOf(mapper, sp);
      assert before + [] + [] == before;
    }

    /** Pops a cursor whose next entry is listed first, and pushes it back advanced unless
        that was its last entry. */
    method PopFront() returns (c: Cursor)
      requires heap != {} && forall x | x in heap :: x.idx < x.Len()
      modifies this`heap
      ensures c.idx < c.Len() && Minimal(old(heap), c) && heap == old(heap) - {c} + Advanced(c)
    {
      hide Lt, Cursor.Cmp;
      LeastByCmp(heap);
      c :| c in heap && forall x :: x in heap ==> c.Cmp(x) != Greater;
      forall x | x in heap
        ensures Le(c.Out(), x.Out())
      {
        LtTotal(c.Out(), x.Out());
      }
      heap := heap - {c};
      if c.idx + 1 < c.Len() {
        heap := heap + {c.(idx := c.idx + 1)};
      }
    }

    /** Pushes a listing's cursors, positioned past the marker. */
    method PushListing(listing: DirListing) returns (ghost fi: nat, ghost di: nat)
      requires OutputSorted(listing.dirs) && Siblings(listing.dirs)
      requires forall i, j | 0 <= i < j < |listing.files| :: Lt(listing.files[i].key, listing.files[j].key)
      modifies this`heap
      ensures Positioned(Q(), listing, fi, di)
      ensures heap == old(heap) + Pushed(listing, fi, di)
    {
      var filesStart, dirsStart := 0, 0;
      if after.Some? {
        var marker := after.value;
        UpToMarker(listing.files, marker);
        filesStart := PartitionPoint(listing.files, (f: ListEntry) => Le(f.key, marker));
        dirsStart := DirsStartAfter(listing.dirs, marker);
      }
      if filesStart < |listing.files| {
        heap := heap + {Cursor(listing, true, filesStart)};
      }
      if dirsStart < |listing.dirs| {
        heap := heap + {Cursor(listing, false, dirsStart)};
      }
      fi, di := filesStart, dirsStart;
    }

    /** The first pull: lists the start directory. Whether there is anything to walk. */
    method Seed() returns (r: Result<bool, HdfsError>)
      requires Valid() && !startSeeded
      modifies this, lister`listed, lister.cache
      ensures Valid() && startSeeded && trace == []
      ensures failed <==> r.Err?
      ensures r == if StartOpens(lister.ns, sp) then Ok(true)
                   else if StartError(lister.ns, sp).FileNotFound? then Ok(false)
                   else Err(StartError(lister.ns, sp))
      ensures r == Ok(true) ==> !exhausted
    {
      hide MergeOk, IsListing, Positioned, Pushed, WantedItems, Remaining, FilesIn, PathsIn, Namespace.Valid,
        OutputSorted, Siblings, HdfsDirLister.Valid, Fatal, DirPart, StartPath;
      startSeeded := true;
      NothingTaken(mapper);
      var first := lister.ListDir(start);
      match first {
        case Ok(listing) =>
          SeedReached(lister.ns, Q(), listing);
          var fi, di := PushListing(listing);
          SeedMerge(lister.ns, Q(), listing, fi, di);
          assert {} + Pushed(listing, fi, di) == Pushed(listing, fi, di);
          return Ok(true);
        case Err(e) =>
          if e.FileNotFound? {
            exhausted := true;
            return Ok(false);
          }
          failed := true;
          return Err(e);
      }
    }

    /** The directory branch: `cursor` was popped at directory `key`, which is entered if
        it can match the prefix and reach past the marker. */
    method Descend(cursor: Cursor, ghost heap0: Frontier, ghost trace0: seq<Bytes>)
      returns (failure: Option<HdfsError>, ghost paths: seq<Bytes>)
      requires Steady() && lister.ns.Valid() && startSeeded && !failed && !exhausted
      requires cursor.idx < cursor.Len() && !cursor.files
      requires MergeOk(lister.ns, Q(), heap0, trace0) && Minimal(heap0, cursor)
      requires heap == heap0 - {cursor} + Advanced(cursor) && trace == trace0
      modifies this`heap, this`trace, lister`listed, lister.cache
      ensures Steady()
      ensures MergeOk(lister.ns, Q(), heap, trace)
      ensures Remaining(lister.ns, heap) < Remaining(lister.ns, heap0)
      ensures FilesIn(trace) == FilesIn(trace0)
      ensures trace == trace0
                || (trace == trace0 + [cursor.Out()] && (failure.None? ==> !Fatal(lister.ns, cursor.Out())))
      ensures failure.Some? ==> trace != trace0 && Fatal(lister.ns, cursor.Out())
                                && lister.ns.errors[cursor.Out()] == failure.value
      ensures lister.listed == old(lister.listed) + paths
      ensures PathsIn(mapper, trace) == PathsIn(mapper, trace0) + paths
    {
      hide MergeOk, WantedItems, Remaining, Minimal, InitialRun, IsListing, DirPart, Advanced, Pushed,
        Positioned, FilesIn, PathsIn, StrictlySorted, Namespace.Valid;
      var key := cursor.listing.dirs[cursor.idx];
      var enter := prefix <= key && (after.None? || !DirChildrenAllBefore(key, after.value));
      failure := None;
      if !enter {
        PassDir(lister.ns, Q(), heap0, trace0, cursor, false);
        paths := [];
        return;
      }
      paths := [mapper.Base() + key];
      DirKeyMaps(lister.ns, Q(), mapper, heap0, trace0, cursor);
      match mapper.KeyToHdfsPath(key)
      case None =>
      case Some(path) =>
        TakeDir(mapper, trace0, key);
        trace := trace + [DirOut(key)];
        var listed := lister.ListDir(path);
        match listed
        case Ok(listing) =>
          ChildrenAreSiblings(lister.ns, DirOut(key), listing);
          SortedFiles(lister.ns, DirOut(key), listing);
          var fi, di := PushListing(listing);
          OpenDir(lister.ns, Q(), heap0, trace0, cursor, listing, fi, di);
        case Err(e) =>
          PassDir(lister.ns, Q(), heap0, trace0, cursor, true);
          if IsDirDenied(e) {
          } else if e.FileNotFound? {
          } else {
            failure := Some(e);
          }
    }

    /** The file branch: `cursor` was popped at a file, which is emitted if it matches the
        prefix and is past the marker. */
    method TakeFront(cursor: Cursor, ghost heap0: Frontier, ghost trace0: seq<Bytes>)
      returns (emitted: Option<ListEntry>)
      requires lister.ns.Valid() && cursor.idx < cursor.Len() && cursor.files
      requires MergeOk(lister.ns, Q(), heap0, trace0) && Minimal(heap0, cursor)
      requires heap == heap0 - {cursor} + Advanced(cursor) && trace == trace0
      modifies this`trace
      ensures MergeOk(lister.ns, Q(), heap, trace)
      ensures Remaining(lister.ns, heap) < Remaining(lister.ns, heap0)
      ensures PathsIn(mapper, trace) == PathsIn(mapper, trace0) && !Fatal(lister.ns, cursor.Out())
      ensures match emitted
              case None => trace == trace0
              case Some(e) =>
                && trace == trace0 + [e.key] && e.key == cursor.Out() && FilesIn(trace) == FilesIn(trace0) + [e.key]
                && e.key in lister.ns.files && e == lister.ns.Entry(e.key)
    {
      hide MergeOk, WantedItems, Remaining, Minimal, Advanced, FilesIn, PathsIn, Namespace.Valid, Lt;
      var entry := cursor.listing.files[cursor.idx];
      var emit := prefix <= entry.key && (after.None? || !Le(entry.key, after.value));
      TakeFile(lister.ns, Q(), mapper, heap0, trace0, cursor, emit);
      trace := Extended(trace, entry.key, emit);
      emitted := if emit then Some(entry) else None;
    }

    /** The loop of `next_entry`: takes items until a file is emitted, a directory fails or
        nothing is left. */
    method Walk() returns (r: Result<Option<ListEntry>, HdfsError>)
      requires Valid() && startSeeded && !failed && !exhausted && StartOpens(lister.ns, sp)
      modifies this, lister`listed, lister.cache
      ensures Valid() && startSeeded
      ensures failed <==> r.Err?
      ensures Took(lister.ns, old(trace), trace, r)
      ensures InitialRun(trace, WantedItems(lister.ns, Q()))
      ensures r.Ok? ==> Going()
      ensures r == Ok(None) ==> heap == {}
    {
      hide MergeOk, WantedItems, Remaining, Minimal, InitialRun, Advanced, FilesIn, PathsIn, Steady,
        Namespace.Valid, Lt, StartOpens, StartError, Skippable;
      while true
        invariant Valid() && startSeeded && !failed && !exhausted && StartOpens(lister.ns, sp)
        invariant FilesIn(trace) == FilesIn(old(trace))
        decreases Remaining(lister.ns, heap)
      {
        MergeIsInitialRun(lister.ns, Q(), heap, trace);
        if heap == {} {
          exhausted := true;
          return Ok(None);
        }
        FrontsExist(lister.ns, Q(), heap, trace);
        ghost var heap0, trace0 := heap, trace;
        var cursor := PopFront();
        if cursor.files {
          var emitted := TakeFront(cursor, heap0, trace0);
          if emitted.Some? {
            MergeIsInitialRun(lister.ns, Q(), heap, trace);
            return Ok(emitted);
          }
        } else {
          var failure, paths := Descend(cursor, heap0, trace0);
          assert before + [start] + PathsIn(mapper, trace0) + paths == before + [start] + PathsIn(mapper, trace);
          if failure.Some? {
            MergeIsInitialRun(lister.ns, Q(), heap, trace);
            failed := true;
            return Err(failure.value);
          }
        }
      }
    }

    /** `next_entry`: the next matching key in order, or nothing. The taken items grow by
        skipped and opened directories and, last, the emitted file or the fatal
        directory. */
    method NextEntry() returns (r: Result<Option<ListEntry>, HdfsError>)
      requires Valid() && !failed
      modifies this, lister`listed, lister.cache
      ensures Valid() && startSeeded
      ensures failed <==> r.Err?
      ensures !StartOpens(lister.ns, sp) ==>
                r == if old(startSeeded) || StartError(lister.ns, sp).FileNotFound? then Ok(None)
                     else Err(StartError(lister.ns, sp))
      ensures StartOpens(lister.ns, sp) ==> Took(lister.ns, old(trace), trace, r)
      ensures StartOpens(lister.ns, sp) && r.Ok? ==> Going()
      ensures StartOpens(lister.ns, sp) ==> InitialRun(trace, WantedItems(lister.ns, Q()))
      ensures StartOpens(lister.ns, sp) && r == Ok(None) ==> heap == {}
    {
      hide MergeOk, WantedItems, Remaining, Minimal, InitialRun, Advanced, FilesIn, PathsIn, Steady, Namespace.Valid;
      if exhausted {
        if StartOpens(lister.ns, sp) { MergeIsInitialRun(lister.ns, Q(), heap, trace); }
        return Ok(None);
      }
      if !startSeeded {
        var seeded := Seed();
        match seeded
        case Ok(more) => if !more { return Ok(None); }
        case Err(e) => return Err(e);
      }
      r := Walk();
    }

    /** `collect_page`: up to `maxKeys` entries and whether another key follows. */
    method CollectPage(maxKeys: nat) returns (r: Result<(seq<ListEntry>, bool), HdfsError>)
      requires Valid() && !startSeeded
      modifies this, lister`listed, lister.cache
      ensures lister.Valid()
      ensures maxKeys == 0 ==> r == Ok(([], false)) && lister.listed == before
      ensures maxKeys > 0 && !StartOpens(lister.ns, sp) ==>
                && r == (if StartError(lister.ns, sp).FileNotFound? then Ok(([], false))
                         else Err(StartError(lister.ns, sp)))
                && lister.listed == before + [start]
      ensures maxKeys > 0 && StartOpens(lister.ns, sp) ==>
                && IsPage(lister.ns, Q(), maxKeys, r)
                && lister.listed == before + [start] + PathsIn(mapper, OpenedItems(lister.ns, Q(), maxKeys, r))
    {
      hide MergeOk, WantedItems, Remaining, InitialRun, FilesIn, PathsIn, Namespace.Valid, IsPage, OpenedItems,
        Fatal, HdfsDirLister.Valid;
      NothingTaken(mapper);
      assert before + [] + [] == before;
      if maxKeys == 0 {
        return Ok(([], false));
      }
      ghost var opens := StartOpens(lister.ns, sp);
      var page: seq<ListEntry> := [];
      while |page| < maxKeys
        invariant Valid() && !failed && |page| <= maxKeys
        invariant !opens ==> page == [] && (startSeeded ==> StartError(lister.ns, sp).FileNotFound?)
        invariant opens ==> Emits(lister.ns, FilesIn(trace), page)
        decreases maxKeys - |page|
      {
        var next := NextEntry();
        match next
        case Err(e) =>
          if opens { FailedPage(lister.ns, Q(), mapper, maxKeys, trace, page, e); }
          return Err(e);
        case Ok(None) =>
          if opens { WholePage(lister.ns, Q(), mapper, maxKeys, heap, trace, page); }
          return Ok((page, false));
        case Ok(Some(entry)) =>
          page := page + [entry];
      }
      ghost var keys := FilesIn(trace);
      var probe := NextEntry();
      match probe
      case Err(e) =>
        FailedPage(lister.ns, Q(), mapper, maxKeys, trace, page, e);
        r := Err(e);
      case Ok(None) =>
        WholePage(lister.ns, Q(), mapper, maxKeys, heap, trace, page);
        r := Ok((page, false));
      case Ok(Some(entry)) =>
        TruncatedPage(lister.ns, Q(), mapper, trace, keys, page, entry.key);
        r := Ok((page, true));
    }
  }

  // ----- Pages

  ghost function WantedFiles(ns: Namespace, q: Query): set<Bytes> {
    set u | u in WantedItems(ns, q) && !IsDirItem(u)
  }

  /** The keys the query asks for, in order. */
  ghost function Keys(ns: Namespace, q: Query): seq<Bytes> {
    SortedSet(WantedFiles(ns, q))
  }

  /** The item sorts before the key that follows the page, if one does. */
  ghost predicate BeforeCut(ns: Namespace, q: Query, maxKeys: nat, u: Bytes) {
    |Keys(ns, q)| > maxKeys ==> Lt(u, Keys(ns, q)[maxKeys])
  }

  ghost predicate Emits(ns: Namespace, keys: seq<Bytes>, entries: seq<ListEntry>) {
    && |entries| == |keys|
    && forall i | 0 <= i < |keys| :: keys[i] in ns.files && entries[i] == ns.Entry(keys[i])
  }

  /** The error of the first directory whose listing is fatal before the cut. */
  ghost predicate FirstFailure(ns: Namespace, q: Query, maxKeys: nat, u: Bytes) {
    && u in WantedItems(ns, q) && Fatal(ns, u) && BeforeCut(ns, q, maxKeys, u)
    && forall x | x in WantedItems(ns, q) && Fatal(ns, x) :: Le(u, x)
  }

  /** The page is the first `maxKeys` wanted keys, cut exactly when there are more; it is
      an error if and only if a fatal directory sorts before the cut, and then the error
      of the first one. */
  ghost predicate IsPage(ns: Namespace, q: Query, maxKeys: nat, r: Result<(seq<ListEntry>, bool), HdfsError>) {
    var keys := Keys(ns, q);
    && (r.Err? <==> exists u | u in WantedItems(ns, q) :: Fatal(ns, u) && BeforeCut(ns, q, maxKeys, u))
    && match r
       case Ok((page, truncated)) =>
         && truncated == (|keys| > maxKeys)
         && Emits(ns, if truncated then keys[..maxKeys] else keys, page)
       case Err(e) => exists u | u in ns.errors && ns.errors[u] == e :: FirstFailure(ns, q, maxKeys, u)
  }

  /** The directories listed for the page, in order: those before the cut, and on failure
      those up to the first fatal one. */
  ghost function OpenedItems(ns: Namespace, q: Query, maxKeys: nat,
                             r: Result<(seq<ListEntry>, bool), HdfsError>): seq<Bytes> {
    SortedSet(set u | u in WantedItems(ns, q) && IsDirItem(u) && BeforeCut(ns, q, maxKeys, u)
                      && (r.Err? ==> forall x | x in WantedItems(ns, q) && Fatal(ns, x) :: Le(u, x)))
  }

  lemma KeysAreFiles(ns: Namespace, q: Query)
    ensures Keys(ns, q) == FilesIn(SortedSet(WantedItems(ns, q)))
  {
    hide Lt, Wanted, StrictlySorted, SortedSet;
    var W := WantedItems(ns, q);
    FilterSortedSet(W, IsFileItem());
    assert (set u | u in W && IsFileItem()(u)) == WantedFiles(ns, q);
  }

  lemma RunFiles(ns: Namespace, q: Query, trace: seq<Bytes>)
    requires InitialRun(trace, WantedItems(ns, q))
    ensures FilesIn(trace) <= Keys(ns, q)
    ensures |FilesIn(trace)| <= |Keys(ns, q)| && Keys(ns, q)[..|FilesIn(trace)|] == FilesIn(trace)
    ensures Keys(ns, q) == FilesIn(SortedSet(WantedItems(ns, q)))
    ensures forall k | k in Keys(ns, q)[|FilesIn(trace)|..] :: k !in trace
  {
    var W := WantedItems(ns, q);
    var rest := SortedSet(W - Elems(trace));
    assert forall k | k in rest :: k !in trace;
    hide *;
    KeysAreFiles(ns, q);
    InitialRunIsPrefix(trace, W);
    FilterConcat(trace, rest, IsFileItem());
    FilesAfter(ns, q, trace, rest);
  }

  lemma FilesAfter(ns: Namespace, q: Query, trace: seq<Bytes>, rest: seq<Bytes>)
    requires Keys(ns, q) == FilesIn(trace + rest) && FilesIn(trace + rest) == FilesIn(trace) + FilesIn(rest)
    ensures FilesIn(trace) <= Keys(ns, q)
    ensures Keys(ns, q)[|FilesIn(trace)|..] == FilesIn(rest)
  {
    hide *;
  }

  lemma {:induction false} PathsOfDirs(m: PathMapper, trace: seq<Bytes>)
    ensures PathsIn(m, trace) == PathsIn(m, Filter(trace, IsDirItem))
  {
    if trace != [] {
      var n := |trace| - 1;
      PathsOfDirs(m, trace[..n]);
      assert Filter(trace[..n], IsDirItem) + [] == Filter(trace[..n], IsDirItem);
      PathsInSnoc(m, Filter(trace[..n], IsDirItem), trace[n]);
    }
  }

  /** The opened paths are those of the taken directories. */
  lemma OpenedAre(ns: Namespace, q: Query, m: PathMapper, trace: seq<Bytes>, taken: set<Bytes>)
    requires InitialRun(trace, WantedItems(ns, q))
    requires forall u :: u in taken <==> u in trace && IsDirItem(u)
    ensures PathsIn(m, trace) == PathsIn(m, SortedSet(taken))
  {
    PathsOfDirs(m, trace);
    var dirs := Filter(trace, IsDirItem);
    FilterSorted(trace, IsDirItem);
    SortedUnique(dirs, SortedSet(taken));
  }

  /** When the frontier is empty everything wanted has been taken. */
  lemma AllTaken(ns: Namespace, q: Query, heap: Frontier, trace: seq<Bytes>)
    requires MergeOk(ns, q, heap, trace) && heap == {}
    ensures InitialRun(trace, WantedItems(ns, q)) && trace == SortedSet(WantedItems(ns, q))
  {
    hide Lt, WantedItems, FrontierOk;
    MergeIsInitialRun(ns, q, heap, trace);
    SortedUnique(trace, SortedSet(WantedItems(ns, q)));
  }

  lemma WholeIsPage(ns: Namespace, q: Query, maxKeys: nat, page: seq<ListEntry>)
    requires Emits(ns, Keys(ns, q), page) && |page| <= maxKeys
    requires forall u | u in WantedItems(ns, q) :: !Fatal(ns, u)
    ensures IsPage(ns, q, maxKeys, Ok((page, false)))
    ensures forall u :: BeforeCut(ns, q, maxKeys, u)
  {
    hide WantedItems, Keys, Fatal, Lt;
  }

  /** The page when the walk ends before the page is full or cut. */
  lemma WholePage(ns: Namespace, q: Query, m: PathMapper, maxKeys: nat, heap: Frontier, trace: seq<Bytes>,
                  page: seq<ListEntry>)
    requires MergeOk(ns, q, heap, trace) && heap == {}
    requires forall u | u in trace :: !Fatal(ns, u)
    requires Emits(ns, FilesIn(trace), page) && |page| <= maxKeys
    ensures IsPage(ns, q, maxKeys, Ok((page, false)))
    ensures PathsIn(m, trace) == PathsIn(m, OpenedItems(ns, q, maxKeys, Ok((page, false))))
  {
    hide Lt, WantedItems, FilesIn, PathsIn, MergeOk, InitialRun, Keys, Fatal, OpenedItems, StrictlySorted,
      IsPage, BeforeCut, Emits;
    AllTaken(ns, q, heap, trace);
    RunFiles(ns, q, trace);
    assert forall u :: u in trace <==> u in WantedItems(ns, q);
    WholeIsPage(ns, q, maxKeys, page);
    OpenedAre(ns, q, m, trace, set u | u in WantedItems(ns, q) && IsDirItem(u) && BeforeCut(ns, q, maxKeys, u));
    SameOpened(ns, q, maxKeys, Ok((page, false)));
  }

  /** The page when one more key was found after it. */
  lemma TruncatedPage(ns: Namespace, q: Query, m: PathMapper, trace: seq<Bytes>, keys: seq<Bytes>,
                      page: seq<ListEntry>, k: Bytes)
    requires InitialRun(trace, WantedItems(ns, q)) && forall u | u in trace :: !Fatal(ns, u)
    requires FilesIn(trace) == keys + [k] && Emits(ns, keys, page)
    requires trace != [] && trace[|trace| - 1] == k
    ensures IsPage(ns, q, |page|, Ok((page, true)))
    ensures PathsIn(m, trace) == PathsIn(m, OpenedItems(ns, q, |page|, Ok((page, true))))
  {
    hide Lt, WantedItems, FilesIn, PathsIn, OpenedItems, InitialRun, Keys, BeforeCut;
    CutAt(ns, q, trace, keys, k);
    FileIsNoDir(trace, keys, k);
    OpenedAre(ns, q, m, trace, set u | u in WantedItems(ns, q) && IsDirItem(u) && BeforeCut(ns, q, |page|, u));
    SameOpened(ns, q, |page|, Ok((page, true)));
  }

  lemma CutAt(ns: Namespace, q: Query, trace: seq<Bytes>, keys: seq<Bytes>, k: Bytes)
    requires InitialRun(trace, WantedItems(ns, q))
    requires FilesIn(trace) == keys + [k]
    requires trace != [] && trace[|trace| - 1] == k
    ensures |Keys(ns, q)| > |keys| && Keys(ns, q)[..|keys|] == keys
    ensures forall u | u in WantedItems(ns, q) :: BeforeCut(ns, q, |keys|, u) <==> u in trace && u != k
    ensures forall u | u in trace :: u in WantedItems(ns, q)
  {
    hide Lt, WantedItems, FilesIn, Keys;
    RunFiles(ns, q, trace);
    KeysAreCut(Keys(ns, q), keys, k);
    forall u | u in WantedItems(ns, q)
      ensures BeforeCut(ns, q, |keys|, u) <==> u in trace && u != k
    {
      BeforeLast(trace, WantedItems(ns, q), u);
    }
  }

  lemma KeysAreCut(all: seq<Bytes>, keys: seq<Bytes>, k: Bytes)
    requires |keys| < |all| && all[..|keys| + 1] == keys + [k]
    ensures all[|keys|] == k && all[..|keys|] == keys
  {
    assert all[|keys|] == all[..|keys| + 1][|keys|];
    assert all[..|keys|] == all[..|keys| + 1][..|keys|];
  }

  lemma FileIsNoDir(trace: seq<Bytes>, keys: seq<Bytes>, k: Bytes)
    requires FilesIn(trace) == keys + [k]
    ensures !IsDirItem(k)
  {
    assert k in FilesIn(trace);
  }

  lemma BeforeLast(run: seq<Bytes>, S: set<Bytes>, u: Bytes)
    requires InitialRun(run, S) && run != [] && u in S
    ensures Lt(u, run[|run| - 1]) <==> u in run && u != run[|run| - 1]
  {
    var last := run[|run| - 1];
    assert last in run;
    LtIrreflexive(u);
    if u in run {
      var i :| 0 <= i < |run| && run[i] == u;
    } else {
      LtAsymmetric(last, u);
    }
  }

  lemma SameOpened(ns: Namespace, q: Query, maxKeys: nat, r: Result<(seq<ListEntry>, bool), HdfsError>)
    requires r.Ok?
    ensures OpenedItems(ns, q, maxKeys, r)
         == SortedSet(set u | u in WantedItems(ns, q) && IsDirItem(u) && BeforeCut(ns, q, maxKeys, u))
  {
    assert (set u | u in WantedItems(ns, q) && IsDirItem(u) && BeforeCut(ns, q, maxKeys, u)
                    && (r.Err? ==> forall x | x in WantedItems(ns, q) && Fatal(ns, x) :: Le(u, x)))
        == (set u | u in WantedItems(ns, q) && IsDirItem(u) && BeforeCut(ns, q, maxKeys, u));
  }

  /** An initial run that ends in its only fatal item ends in the first fatal one, and
      holds what is not above any. */
  lemma EndsInFirstFatal(ns: Namespace, W: set<Bytes>, trace: seq<Bytes>)
    requires InitialRun(trace, W) && trace != []
    requires forall i | 0 <= i < |trace| - 1 :: !Fatal(ns, trace[i])
    requires Fatal(ns, trace[|trace| - 1])
    ensures trace[|trace| - 1] in W
    ensures forall x | x in W && Fatal(ns, x) :: Le(trace[|trace| - 1], x)
    ensures forall x | x in W :: (forall y | y in W && Fatal(ns, y) :: Le(x, y)) <==> x in trace
  {
    hide Lt, Fatal;
    var last := trace[|trace| - 1];
    StrictlySortedLast(trace);
    assert last in trace;
    forall x | x in W
      ensures Fatal(ns, x) ==> Le(last, x)
      ensures (forall y | y in W && Fatal(ns, y) :: Le(x, y)) <==> x in trace
    {
      if x in trace {
        forall y | y in W && Fatal(ns, y)
          ensures Le(x, y)
        {
          LeTransitive(x, last, y);
        }
      } else {
        LtNotLe(last, x);
      }
    }
  }

  /** The answer when a directory's listing is fatal. */
  lemma FailedPage(ns: Namespace, q: Query, m: PathMapper, maxKeys: nat, trace: seq<Bytes>, page: seq<ListEntry>,
                   e: HdfsError)
    requires InitialRun(trace, WantedItems(ns, q)) && trace != []
    requires forall i | 0 <= i < |trace| - 1 :: !Fatal(ns, trace[i])
    requires Fatal(ns, trace[|trace| - 1]) && ns.errors[trace[|trace| - 1]] == e
    requires Emits(ns, FilesIn(trace), page) && |page| <= maxKeys
    ensures IsPage(ns, q, maxKeys, Err(e))
    ensures PathsIn(m, trace) == PathsIn(m, OpenedItems(ns, q, maxKeys, Err(e)))
  {
    hide Lt, WantedItems, FilesIn, PathsIn, StrictlySorted, Keys, InitialRun, BeforeCut, OpenedItems,
      SortedSet, Skippable;
    var W := WantedItems(ns, q);
    EndsInFirstFatal(ns, W, trace);
    forall x | x in trace
      ensures BeforeCut(ns, q, maxKeys, x)
    {
      TakenIsBeforeCut(ns, q, trace, maxKeys, x);
    }
    RunIsWithin(trace, W);
    assert FirstFailure(ns, q, maxKeys, trace[|trace| - 1]);
    OpenedAre(ns, q, m, trace, set u | u in W && IsDirItem(u) && BeforeCut(ns, q, maxKeys, u)
                                        && forall x | x in W && Fatal(ns, x) :: Le(u, x));
    FailedOpened(ns, q, maxKeys, e);
  }

  lemma FailedOpened(ns: Namespace, q: Query, maxKeys: nat, e: HdfsError)
    ensures OpenedItems(ns, q, maxKeys, Err(e))
         == SortedSet(set u | u in WantedItems(ns, q) && IsDirItem(u) && BeforeCut(ns, q, maxKeys, u)
                              && forall x | x in WantedItems(ns, q) && Fatal(ns, x) :: Le(u, x))
  {
    hide WantedItems, BeforeCut, Fatal, Lt;
    var r: Result<(seq<ListEntry>, bool), HdfsError> := Err(e);
    assert (set u | u in WantedItems(ns, q) && IsDirItem(u) && BeforeCut(ns, q, maxKeys, u)
                    && (r.Err? ==> forall x | x in WantedItems(ns, q) && Fatal(ns, x) :: Le(u, x)))
        == (set u | u in WantedItems(ns, q) && IsDirItem(u) && BeforeCut(ns, q, maxKeys, u)
                    && forall x | x in WantedItems(ns, q) && Fatal(ns, x) :: Le(u, x));
  }

  lemma RunIsWithin(run: seq<Bytes>, S: set<Bytes>)
    requires InitialRun(run, S)
    ensures forall x | x in run :: x in S
  {
  }

  lemma StrictlySortedLast(s: seq<Bytes>)
    requires StrictlySorted(s) && s != []
    ensures forall x | x in s :: Le(x, s[|s| - 1])
  {
  }

  /** With at most `maxKeys` files taken, every taken item is before the cut. */
  lemma TakenIsBeforeCut(ns: Namespace, q: Query, trace: seq<Bytes>, maxKeys: nat, x: Bytes)
    requires InitialRun(trace, WantedItems(ns, q)) && x in trace && |FilesIn(trace)| <= maxKeys
    ensures BeforeCut(ns, q, maxKeys, x)
  {
    var keys := Keys(ns, q);
    RunFiles(ns, q, trace);
    if |keys| > maxKeys {
      assert keys[|FilesIn(trace)|..][maxKeys - |FilesIn(trace)|] == keys[maxKeys];
      assert keys[maxKeys] in keys;
    }
  }

  /** What one call adds to the items taken. */
  ghost predicate Took(ns: Namespace, trace0: seq<Bytes>, trace: seq<Bytes>, r: Result<Option<ListEntry>, HdfsError>) {
    match r
    case Ok(Some(e)) =>
      && trace != [] && trace[|trace| - 1] == e.key
      && e.key in ns.files && e == ns.Entry(e.key)
      && FilesIn(trace) == FilesIn(trace0) + [e.key]
    case Ok(None) => FilesIn(trace) == FilesIn(trace0)
    case Err(error) =>
      && trace != [] && Fatal(ns, trace[|trace| - 1]) && ns.errors[trace[|trace| - 1]] == error
      && (forall i | 0 <= i < |trace| - 1 :: !Fatal(ns, trace[i]))
      && FilesIn(trace) == FilesIn(trace0)
  }

  // ----- The steps

  lemma LeastByCmp(heap: Frontier)
    requires heap != {} && forall x | x in heap :: x.idx < x.Len()
    ensures exists c :: c in heap && forall x :: x in heap ==> c.Cmp(x) != Greater
  {
    MinimalExists(heap);
    var m :| Minimal(heap, m);
    forall x | x in heap
      ensures m.Cmp(x) != Greater
    {
      assert Le(m.Out(), x.Out());
    }
  }

  lemma SortedFiles(ns: Namespace, dp: Bytes, l: DirListing)
    requires IsListing(ns, dp, l)
    ensures forall i, j | 0 <= i < j < |l.files| :: Lt(l.files[i].key, l.files[j].key)
    ensures OutputSorted(l.dirs)
  {
  }

  lemma StartPartOf(m: PathMapper, sp: Bytes)
    requires m.Valid() && (sp == [] || (IsDirItem(sp) && Canonical(DirOf(sp))))
    ensures DirPart(m, StartPath(m, sp)) == sp
  {
    if sp != [] {
      NormalizeUnderRoot(m, DirOf(sp));
      assert (m.Base() + DirOf(sp))[|m.Base()|..] == DirOf(sp);
    }
  }

  lemma UpToMarker(files: seq<ListEntry>, marker: Bytes)
    requires forall i, j | 0 <= i < j < |files| :: Lt(files[i].key, files[j].key)
    ensures forall j, k | 0 <= j < k < |files| :: Le(files[k].key, marker) ==> Le(files[j].key, marker)
    ensures forall i | 0 <= i < |files| :: Le(files[i].key, marker) <==> !Lt(marker, files[i].key)
  {
    forall j, k | 0 <= j < k < |files| && Le(files[k].key, marker)
      ensures Le(files[j].key, marker)
    {
      LeTransitive(files[j].key, files[k].key, marker);
    }
    forall i | 0 <= i < |files|
      ensures Le(files[i].key, marker) <==> !Lt(marker, files[i].key)
    {
      LtNotLe(marker, files[i].key);
    }
  }

  lemma MergeIsInitialRun(ns: Namespace, q: Query, heap: Frontier, trace: seq<Bytes>)
    requires MergeOk(ns, q, heap, trace)
    ensures InitialRun(trace, WantedItems(ns, q))
    ensures heap == {} ==> forall u | u in WantedItems(ns, q) :: u in trace
  {
  }

  lemma FrontsExist(ns: Namespace, q: Query, heap: Frontier, trace: seq<Bytes>)
    requires MergeOk(ns, q, heap, trace)
    ensures forall x | x in heap :: x.idx < x.Len()
  {
  }

  lemma SeedReached(ns: Namespace, q: Query, l: DirListing)
    requires IsListing(ns, q.sp, l)
    ensures Reached(ns, q, l)
  {
    ListingReached(ns, q, q.sp, l);
  }

  /** After the start directory is opened the frontier covers every wanted item. */
  lemma SeedMerge(ns: Namespace, q: Query, l: DirListing, fi: nat, di: nat)
    requires ns.Valid() && IsListing(ns, q.sp, l) && Positioned(q, l, fi, di)
    requires q.sp == [] || IsDirItem(q.sp)
    ensures MergeOk(ns, q, Pushed(l, fi, di), [])
  {
    ListingReached(ns, q, q.sp, l);
    PushedOk(ns, q, q.sp, l, fi, di);
    forall u | u in WantedItems(ns, q)
      ensures q.sp <= u && u != q.sp
    {
      ItemKinds(ns, u);
      if IsDirItem(u) {
        PrefixTransitive(q.sp, DirOf(u), u);
        KeyShape(ns, DirOf(u));
      } else {
        KeyShape(ns, u);
      }
    }
  }

  lemma NothingTaken(m: PathMapper)
    ensures PathsIn(m, []) == [] && FilesIn([]) == []
  {
  }

  lemma PathsInSnoc(m: PathMapper, trace: seq<Bytes>, u: Bytes)
    ensures PathsIn(m, trace + [u]) == PathsIn(m, trace) + if IsDirItem(u) then [m.Base() + DirOf(u)] else []
    ensures FilesIn(trace + [u]) == FilesIn(trace) + if IsDirItem(u) then [] else [u]
  {
    assert (trace + [u])[..|trace|] == trace;
  }

  lemma TakeFile(ns: Namespace, q: Query, m: PathMapper, heap: Frontier, trace: seq<Bytes>, c: Cursor, emit: bool)
    requires ns.Valid() && MergeOk(ns, q, heap, trace) && Minimal(heap, c) && c.files
    requires emit <==> q.prefix <= c.Out() && (q.after.None? || !Le(c.Out(), q.after.value))
    ensures var heap', trace' := heap - {c} + Advanced(c), Extended(trace, c.Out(), emit);
            && MergeOk(ns, q, heap', trace')
            && Remaining(ns, heap') < Remaining(ns, heap)
            && !IsDirItem(c.Out()) && PathsIn(m, trace') == PathsIn(m, trace)
            && FilesIn(trace') == FilesIn(trace) + if emit then [c.Out()] else []
    ensures c.Out() in ns.files && c.listing.files[c.idx] == ns.Entry(c.Out())
  {
    var k := c.Out();
    assert c.listing.files[c.idx].key == k;
    KeyShape(ns, k);
    if q.after.Some? { LtNotLe(q.after.value, k); }
    PassReplaces(ns, q, c);
    StepKeepsMerge(ns, q, heap, trace, c, Advanced(c), emit);
    NextRemaining(ns, q, heap, c, Advanced(c));
    PathsInSnoc(m, trace, k);
  }

  lemma DirKeyMaps(ns: Namespace, q: Query, m: PathMapper, heap: Frontier, trace: seq<Bytes>, c: Cursor)
    requires ns.Valid() && m.Valid() && MergeOk(ns, q, heap, trace) && Minimal(heap, c) && !c.files
    ensures c.Front() in ns.dirs && ns.IsDirPart(c.Out())
    ensures m.KeyToHdfsPath(c.Front()) == Some(m.Base() + c.Front())
    ensures DirPart(m, m.Base() + c.Front()) == c.Out()
  {
    var key := c.Front();
    assert c.listing.dirs[c.idx] == key;
    KeyRoundTrip(m, key);
    NormalizeUnderRoot(m, key);
    assert (m.Base() + key)[|m.Base()|..] == key;
    DirItem(key);
  }

  lemma TakeDir(m: PathMapper, trace: seq<Bytes>, key: Bytes)
    ensures PathsIn(m, trace + [DirOut(key)]) == PathsIn(m, trace) + [m.Base() + key]
    ensures FilesIn(trace + [DirOut(key)]) == FilesIn(trace)
  {
    DirItem(key);
    PathsInSnoc(m, trace, DirOut(key));
  }

  lemma DirWanted(ns: Namespace, q: Query, c: Cursor)
    requires CursorOk(ns, q, c) && !c.files
    ensures c.Out() in WantedItems(ns, q) <==> q.prefix <= c.Front() && Reaches(q.after, c.Front())
  {
    DirItem(c.Front());
    OutIsCovered(ns, q, c);
    assert c.listing.dirs[c.idx] in ns.dirs;
  }

  lemma PassDir(ns: Namespace, q: Query, heap: Frontier, trace: seq<Bytes>, c: Cursor, enter: bool)
    requires MergeOk(ns, q, heap, trace) && Minimal(heap, c) && !c.files
    requires enter <==> q.prefix <= c.Front() && Reaches(q.after, c.Front())
    requires enter ==> c.Out() in ns.errors
    ensures MergeOk(ns, q, heap - {c} + Advanced(c), Extended(trace, c.Out(), enter))
    ensures Remaining(ns, heap - {c} + Advanced(c)) < Remaining(ns, heap)
  {
    DirWanted(ns, q, c);
    PassReplaces(ns, q, c);
    StepKeepsMerge(ns, q, heap, trace, c, Advanced(c), enter);
    NextRemaining(ns, q, heap, c, Advanced(c));
  }

  lemma OpenDir(ns: Namespace, q: Query, heap: Frontier, trace: seq<Bytes>, c: Cursor, l: DirListing, fi: nat, di: nat)
    requires ns.Valid() && MergeOk(ns, q, heap, trace) && Minimal(heap, c) && !c.files
    requires q.prefix <= c.Front() && Reaches(q.after, c.Front()) && c.Out() !in ns.errors
    requires IsListing(ns, c.Out(), l) && Positioned(q, l, fi, di)
    ensures var heap' := heap - {c} + Advanced(c) + Pushed(l, fi, di);
            && MergeOk(ns, q, heap', trace + [c.Out()])
            && Remaining(ns, heap') < Remaining(ns, heap)
  {
    hide Lt, IsListing, Positioned, Pushed, WantedItems, Remaining, Namespace.Valid, Covered, Disjoint;
    var repl := Advanced(c) + Pushed(l, fi, di);
    DirWanted(ns, q, c);
    OpenReplaces(ns, q, c, l, fi, di);
    StepKeepsMerge(ns, q, heap, trace, c, repl, true);
    NextRemaining(ns, q, heap, c, repl);
    assert heap - {c} + Advanced(c) + Pushed(l, fi, di) == Succeeding(heap, c, repl);
  }
}
