/** How old the block map of a GET can be: in every interleaved run it matches the stamp in
    the headers, and exactly when that lets it be of an older version. */
module BlockMapAge {
  import opened ByteStrings
  import opened Namespaces
  import opened Ranges
  import opened Cache
  import opened HdfsHistory
  import opened Gateway
  import opened Interleaving

  // ----- Where headers and block maps come from

  /** The metadata was read from the version it is marked with. */
  ghost predicate MetaOf(h: History, meta: FileMeta) {
    meta.version < |h| && MetaAt(h, meta.version) == Some(meta)
  }

  /** The reader was opened on the version it is marked with. */
  ghost predicate ReaderOf(h: History, reader: Reader) {
    var v := reader.version;
    v < |h| && h[v].File? && h[v].denied.None? && |h[v].content| == reader.length as int
  }

  /** Version `v` or one before it has this stamp. */
  ghost predicate StampedUpTo(h: History, v: nat, length: u64, mtime: nat) {
    exists i: nat | i <= v :: Stamped(h, i, length, mtime)
  }

  ghost predicate OpenedUnder(h: History, reader: Reader, length: u64, mtime: nat) {
    ReaderOf(h, reader) && StampedUpTo(h, reader.version, length, mtime)
  }

  /** The path was missing at some point. */
  ghost predicate WasMissing(h: History) {
    exists n: nat | n <= |h| :: Stat(h[..n]) == Err(FileNotFound)
  }

  ghost function Traced(h: History): Claim {
    Claim((m: FileMeta) => MetaOf(h, m), WasMissing(h),
          (r: CachedReader) => OpenedUnder(h, r.reader, r.length, r.mtime))
  }

  ghost predicate Matched(h: History, meta: FileMeta, reader: Reader) {
    MetaOf(h, meta) && !meta.isdir && OpenedUnder(h, reader, meta.length, meta.mtime)
  }

  /** The window is what the request's range asks for, of a file of the announced length. */
  ghost predicate Asked(request: Request, meta: FileMeta, window: Window) {
    request.Get? && WindowOf(meta.length, request.range) == Some(window)
  }

  /** A response with a body: a block map that matches its headers, and the window asked
      for, inside the version it is read from. */
  ghost predicate Served(h: History, request: Request, meta: FileMeta, window: Window, reader: Reader) {
    Matched(h, meta, reader) && Asked(request, meta, window) && window.end <= reader.length
  }

  /** The answer without caches at some point. */
  ghost predicate WasDirect(h: History, request: Request, outcome: Outcome) {
    exists n: nat | n <= |h| :: Direct(h[..n], request) == outcome
  }

  /** At some point the file could not be opened for this reason. */
  ghost predicate WasRefused(h: History, e: HdfsError) {
    exists n: nat | n <= |h| :: Open(h[..n]) == Err(e)
  }

  /** The window asked for, by announced metadata, does not fit a reader that matches it. */
  ghost predicate Outgrown(h: History, request: Request, meta: FileMeta, window: Window, reader: Reader) {
    Matched(h, meta, reader) && Asked(request, meta, window) && window.end > reader.length
  }

  ghost predicate WasOutgrown(h: History, request: Request) {
    exists meta: FileMeta, window: Window, reader: Reader :: Outgrown(h, request, meta, window, reader)
  }

  /** Every answer has its cause in the history of the path. */
  ghost predicate TracedOutcome(h: History, request: Request, outcome: Outcome) {
    match outcome
    case OpenFailed(e) => WasRefused(h, e)
    case Shrunk => WasOutgrown(h, request)
    case Body(meta, window, reader) => Served(h, request, meta, window, reader)
    case Broken(meta, window, reader) => Served(h, request, meta, window, reader)
    case _ => WasDirect(h, request, outcome)
  }

  ghost predicate TracedPhase(h: History, request: Request, phase: Phase) {
    match phase
    case Storing(meta) => MetaOf(h, meta)
    case Absent => WasMissing(h)
    case Known(meta) => MetaOf(h, meta)
    case Forgetting(e) => WasRefused(h, e)
    case Locating(meta, window) => MetaOf(h, meta) && !meta.isdir && Asked(request, meta, window)
    case Dropping(meta, window) => MetaOf(h, meta) && !meta.isdir && Asked(request, meta, window)
    case Opening(meta, window) => MetaOf(h, meta) && !meta.isdir && Asked(request, meta, window)
    case Keeping(meta, window, reader) => Matched(h, meta, reader) && Asked(request, meta, window)
    case Checking(meta, window, reader) => Matched(h, meta, reader) && Asked(request, meta, window)
    case Streaming(meta, window, reader) => Served(h, request, meta, window, reader)
    case Evicting(outcome) => TracedOutcome(h, request, outcome)
    case Unlearning(outcome) => TracedOutcome(h, request, outcome)
    case Done(outcome) => TracedOutcome(h, request, outcome)
    case _ => true
  }

  lemma TracedBrings(h: History, request: Request, phase: Phase)
    requires TracedPhase(h, request, phase)
    ensures Brings(phase, Traced(h))
  {
  }

  /** What an RPC answers now was so at some point. */
  lemma NowWas(h: History, request: Request)
    ensures WasDirect(h, request, Direct(h, request))
    ensures Stat(h) == Err(FileNotFound) ==> WasMissing(h)
    ensures Open(h).Err? ==> WasRefused(h, Open(h).error)
  {
    hide Direct, Stat, Open;
    assert h[..|h|] == h;
  }

  /** A path found missing is answered as it was when it was missing. */
  lemma MissingWasDirect(h: History, request: Request)
    requires WasMissing(h)
    ensures WasDirect(h, request, NoSuchKey)
  {
    hide Stat;
    var n: nat :| n <= |h| && Stat(h[..n]) == Err(FileNotFound);
    assert Direct(h[..n], request) == NoSuchKey;
  }

  /** What is decided from metadata is decided as when it was read. */
  lemma DecidedWasDirect(h: History, request: Request, meta: FileMeta)
    requires MetaOf(h, meta)
    ensures var next := Decide(request, meta);
            if next.Done? then TracedOutcome(h, request, next.outcome)
            else next.Locating? && next.meta == meta && !meta.isdir && Asked(request, meta, next.window)
  {
    hide WindowOf;
    assert Stat(h[..meta.version + 1]) == Ok(meta);
    if Decide(request, meta).Done? {
      assert Direct(h[..meta.version + 1], request) == Decide(request, meta).outcome;
    }
  }

  lemma NowStamped(h: History, meta: FileMeta)
    requires MetaOf(h, meta) && !meta.isdir && Open(h).Ok?
    ensures Matched(h, meta, Open(h).value)
  {
    assert Stamped(h, meta.version, meta.length, meta.mtime);
  }

  /** A block map is opened after the metadata was read, or reused for an equal stamp, and
      every answer has its cause. */
  lemma AdvanceKeepsTraced(c: Config, h: History, shelf: Shelf, path: Bytes, request: Request, phase: Phase, now: nat,
                           broken: bool)
    requires ShelfHolds(shelf, path, Traced(h)) && TracedPhase(h, request, phase)
    ensures TracedPhase(h, request, Advance(c, h, shelf, path, request, phase, now, broken).1)
  {
    hide GetEntries, GetValue, InsertEntries, Without, WasDirect, WasMissing, WasRefused, OpenedUnder, Asked, Decide,
      Direct;
    TracedBrings(h, request, phase);
    AdvanceKeepsShelf(c, h, shelf, path, request, phase, now, broken, path, Traced(h));
    NowWas(h, request);
    match phase
    case Probing =>
      if WasMissing(h) { MissingWasDirect(h, request); }
    case Stating =>
      StatedNow(h, request);
    case Absent =>
      MissingWasDirect(h, request);
    case Known(meta) =>
      DecidedWasDirect(h, request, meta);
    case Opening(meta, window) =>
      if Open(h).Ok? { NowStamped(h, meta); }
    case Checking(meta, window, reader) =>
      assert window.end > reader.length ==> Outgrown(h, request, meta, window, reader);
    case _ =>
  }

  lemma StatedNow(h: History, request: Request)
    ensures match Stat(h)
            case Ok(meta) => MetaOf(h, meta)
            case Err(e) => Direct(h, request) == if e.FileNotFound? then NoSuchKey else StatFailed(e)
  {
  }

  ghost predicate TracedMachine(m: Machine, p: Bytes) {
    var h := HistoryOf(m.hdfs, p);
    && ShelfHolds(m.shelf, p, Traced(h))
    && forall pid | pid in m.procs && m.procs[pid].path == p :: TracedPhase(h, m.procs[pid].request, m.procs[pid].phase)
  }

  lemma OpenedGrows(h: History, state: PathState, reader: Reader, length: u64, mtime: nat)
    requires OpenedUnder(h, reader, length, mtime)
    ensures OpenedUnder(h + [state], reader, length, mtime)
  {
    var i: nat :| i <= reader.version && Stamped(h, i, length, mtime);
    assert Stamped(h + [state], i, length, mtime);
  }

  /** What is known of a history stays true when it grows. */
  lemma TraceGrows(h: History, state: PathState)
    ensures forall m | MetaOf(h, m) :: MetaOf(h + [state], m)
    ensures forall r, length, mtime | OpenedUnder(h, r, length, mtime) :: OpenedUnder(h + [state], r, length, mtime)
    ensures forall request, phase | TracedPhase(h, request, phase) :: TracedPhase(h + [state], request, phase)
    ensures WasMissing(h) ==> WasMissing(h + [state])
  {
    hide OpenedUnder, Asked;
    var h' := h + [state];
    forall m | MetaOf(h, m)
      ensures MetaOf(h', m)
    {
      assert h'[m.version] == h[m.version];
    }
    forall r, length, mtime | OpenedUnder(h, r, length, mtime)
      ensures OpenedUnder(h', r, length, mtime)
    {
      OpenedGrows(h, state, r, length, mtime);
    }
    CausesGrow(h, state);
  }

  lemma CausesGrow(h: History, state: PathState)
    ensures WasMissing(h) ==> WasMissing(h + [state])
    ensures forall e | WasRefused(h, e) :: WasRefused(h + [state], e)
    ensures forall request, outcome | WasDirect(h, request, outcome) :: WasDirect(h + [state], request, outcome)
    ensures forall request | WasOutgrown(h, request) :: WasOutgrown(h + [state], request)
  {
    hide Stat, Open, Direct, OpenedUnder, Asked, MetaAt;
    var h' := h + [state];
    assert forall n: nat | n <= |h| :: h'[..n] == h[..n];
    forall request | WasOutgrown(h, request)
      ensures WasOutgrown(h', request)
    {
      var meta: FileMeta, window: Window, reader: Reader :| Outgrown(h, request, meta, window, reader);
      OpenedGrows(h, state, reader, meta.length, meta.mtime);
      MetaGrows(h, state, meta);
      assert Outgrown(h', request, meta, window, reader);
    }
  }

  lemma MetaGrows(h: History, state: PathState, meta: FileMeta)
    requires MetaOf(h, meta)
    ensures MetaOf(h + [state], meta)
  {
  }

  lemma ShelfGrows(shelf: Shelf, p: Bytes, h: History, state: PathState)
    requires ShelfHolds(shelf, p, Traced(h))
    ensures ShelfHolds(shelf, p, Traced(h + [state]))
  {
    hide OpenedUnder, MetaOf;
    TraceGrows(h, state);
  }

  lemma HappenKeepsTraced(c: Config, m: Machine, e: Event, p: Bytes)
    requires TracedMachine(m, p)
    ensures TracedMachine(Happen(c, m, e), p)
  {
    hide Advance, Traced, ShelfHolds, TracedPhase;
    var h := HistoryOf(m.hdfs, p);
    match e
    case Tick(pid, now, broken) =>
      if pid in m.procs {
        var proc := m.procs[pid];
        var hq := HistoryOf(m.hdfs, proc.path);
        if proc.path == p {
          AdvanceKeepsTraced(c, h, m.shelf, p, proc.request, proc.phase, now, broken);
          TracedBrings(h, proc.request, proc.phase);
        }
        AdvanceKeepsShelf(c, hq, m.shelf, proc.path, proc.request, proc.phase, now, broken, p, Traced(h));
      }
    case Arrive(_, _, request) =>
      TracedEnds(h, request, NoSuchKey);
    case FailAgain(pid) =>
      if pid in m.procs && m.procs[pid].phase.Done? {
        TracedEnds(h, m.procs[pid].request, m.procs[pid].phase.outcome);
      }
    case Write(path, state) =>
      if path == p {
        TraceGrows(h, state);
        ShelfGrows(m.shelf, p, h, state);
      }
  }

  lemma TracedEnds(h: History, request: Request, outcome: Outcome)
    ensures TracedPhase(h, request, Asking)
    ensures TracedPhase(h, request, Done(outcome)) ==> TracedPhase(h, request, Evicting(outcome))
  {
  }

  lemma {:induction false} RunKeepsTraced(c: Config, hdfs: Hdfs, events: seq<Event>, p: Bytes)
    ensures TracedMachine(After(c, Start(hdfs), events), p)
  {
    hide TracedMachine, Happen;
    if events == [] {
      NothingTraced(hdfs, p);
    } else {
      RunKeepsTraced(c, hdfs, events[..|events| - 1], p);
      HappenKeepsTraced(c, After(c, Start(hdfs), events[..|events| - 1]), events[|events| - 1], p);
    }
  }

  lemma NothingTraced(hdfs: Hdfs, p: Bytes)
    ensures TracedMachine(Start(hdfs), p)
  {
  }

  /** In every interleaving of requests, external changes, expiries and evictions, a GET
      streams the window asked for from a version that holds it, through a block map that
      was opened under the stamp in its headers. */
  lemma EveryBodyIsServed(c: Config, hdfs: Hdfs, events: seq<Event>, p: Bytes, pid: nat)
    ensures var m := After(c, Start(hdfs), events);
            pid in m.procs && m.procs[pid].path == p ==>
              TracedPhase(HistoryOf(m.hdfs, p), m.procs[pid].request, m.procs[pid].phase)
  {
    hide Traced, ShelfHolds, TracedPhase;
    RunKeepsTraced(c, hdfs, events, p);
  }

  /** Every answer has its cause: a refusal, and the headers of a HEAD, are what the uncached
      gateway answered at some point of the history; a failed opening was refused by HDFS;
      only a window that outgrew a version matching its headers is called shrunk. */
  lemma EveryAnswerHasItsCause(c: Config, hdfs: Hdfs, events: seq<Event>, p: Bytes, pid: nat)
    requires var m := After(c, Start(hdfs), events);
             pid in m.procs && m.procs[pid].path == p && m.procs[pid].phase.Done?
    ensures var m := After(c, Start(hdfs), events);
            var (h, request, outcome) := (HistoryOf(m.hdfs, p), m.procs[pid].request, m.procs[pid].phase.outcome);
            && (outcome.NoSuchKey? || outcome.StatFailed? || outcome.InvalidRange? || outcome.Headers? ==>
                  exists n: nat | n <= |h| :: Direct(h[..n], request) == outcome)
            && (outcome.OpenFailed? ==> exists n: nat | n <= |h| :: Open(h[..n]) == Err(outcome.error))
            && (outcome.Shrunk? ==> exists meta: FileMeta, window: Window, reader: Reader ::
                                      Outgrown(h, request, meta, window, reader))
  {
    hide Traced, ShelfHolds, Direct, Open, Outgrown, After;
    EveryBodyIsServed(c, hdfs, events, p, pid);
  }

  /** What such a GET delivers, however its version's bytes are chunked and wherever a read
      fails: bytes of that one version at the requested positions, all of them unless the
      body ends in an error. */
  lemma BodyIsOneVersion(h: History, request: Request, meta: FileMeta, window: Window, reader: Reader,
                         upstream: seq<Chunk>)
    requires Served(h, request, meta, window, reader)
    requires DataBytes(upstream) <= h[reader.version].content[window.start..]
    ensures var content := h[reader.version].content;
            var items := Drain(upstream, window.contentLength as nat, window.contentLength as nat);
            && OkBytes(items) <= content[window.start..window.end]
            && (ErrorFree(items) ==> OkBytes(items) == content[window.start..window.end])
            && (request.range.Some? ==>
                  forall i {:trigger Requested(meta.length as int, request.range.value, i)} ::
                    Requested(meta.length as int, request.range.value, i)
                        == (window.start as int <= i < window.end as int))
  {
    BodyIsSlice(h[reader.version].content, window, upstream);
  }

  // ----- Without a block cache

  /** No block map is cached, and those in use were opened after the headers' metadata. */
  ghost predicate ColdMachine(m: Machine, p: Bytes) {
    && m.shelf.blocks == []
    && forall pid | pid in m.procs && m.procs[pid].path == p :: ColdPhase(m.procs[pid].phase)
  }

  ghost predicate ColdPhase(phase: Phase) {
    match phase
    case Keeping(meta, _, reader) => meta.version <= reader.version
    case Checking(meta, _, reader) => meta.version <= reader.version
    case Streaming(meta, _, reader) => meta.version <= reader.version
    case Evicting(outcome) => ColdOutcome(outcome)
    case Unlearning(outcome) => ColdOutcome(outcome)
    case Done(outcome) => ColdOutcome(outcome)
    case _ => true
  }

  ghost predicate ColdOutcome(outcome: Outcome) {
    outcome.Body? || outcome.Broken? ==> outcome.meta.version <= outcome.reader.version
  }

  lemma GetNothing<V>(limits: Limits, p: Bytes, now: nat)
    ensures GetValue<Bytes, V>([], limits, p, now).None? && GetEntries<Bytes, V>([], limits, p, now) == []
  {
  }

  lemma AdvanceKeepsCold(c: Config, h: History, shelf: Shelf, path: Bytes, request: Request, phase: Phase, now: nat,
                         broken: bool)
    requires !Accepts(c.blocks, 1) && shelf.blocks == []
    ensures var (shelf', next) := Advance(c, h, shelf, path, request, phase, now, broken);
            && shelf'.blocks == []
            && (TracedPhase(h, request, phase) && ColdPhase(phase) ==> ColdPhase(next))
  {
    hide AdvanceMeta, WindowOf, Asked, OpenedUnder;
    MetaLeavesBlocks(c, h, shelf, path, phase, now);
    GetNothing<CachedReader>(c.blocks, path, now);
  }

  lemma MetaLeavesBlocks(c: Config, h: History, shelf: Shelf, path: Bytes, phase: Phase, now: nat)
    ensures AsksMeta(phase) ==>
              var (shelf', next) := AdvanceMeta(c, h, shelf, path, phase, now);
              shelf'.blocks == shelf.blocks && ColdPhase(next)
  {
  }

  lemma HappenKeepsCold(c: Config, m: Machine, e: Event, p: Bytes)
    requires !Accepts(c.blocks, 1) && TracedMachine(m, p) && ColdMachine(m, p)
    ensures ColdMachine(Happen(c, m, e), p)
  {
    hide Advance, Accepts, ShelfHolds, TracedPhase;
    if e.Tick? && e.pid in m.procs {
      var proc := m.procs[e.pid];
      AdvanceKeepsCold(c, HistoryOf(m.hdfs, proc.path), m.shelf, proc.path, proc.request, proc.phase, e.now, e.broken);
    }
  }

  lemma {:induction false} RunKeepsCold(c: Config, hdfs: Hdfs, events: seq<Event>, p: Bytes)
    requires !Accepts(c.blocks, 1)
    ensures ColdMachine(After(c, Start(hdfs), events), p)
  {
    hide TracedMachine, Happen, Accepts;
    if events != [] {
      var before := After(c, Start(hdfs), events[..|events| - 1]);
      RunKeepsCold(c, hdfs, events[..|events| - 1], p);
      RunKeepsTraced(c, hdfs, events[..|events| - 1], p);
      HappenKeepsCold(c, before, events[|events| - 1], p);
    }
  }

  // ----- When a block map is not older

  /** Version `v` can be streamed under the headers of the later version `j`: it can be
      opened, `j` repeats the stamp of `v` or of a version before it, and some window of a
      file as long as `j` lies inside `v`. */
  ghost predicate Confusable(h: History, v: nat, j: nat) {
    && v < j < |h| && h[j].File? && h[v].File? && h[v].denied.None?
    && (h[v].content == [] ==> h[j].content == [])
    && StampedUpTo(h, v, |h[j].content| as u64, h[j].mtime)
  }

  /** From version `j` on some version has the content of version `v`. */
  ghost predicate HeldFrom(h: History, v: nat, j: nat) {
    v < |h| && h[v].File? && exists k | j <= k < |h| :: h[k].File? && h[k].content == h[v].content
  }

  /** Only a version whose content is still there from `j` on can be confused with `j`. */
  ghost predicate StampsTell(h: History) {
    forall v: nat, j: nat | Confusable(h, v, j) :: HeldFrom(h, v, j)
  }

  lemma EarlierIsConfusable(h: History, request: Request, meta: FileMeta, window: Window, reader: Reader)
    requires Served(h, request, meta, window, reader) && reader.version < meta.version
    ensures Confusable(h, reader.version, meta.version)
  {
  }

  lemma ServedHolds(c: Config, h: History, request: Request, meta: FileMeta, window: Window, reader: Reader)
    requires Served(h, request, meta, window, reader)
    requires if Accepts(c.blocks, 1) then StampsTell(h) else meta.version <= reader.version
    ensures HeldFrom(h, reader.version, meta.version)
  {
    hide Confusable, WindowOf;
    if reader.version < meta.version {
      EarlierIsConfusable(h, request, meta, window, reader);
    }
  }

  /** In every interleaving a GET streams content that the file has in the announced version
      or a later one, if no block maps are cached or stamps tell versions apart. */
  lemma BlockMapsAreNotOlder(c: Config, hdfs: Hdfs, events: seq<Event>, p: Bytes, pid: nat)
    requires Accepts(c.blocks, 1) ==> StampsTell(HistoryOf(After(c, Start(hdfs), events).hdfs, p))
    ensures var m := After(c, Start(hdfs), events);
            pid in m.procs && m.procs[pid].path == p ==>
              var (h, phase) := (HistoryOf(m.hdfs, p), m.procs[pid].phase);
              && (phase.Streaming? ==> HeldFrom(h, phase.reader.version, phase.meta.version))
              && (phase.Done? && (phase.outcome.Body? || phase.outcome.Broken?) ==>
                    HeldFrom(h, phase.outcome.reader.version, phase.outcome.meta.version))
  {
    hide Served, StampsTell, HeldFrom, After, Accepts;
    EveryBodyIsServed(c, hdfs, events, p, pid);
    var m := After(c, Start(hdfs), events);
    if !Accepts(c.blocks, 1) { RunKeepsCold(c, hdfs, events, p); }
    if pid in m.procs && m.procs[pid].path == p {
      var h, request, phase := HistoryOf(m.hdfs, p), m.procs[pid].request, m.procs[pid].phase;
      if phase.Streaming? {
        ServedHolds(c, h, request, phase.meta, phase.window, phase.reader);
      } else if phase.Done? && (phase.outcome.Body? || phase.outcome.Broken?) {
        ServedHolds(c, h, request, phase.outcome.meta, phase.outcome.window, phase.outcome.reader);
      }
    }
  }

  /** Distinct stamps leave nothing to confuse: no earlier version is served at all. */
  lemma ConfusableRepeatsStamp(h: History, v: nat, j: nat)
    requires Confusable(h, v, j)
    ensures !DistinctStamps(h)
  {
    var i: nat :| i <= v && Stamped(h, i, |h[j].content| as u64, h[j].mtime);
    assert Stamped(h, j, |h[j].content| as u64, h[j].mtime) && i != j;
  }

  lemma ServedIsNotEarlier(h: History, request: Request, meta: FileMeta, window: Window, reader: Reader)
    requires Served(h, request, meta, window, reader) && DistinctStamps(h)
    ensures meta.version <= reader.version
  {
    hide Confusable, WindowOf;
    if reader.version < meta.version {
      EarlierIsConfusable(h, request, meta, window, reader);
      ConfusableRepeatsStamp(h, reader.version, meta.version);
    }
  }

  /** In every interleaving the block map a GET serves from is of the announced version or a
      later one, if no two versions share a stamp. */
  lemma DistinctStampsSuffice(c: Config, hdfs: Hdfs, events: seq<Event>, p: Bytes, pid: nat)
    requires DistinctStamps(HistoryOf(After(c, Start(hdfs), events).hdfs, p))
    ensures var m := After(c, Start(hdfs), events);
            pid in m.procs && m.procs[pid].path == p ==>
              var phase := m.procs[pid].phase;
              && (phase.Streaming? ==> phase.meta.version <= phase.reader.version)
              && (phase.Done? && (phase.outcome.Body? || phase.outcome.Broken?) ==>
                    phase.outcome.meta.version <= phase.outcome.reader.version)
  {
    hide Served, DistinctStamps, After;
    EveryBodyIsServed(c, hdfs, events, p, pid);
    var m := After(c, Start(hdfs), events);
    if pid in m.procs && m.procs[pid].path == p {
      var h, request, phase := HistoryOf(m.hdfs, p), m.procs[pid].request, m.procs[pid].phase;
      if phase.Streaming? {
        ServedIsNotEarlier(h, request, phase.meta, phase.window, phase.reader);
      } else if phase.Done? && (phase.outcome.Body? || phase.outcome.Broken?) {
        ServedIsNotEarlier(h, request, phase.outcome.meta, phase.outcome.window, phase.outcome.reader);
      }
    }
  }

  // ----- Every confusable pair is streamed by some run

  /** The GET that needs least of a file: its first byte, or nothing. */
  function ShortRange(length: u64): Option<ByteRange> {
    if length == 0 then None else Some(Inclusive(0, 0))
  }

  function ShortWindow(length: u64): Window {
    if length == 0 then Window(0, 0, 0, None) else Window(0, 1, 1, Some((0, 0, length)))
  }

  lemma ShortWindowOf(length: u64)
    ensures WindowOf(length, ShortRange(length)) == Some(ShortWindow(length))
  {
  }

  function ShortGet(c: Config, h: History, p: Bytes, length: u64, now: nat): Job {
    Job(c, h, p, Request.Get(ShortRange(length)), Times(now, now, now, now, now), false)
  }

  /** What is inserted at time zero is gone when the lifetime has passed, stored or not. */
  lemma GoneAtTtl<V>(limits: Limits, p: Bytes, v: V)
    ensures GetValue(InsertEntries([], limits, p, v, 1, 0), limits, p, limits.ttl).None?
  {
    var s := InsertEntries([], limits, p, v, 1, 0);
    forall e | e in s
      ensures Expired(e, limits, limits.ttl)
    {
      EntriesComeFrom([], limits, p, v, 1, 0, e);
    }
  }

  /** The metadata is read and goes to its cache. */
  lemma StatAndKeep(job: Job, shelf: Shelf, meta: FileMeta)
    requires Stat(job.history) == Ok(meta) && shelf.negative == []
    requires GetValue(shelf.metadata, job.config.metadata, job.path, job.times.asked).None?
    ensures var limits := job.config.metadata;
            var asked := GetEntries(shelf.metadata, limits, job.path, job.times.asked);
            RunTo(job, shelf, Asking, HasMeta)
              == (Shelf(InsertEntries(asked, limits, job.path, meta, 1, job.times.stored), [], shelf.blocks),
                  Known(meta))
  {
    hide RunTo, GetEntries, GetValue, InsertEntries, Stat;
    var asked := shelf.(metadata := GetEntries(shelf.metadata, job.config.metadata, job.path, job.times.asked));
    Step(job, shelf, Asking, HasMeta);
    GetNothing<()>(job.config.negative, job.path, job.times.probed);
    Step(job, asked, Probing, HasMeta);
    Step(job, asked, Stating, HasMeta);
    Step(job, asked, Storing(meta), HasMeta);
  }

  /** The block cache after one reader was opened at a time. */
  function KeptBlocks(c: Config, p: Bytes, meta: FileMeta, reader: Reader, now: nat): Entries<Bytes, CachedReader> {
    InsertEntries([], c.blocks, p, CachedReader(reader, meta.length, meta.mtime), 1, now)
  }

  /** The current version is opened under metadata read before. */
  lemma OpenAndKeep(c: Config, h: History, p: Bytes, shelf: Shelf, meta: FileMeta, reader: Reader, now: nat)
    requires Open(h) == Ok(reader) && !meta.isdir && shelf.blocks == []
    ensures RunTo(ShortGet(c, h, p, meta.length, now), shelf, Known(meta), HasReader)
         == (shelf.(blocks := KeptBlocks(c, p, meta, reader, now)), Checking(meta, ShortWindow(meta.length), reader))
  {
    hide RunTo, GetEntries, GetValue, InsertEntries, Open, WindowOf;
    var job, window := ShortGet(c, h, p, meta.length, now), ShortWindow(meta.length);
    ShortWindowOf(meta.length);
    Step(job, shelf, Known(meta), HasReader);
    GetNothing<CachedReader>(c.blocks, p, now);
    Step(job, shelf, Locating(meta, window), HasReader);
    Step(job, shelf, Opening(meta, window), HasReader);
    Step(job, shelf, Keeping(meta, window, reader), HasReader);
  }

  /** The block map is reused under metadata of the same stamp. */
  lemma ReuseKept(c: Config, h: History, p: Bytes, shelf: Shelf, meta: FileMeta, reader: Reader, now: nat)
    requires Accepts(c.blocks, 1) && c.blocks.capacity >= 1 && !meta.isdir
    requires shelf.blocks == KeptBlocks(c, p, meta, reader, now) && ShortWindow(meta.length).end <= reader.length
    ensures RunTo(ShortGet(c, h, p, meta.length, now), shelf, Known(meta), Responded).1
         == Streaming(meta, ShortWindow(meta.length), reader)
  {
    hide RunTo, GetEntries, GetValue, InsertEntries, WindowOf;
    var job, window := ShortGet(c, h, p, meta.length, now), ShortWindow(meta.length);
    ShortWindowOf(meta.length);
    Step(job, shelf, Known(meta), Responded);
    InsertIsFound([], c.blocks, p, CachedReader(reader, meta.length, meta.mtime), 1, now, now);
    Step(job, shelf, Locating(meta, window), Responded);
    var located := shelf.(blocks := GetEntries(shelf.blocks, c.blocks, p, now));
    Step(job, located, Checking(meta, window, reader), Responded);
  }

  /** What the caches hold when a version was opened, at the end of the metadata's life,
      under the metadata of version `i`. */
  function OpenedShelf(c: Config, p: Bytes, earlier: FileMeta, reader: Reader): Shelf {
    Shelf(InsertEntries([], c.metadata, p, earlier, 1, 0), [], KeptBlocks(c, p, earlier, reader, c.metadata.ttl))
  }

  /** The metadata has expired: the next GET reads it again and reuses the block map. */
  lemma ServeKept(c: Config, h: History, p: Bytes, earlier: FileMeta, meta: FileMeta, reader: Reader)
    requires Accepts(c.blocks, 1) && c.blocks.capacity >= 1
    requires Stat(h) == Ok(meta) && !meta.isdir && meta.length == earlier.length && meta.mtime == earlier.mtime
    requires ShortWindow(meta.length).end <= reader.length
    ensures var job := ShortGet(c, h, p, meta.length, c.metadata.ttl);
            RunTo(job, OpenedShelf(c, p, earlier, reader), Asking, Responded).1
              == Streaming(meta, ShortWindow(meta.length), reader)
  {
    hide RunTo, GetEntries, GetValue, InsertEntries, Stat, ShortRange, ShortWindow;
    var job, shelf := ShortGet(c, h, p, meta.length, c.metadata.ttl), OpenedShelf(c, p, earlier, reader);
    GoneAtTtl(c.metadata, p, earlier);
    StatAndKeep(job, shelf, meta);
    RunVia(job, shelf, Asking, HasMeta, Responded);
    ReuseKept(c, h, p, RunTo(job, shelf, Asking, HasMeta).0, meta, reader, c.metadata.ttl);
  }

  /** The path is written, then a request in flight goes on without interruption. */
  lemma WriteThenGoOn(m: Machine, states: seq<PathState>, pid: nat, job: Job, goal: Goal) returns (events: seq<Event>)
    requires pid in m.procs && m.procs[pid].path == job.path && m.procs[pid].request == job.request
    requires job.history == HistoryOf(m.hdfs, job.path) + states
    ensures var r := After(job.config, m, events);
            var (shelf, phase) := RunTo(job, m.shelf, m.procs[pid].phase, goal);
            && HistoryOf(r.hdfs, job.path) == job.history && r.shelf == shelf
            && r.procs == m.procs[pid := Proc(job.path, job.request, phase)]
  {
    hide RunTo, Advance;
    var writes := Writes(job.path, states);
    WritesAppend(job.config, m, job.path, states);
    var run := RunToIsRun(After(job.config, m, writes), pid, job, goal);
    AfterConcat(job.config, m, writes, run);
    events := writes + run;
  }

  /** ... or a new request is served. */
  lemma WriteThenServe(m: Machine, states: seq<PathState>, pid: nat, job: Job, goal: Goal) returns (events: seq<Event>)
    requires pid !in m.procs && job.history == HistoryOf(m.hdfs, job.path) + states
    ensures var r := After(job.config, m, events);
            var (shelf, phase) := RunTo(job, m.shelf, Asking, goal);
            && HistoryOf(r.hdfs, job.path) == job.history && r.shelf == shelf
            && r.procs == m.procs[pid := Proc(job.path, job.request, phase)]
  {
    hide RunTo, Advance;
    var arrive := Arrive(pid, job.path, job.request);
    var arrived := Happen(job.config, m, arrive);
    assert After(job.config, m, [arrive]) == arrived by { assert [arrive][..0] == []; }
    var run := WriteThenGoOn(arrived, states, pid, job, goal);
    AfterConcat(job.config, m, [arrive], run);
    events := [arrive] + run;
  }

  /** The metadata of version `i` is read, then version `v` is opened under it. */
  lemma OpenUnderEarlier(c: Config, h: History, i: nat, v: nat, p: Bytes, earlier: FileMeta, reader: Reader)
    returns (events: seq<Event>)
    requires i <= v < |h| && Stat(h[..i + 1]) == Ok(earlier) && !earlier.isdir && Open(h[..v + 1]) == Ok(reader)
    ensures var m := After(c, Start(map[]), events);
            HistoryOf(m.hdfs, p) == h[..v + 1] && 1 !in m.procs && m.shelf == OpenedShelf(c, p, earlier, reader)
  {
    hide After, RunTo, Stat, Open, GetValue, GetEntries, InsertEntries, ShortRange, ShortWindow;
    var m, hi, hv := Start(map[]), h[..i + 1], h[..v + 1];
    assert HistoryOf(m.hdfs, p) + hi == hi && hi + h[i + 1..v + 1] == hv;
    var stat := WriteThenServe(m, hi, 0, ShortGet(c, hi, p, earlier.length, 0), HasMeta);
    GetNothing<FileMeta>(c.metadata, p, 0);
    StatAndKeep(ShortGet(c, hi, p, earlier.length, 0), m.shelf, earlier);
    var m1 := After(c, m, stat);
    var late := ShortGet(c, hv, p, earlier.length, c.metadata.ttl);
    var open := WriteThenGoOn(m1, h[i + 1..v + 1], 0, late, HasReader);
    OpenAndKeep(c, hv, p, m1.shelf, earlier, reader, c.metadata.ttl);
    AfterConcat(c, m, stat, open);
    events := stat + open;
  }

  /** Version `j` is announced with what was opened, and the history goes on. */
  lemma ServeUnderLater(c: Config, m: Machine, h: History, v: nat, j: nat, p: Bytes, earlier: FileMeta, meta: FileMeta,
                        reader: Reader)
    returns (events: seq<Event>)
    requires Accepts(c.blocks, 1) && c.blocks.capacity >= 1
    requires v < j < |h| && HistoryOf(m.hdfs, p) == h[..v + 1]
    requires 1 !in m.procs && m.shelf == OpenedShelf(c, p, earlier, reader)
    requires Stat(h[..j + 1]) == Ok(meta) && !meta.isdir && meta.length == earlier.length && meta.mtime == earlier.mtime
    requires ShortWindow(meta.length).end <= reader.length
    ensures var r := After(c, m, events);
            && HistoryOf(r.hdfs, p) == h && 1 in r.procs && r.procs[1].path == p
            && r.procs[1].phase == Streaming(meta, ShortWindow(meta.length), reader)
  {
    hide After, RunTo, Stat, ShortRange, ShortWindow, OpenedShelf, Accepts;
    var hj := h[..j + 1];
    assert h[..v + 1] + h[v + 1..j + 1] == hj && hj + h[j + 1..] == h;
    var serve := WriteThenServe(m, h[v + 1..j + 1], 1, ShortGet(c, hj, p, meta.length, c.metadata.ttl), Responded);
    ServeKept(c, hj, p, earlier, meta, reader);
    WritesAppend(c, After(c, m, serve), p, h[j + 1..]);
    AfterConcat(c, m, serve, Writes(p, h[j + 1..]));
    events := serve + Writes(p, h[j + 1..]);
  }

  /** So whatever the configuration, if block maps are cached at all, a confusable version is
      streamed: the metadata is read, its life ends as a block map is opened under it, and
      the next GET announces what it reads then. */
  lemma ConfusableIsStreamed(c: Config, h: History, v: nat, j: nat, p: Bytes) returns (events: seq<Event>)
    requires Confusable(h, v, j) && Accepts(c.blocks, 1) && c.blocks.capacity >= 1
    ensures StreamsIn(After(c, Start(map[]), events), p, 1, h, v, j)
  {
    hide After, Accepts;
    var length, mtime := |h[j].content| as u64, h[j].mtime;
    var i: nat :| i <= v && Stamped(h, i, length, mtime);
    var earlier, meta := FileMeta(length, false, mtime, i), FileMeta(length, false, mtime, j);
    var reader := Reader(|h[v].content| as u64, v);
    var open := OpenUnderEarlier(c, h, i, v, p, earlier, reader);
    var m := After(c, Start(map[]), open);
    var serve := ServeUnderLater(c, m, h, v, j, p, earlier, meta, reader);
    AfterConcat(c, Start(map[]), open, serve);
    events := open + serve;
  }

  ghost predicate StreamsIn(m: Machine, p: Bytes, pid: nat, h: History, v: nat, j: nat) {
    && HistoryOf(m.hdfs, p) == h
    && pid in m.procs && m.procs[pid].path == p && m.procs[pid].phase.Streaming?
    && m.procs[pid].phase.reader.version == v && m.procs[pid].phase.meta.version == j
  }

  // ----- Which versions a gateway serves

  /** Some run of a gateway with this configuration leaves a path with this history and
      streams version `v` under the headers of version `j`. */
  ghost predicate Streams(c: Config, h: History, v: nat, j: nat) {
    exists hdfs: Hdfs, events: seq<Event>, p: Bytes, pid: nat ::
      StreamsIn(After(c, Start(hdfs), events), p, pid, h, v, j)
  }

  /** What is streamed is a version of the file; an earlier one is confusable, and block maps
      are cached. */
  lemma StreamedIsServed(c: Config, h: History, v: nat, j: nat)
    requires Streams(c, h, v, j)
    ensures v < |h| && h[v].File? && (v < j ==> Confusable(h, v, j) && Accepts(c.blocks, 1))
  {
    hide Confusable, After, WindowOf, Accepts;
    var hdfs: Hdfs, events: seq<Event>, p: Bytes, pid: nat :|
      StreamsIn(After(c, Start(hdfs), events), p, pid, h, v, j);
    EveryBodyIsServed(c, hdfs, events, p, pid);
    var proc := After(c, Start(hdfs), events).procs[pid];
    if !Accepts(c.blocks, 1) { RunKeepsCold(c, hdfs, events, p); }
    if v < j {
      EarlierIsConfusable(h, proc.request, proc.phase.meta, proc.phase.window, proc.phase.reader);
    }
  }

  /** For every configuration and every history, the earlier versions that some run streams
      under later headers are exactly the confusable ones if block maps are cached at all,
      and none if they are not. */
  lemma StreamsEarlierIff(c: Config, h: History, v: nat, j: nat)
    requires v < j && c.blocks.capacity >= 1
    ensures Streams(c, h, v, j) <==> Accepts(c.blocks, 1) && Confusable(h, v, j)
  {
    hide Confusable, After, Accepts;
    if Streams(c, h, v, j) {
      StreamedIsServed(c, h, v, j);
    }
    if Accepts(c.blocks, 1) && Confusable(h, v, j) {
      var events := ConfusableIsStreamed(c, h, v, j, []);
    }
  }

  /** So a gateway serves no content that is older than announced exactly when it caches no
      block maps or stamps tell versions apart, and no earlier position of the history
      exactly when it caches none or nothing there is confusable. */
  lemma NeverOlderIff(c: Config, h: History)
    requires c.blocks.capacity >= 1
    ensures (forall v: nat, j: nat | Streams(c, h, v, j) :: HeldFrom(h, v, j))
            <==> !Accepts(c.blocks, 1) || StampsTell(h)
    ensures (forall v: nat, j: nat | Streams(c, h, v, j) :: j <= v)
            <==> !Accepts(c.blocks, 1) || (forall v: nat, j: nat :: !Confusable(h, v, j))
  {
    hide Streams, Accepts, Confusable, HeldFrom;
    forall v: nat, j: nat
      ensures Accepts(c.blocks, 1) && Confusable(h, v, j) <==> v < j && Streams(c, h, v, j)
      ensures Streams(c, h, v, j) && j <= v ==> HeldFrom(h, v, j)
    {
      if v < j {
        StreamsEarlierIff(c, h, v, j);
      } else {
        NotEarlier(c, h, v, j);
      }
    }
  }

  lemma NotEarlier(c: Config, h: History, v: nat, j: nat)
    requires j <= v
    ensures !Confusable(h, v, j) && (Streams(c, h, v, j) ==> HeldFrom(h, v, j))
  {
    hide Streams;
    if Streams(c, h, v, j) { StreamedIsServed(c, h, v, j); }
  }

  /** A file replaced by another of equal length and modification time: the old byte is
      served under the new headers, though the file no longer has it. */
  lemma ReplacedFileIsServed(c: Config)
    requires Accepts(c.blocks, 1) && c.blocks.capacity >= 1
    ensures var h: History := [File([1], 5, None), File([2], 5, None)];
            Confusable(h, 0, 1) && !HeldFrom(h, 0, 1) && Streams(c, h, 0, 1)
  {
    hide Streams, Accepts;
    var h: History := [File([1], 5, None), File([2], 5, None)];
    assert Stamped(h, 0, 1, 5);
    assert h[1].content[0] != h[0].content[0];
    StreamsEarlierIff(c, h, 0, 1);
  }
}
