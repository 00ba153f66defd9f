/** HEAD and GET over the metadata, negative and block-map caches: the atomic steps of one
    request, and the gateway class whose methods run them without interruption. */
module Gateway {
  import opened ByteStrings
  import opened Namespaces
  import opened Ranges
  import opened Cache
  import opened HdfsHistory

  datatype CachedReader = CachedReader(reader: Reader, length: u64, mtime: nat)

  datatype Config = Config(metadata: Limits, negative: Limits, blocks: Limits)

  /** The contents of the three caches. */
  datatype Shelf = Shelf(metadata: Entries<Bytes, FileMeta>, negative: Entries<Bytes, ()>,
                         blocks: Entries<Bytes, CachedReader>)

  /** Where a request stands between two accesses to shared state. */
  datatype Phase =
    | Asking | Probing | Stating | Storing(meta: FileMeta) | Absent
    | Known(meta: FileMeta)
    | Locating(meta: FileMeta, window: Window)
    | Dropping(meta: FileMeta, window: Window)
    | Opening(meta: FileMeta, window: Window)
    | Forgetting(error: HdfsError)
    | Keeping(meta: FileMeta, window: Window, reader: Reader)
    | Checking(meta: FileMeta, window: Window, reader: Reader)
    | Streaming(meta: FileMeta, window: Window, reader: Reader)
    | Evicting(outcome: Outcome)
    | Unlearning(outcome: Outcome)
    | Done(outcome: Outcome)
  {
    /** The number of steps that can still follow. */
    function Rank(): nat {
      match this
      case Asking => 13
      case Probing => 12
      case Stating => 11
      case Storing(_) => 10
      case Absent => 10
      case Known(_) => 9
      case Locating(_, _) => 8
      case Dropping(_, _) => 7
      case Opening(_, _) => 6
      case Forgetting(_) => 5
      case Keeping(_, _, _) => 5
      case Checking(_, _, _) => 4
      case Streaming(_, _, _) => 3
      case Evicting(_) => 2
      case Unlearning(_) => 1
      case Done(_) => 0
    }
  }

  /** What follows once the metadata is known: directories are no objects, and a GET needs
      a satisfiable range. */
  function Decide(request: Request, meta: FileMeta): Phase {
    if meta.isdir then Done(NoSuchKey) else
      match request
      case Head => Done(Headers(meta))
      case Get(range) =>
        match WindowOf(meta.length, range)
        case None => Done(InvalidRange)
        case Some(window) => Locating(meta, window)
  }

  /** The phases of `file_meta`. */
  predicate AsksMeta(phase: Phase) {
    phase.Asking? || phase.Probing? || phase.Stating? || phase.Storing? || phase.Absent?
  }

  /** One step of `file_meta`. */
  function AdvanceMeta(c: Config, h: History, shelf: Shelf, path: Bytes, phase: Phase, now: nat): (r: (Shelf, Phase))
    requires AsksMeta(phase)
    ensures r.1.Rank() < phase.Rank()
  {
    match phase
    case Asking =>
      var hit := GetValue(shelf.metadata, c.metadata, path, now);
      (shelf.(metadata := GetEntries(shelf.metadata, c.metadata, path, now)),
       if hit.Some? then Known(hit.value) else Probing)
    case Probing =>
      var hit := GetValue(shelf.negative, c.negative, path, now);
      (shelf.(negative := GetEntries(shelf.negative, c.negative, path, now)),
       if hit.Some? then Done(NoSuchKey) else Stating)
    case Stating =>
      (shelf, match Stat(h)
              case Ok(meta) => Storing(meta)
              case Err(e) => if e.FileNotFound? then Absent else Done(StatFailed(e)))
    case Storing(meta) =>
      (shelf.(metadata := InsertEntries(shelf.metadata, c.metadata, path, meta, 1, now)), Known(meta))
    case Absent =>
      (shelf.(negative := InsertEntries(shelf.negative, c.negative, path, (), 1, now)), Done(NoSuchKey))
  }

  /** One step of a request on `path`: one cache operation, one RPC or one decision. `broken`
      says whether the body stream, if this step reads it, fails. */
  function Advance(c: Config, h: History, shelf: Shelf, path: Bytes, request: Request, phase: Phase, now: nat,
                   broken: bool): (r: (Shelf, Phase))
    ensures r.1.Rank() < phase.Rank() || (phase.Done? && r == (shelf, phase))
  {
    if AsksMeta(phase) then AdvanceMeta(c, h, shelf, path, phase, now) else
    match phase
    case Known(meta) =>
      (shelf, Decide(request, meta))
    case Locating(meta, window) =>
      var hit := GetValue(shelf.blocks, c.blocks, path, now);
      (shelf.(blocks := GetEntries(shelf.blocks, c.blocks, path, now)),
       if hit.None? then Opening(meta, window)
       else if hit.value.length == meta.length && hit.value.mtime == meta.mtime
       then Checking(meta, window, hit.value.reader)
       else Dropping(meta, window))
    case Dropping(meta, window) =>
      (shelf.(blocks := Without(shelf.blocks, path)), Opening(meta, window))
    case Opening(meta, window) =>
      (shelf, match Open(h)
              case Ok(reader) => Keeping(meta, window, reader)
              case Err(e) => Forgetting(e))
    case Forgetting(e) =>
      (shelf.(metadata := Without(shelf.metadata, path)), Done(OpenFailed(e)))
    case Keeping(meta, window, reader) =>
      var kept := CachedReader(reader, meta.length, meta.mtime);
      (shelf.(blocks := InsertEntries(shelf.blocks, c.blocks, path, kept, 1, now)), Checking(meta, window, reader))
    case Checking(meta, window, reader) =>
      (shelf, if window.end > reader.length then Evicting(Shrunk) else Streaming(meta, window, reader))
    case Streaming(meta, window, reader) =>
      (shelf, if broken then Evicting(Broken(meta, window, reader)) else Done(Body(meta, window, reader)))
    case Evicting(outcome) =>
      (shelf.(blocks := Without(shelf.blocks, path)), Unlearning(outcome))
    case Unlearning(outcome) =>
      (shelf.(metadata := Without(shelf.metadata, path)), Done(outcome))
    case Done(_) => (shelf, phase)
  }

  // ----- Requests without interruption

  /** When each cache access of a request happens. */
  datatype Times = Times(asked: nat, probed: nat, stored: nat, located: nat, kept: nat) {
    function At(phase: Phase): nat {
      match phase
      case Asking => asked
      case Probing => probed
      case Storing(_) => stored
      case Absent => stored
      case Locating(_, _) => located
      case Keeping(_, _, _) => kept
      case _ => 0
    }
  }

  /** A request, the state of its path in HDFS, and what its environment does to it. */
  datatype Job = Job(config: Config, history: History, path: Bytes, request: Request, times: Times, broken: bool)

  /** The points at which a method hands over: metadata known, reader found, response out. */
  datatype Goal = HasMeta | HasReader | Responded | Finished {
    function Level(): nat {
      match this
      case HasMeta => 9
      case HasReader => 4
      case Responded => 3
      case Finished => 0
    }

    predicate Met(phase: Phase) {
      || phase.Done?
      || (this == HasMeta && phase.Known?)
      || (this == HasReader && phase.Checking?)
      || (this == Responded && phase.Streaming?)
    }
  }

  /** The uninterrupted run of a request from a phase until the goal is met. */
  function RunTo(job: Job, shelf: Shelf, phase: Phase, goal: Goal): (r: (Shelf, Phase))
    ensures goal.Met(r.1)
    decreases phase.Rank()
  {
    if goal.Met(phase) then (shelf, phase) else
      var (shelf', phase') := Advance(job.config, job.history, shelf, job.path, job.request, phase,
                                      job.times.At(phase), job.broken);
      RunTo(job, shelf', phase', goal)
  }

  /** The first step of a run. */
  lemma Step(job: Job, shelf: Shelf, phase: Phase, goal: Goal)
    requires !goal.Met(phase)
    ensures var (s, p) := Advance(job.config, job.history, shelf, job.path, job.request, phase, job.times.At(phase),
                                  job.broken);
            RunTo(job, shelf, phase, goal) == if goal.Met(p) then (s, p) else RunTo(job, s, p, goal)
  {
  }

  lemma Settled(job: Job, shelf: Shelf, phase: Phase, goal: Goal)
    requires goal.Met(phase)
    ensures RunTo(job, shelf, phase, goal) == (shelf, phase)
  {
  }

  /** A run may stop at a goal on its way. */
  lemma {:induction false} RunVia(job: Job, shelf: Shelf, phase: Phase, first: Goal, goal: Goal)
    requires first.Level() >= goal.Level() && (phase.Rank() >= first.Level() || phase.Rank() < Responded.Level())
    ensures var (s, p) := RunTo(job, shelf, phase, first);
            RunTo(job, shelf, phase, goal) == RunTo(job, s, p, goal)
    decreases phase.Rank()
  {
    if !first.Met(phase) {
      var (shelf', phase') := Advance(job.config, job.history, shelf, job.path, job.request, phase,
                                      job.times.At(phase), job.broken);
      RunVia(job, shelf', phase', first, goal);
    }
  }

  // ----- What is remembered

  /** Metadata read from HDFS answers for the path until it expires, whatever becomes of the
      file in the meantime. */
  lemma MetadataIsRemembered(job: Job, shelf: Shelf, later: Job)
    requires later.config == job.config && later.path == job.path
    requires Accepts(job.config.metadata, 1) && job.config.metadata.capacity >= 1
    requires GetValue(shelf.metadata, job.config.metadata, job.path, job.times.asked).None?
    requires GetValue(shelf.negative, job.config.negative, job.path, job.times.probed).None?
    requires Stat(job.history).Ok? && Elapsed(job.times.stored, later.times.asked) < job.config.metadata.ttl
    ensures var (s, p) := RunTo(job, shelf, Asking, HasMeta);
            p == Known(Stat(job.history).value) && RunTo(later, s, Asking, HasMeta).1 == p
  {
    hide RunTo, GetEntries, GetValue, InsertEntries, Stat;
    var c, meta := job.config, Stat(job.history).value;
    Step(job, shelf, Asking, HasMeta);
    var asked := shelf.(metadata := GetEntries(shelf.metadata, c.metadata, job.path, job.times.asked));
    Step(job, asked, Probing, HasMeta);
    var probed := asked.(negative := GetEntries(asked.negative, c.negative, job.path, job.times.probed));
    Step(job, probed, Stating, HasMeta);
    Step(job, probed, Storing(meta), HasMeta);
    InsertIsFound(probed.metadata, c.metadata, job.path, meta, 1, job.times.stored, later.times.asked);
    Step(later, RunTo(job, shelf, Asking, HasMeta).0, Asking, HasMeta);
  }

  /** What each of several requests for the same path finds, one after the other. */
  function Findings(shelf: Shelf, jobs: seq<Job>): seq<Phase>
    decreases |jobs|
  {
    if jobs == [] then [] else
      var (s, p) := RunTo(jobs[0], shelf, Asking, HasMeta);
      [p] + Findings(s, jobs[1..])
  }

  /** Remembered metadata answers every one of them until it expires, not only the next. */
  lemma {:induction false} MetadataAnswersAll(c: Config, path: Bytes, shelf: Shelf, jobs: seq<Job>, meta: FileMeta,
                                              end: nat)
    requires forall job | job in jobs :: job.config == c && job.path == path && job.times.asked <= end
    requires forall i, j | 0 <= i < j < |jobs| :: jobs[i].times.asked <= jobs[j].times.asked
    requires GetValue(shelf.metadata, c.metadata, path, end) == Some(meta)
    ensures forall p | p in Findings(shelf, jobs) :: p == Known(meta)
    decreases |jobs|
  {
    if jobs != [] {
      hide RunTo, GetEntries;
      var now := jobs[0].times.asked;
      assert jobs[0] in jobs;
      Step(jobs[0], shelf, Asking, HasMeta);
      var s := RunTo(jobs[0], shelf, Asking, HasMeta).0;
      GetChangesNoAnswer(shelf.metadata, c.metadata, path, now, path, end);
      assert forall job | job in jobs[1..] :: job in jobs;
      MetadataAnswersAll(c, path, s, jobs[1..], meta, end);
    }
  }

  lemma MissStays<V>(s: Entries<Bytes, V>, limits: Limits, k: Bytes, now: nat, later: nat)
    requires GetValue(s, limits, k, now).None?
    ensures GetValue(GetEntries(s, limits, k, now), limits, k, later).None?
  {
  }

  /** A path found missing stays missing until that is forgotten. */
  lemma MissingIsRemembered(job: Job, shelf: Shelf, later: Job)
    requires later.config == job.config && later.path == job.path
    requires Accepts(job.config.negative, 1) && job.config.negative.capacity >= 1
    requires GetValue(shelf.metadata, job.config.metadata, job.path, job.times.asked).None?
    requires GetValue(shelf.negative, job.config.negative, job.path, job.times.probed).None?
    requires Stat(job.history) == Err(FileNotFound)
              && Elapsed(job.times.stored, later.times.probed) < job.config.negative.ttl
    ensures var (s, p) := RunTo(job, shelf, Asking, HasMeta);
            p == Done(NoSuchKey) && RunTo(later, s, Asking, HasMeta).1 == p
  {
    hide RunTo, GetEntries, GetValue, InsertEntries, Stat;
    var c := job.config;
    Step(job, shelf, Asking, HasMeta);
    var asked := shelf.(metadata := GetEntries(shelf.metadata, c.metadata, job.path, job.times.asked));
    MissStays(shelf.metadata, c.metadata, job.path, job.times.asked, later.times.asked);
    Step(job, asked, Probing, HasMeta);
    var probed := asked.(negative := GetEntries(asked.negative, c.negative, job.path, job.times.probed));
    Step(job, probed, Stating, HasMeta);
    Step(job, probed, Absent, HasMeta);
    InsertIsFound(probed.negative, c.negative, job.path, (), 1, job.times.stored, later.times.probed);
    var known := RunTo(job, shelf, Asking, HasMeta).0;
    Step(later, known, Asking, HasMeta);
    Step(later, known.(metadata := GetEntries(known.metadata, c.metadata, job.path, later.times.asked)), Probing,
         HasMeta);
  }

  /** A block map serves every later GET of the same length and modification time, without
      asking HDFS again, until it expires. */
  lemma BlockMapIsReused(job: Job, shelf: Shelf, meta: FileMeta, window: Window, later: Job, meta': FileMeta,
                         window': Window)
    requires later.config == job.config && later.path == job.path
    requires Accepts(job.config.blocks, 1) && job.config.blocks.capacity >= 1
    requires GetValue(shelf.blocks, job.config.blocks, job.path, job.times.located).None? && Open(job.history).Ok?
    requires meta'.length == meta.length && meta'.mtime == meta.mtime
    requires Elapsed(job.times.kept, later.times.located) < job.config.blocks.ttl
    ensures var (s, p) := RunTo(job, shelf, Locating(meta, window), HasReader);
            && p == Checking(meta, window, Open(job.history).value)
            && RunTo(later, s, Locating(meta', window'), HasReader).1
                == Checking(meta', window', Open(job.history).value)
  {
    hide RunTo, GetEntries, GetValue, InsertEntries, Open, AdvanceMeta;
    var c, reader := job.config, Open(job.history).value;
    Step(job, shelf, Locating(meta, window), HasReader);
    var located := shelf.(blocks := GetEntries(shelf.blocks, c.blocks, job.path, job.times.located));
    OpeningRun(job, located, meta, window);
    InsertIsFound(located.blocks, c.blocks, job.path, CachedReader(reader, meta.length, meta.mtime), 1,
                  job.times.kept, later.times.located);
    Step(later, RunTo(job, shelf, Locating(meta, window), HasReader).0, Locating(meta', window'), HasReader);
  }

  /** A fresh block map is kept; when it cannot be had the metadata is dropped. */
  lemma OpeningRun(job: Job, shelf: Shelf, meta: FileMeta, window: Window)
    ensures Open(job.history).Ok? ==>
              var reader := Open(job.history).value;
              var kept := CachedReader(reader, meta.length, meta.mtime);
              RunTo(job, shelf, Opening(meta, window), HasReader) ==
                (Shelf(shelf.metadata, shelf.negative,
                       InsertEntries(shelf.blocks, job.config.blocks, job.path, kept, 1, job.times.kept)),
                 Checking(meta, window, reader))
    ensures Open(job.history).Err? ==>
              RunTo(job, shelf, Opening(meta, window), HasReader) ==
                (Shelf(Without(shelf.metadata, job.path), shelf.negative, shelf.blocks),
                 Done(OpenFailed(Open(job.history).error)))
  {
    hide RunTo, InsertEntries, Without, Open;
    Step(job, shelf, Opening(meta, window), HasReader);
    match Open(job.history)
    case Ok(reader) => Step(job, shelf, Keeping(meta, window, reader), HasReader);
    case Err(e) => Step(job, shelf, Forgetting(e), HasReader);
  }

  /** A stale block map and the metadata it was opened under go together. */
  lemma EvictBoth(job: Job, shelf: Shelf, outcome: Outcome, goal: Goal)
    ensures RunTo(job, shelf, Evicting(outcome), goal) ==
              (Shelf(Without(shelf.metadata, job.path), shelf.negative, Without(shelf.blocks, job.path)), Done(outcome))
  {
    hide RunTo, Without;
    Step(job, shelf, Evicting(outcome), goal);
    Step(job, shelf.(blocks := Without(shelf.blocks, job.path)), Unlearning(outcome), goal);
  }

  /** How a GET ends once it has a reader: a window past the reader's end is a shrunk file, a
      failing read a broken body, and both take the path out of the metadata and the block
      cache, where nothing else changes; otherwise there is a body and nothing changes. */
  lemma CheckedReaderEnds(job: Job, shelf: Shelf, meta: FileMeta, window: Window, reader: Reader, q: Bytes, later: nat)
    ensures var (s, p) := RunTo(job, shelf, Checking(meta, window, reader), Finished);
            var failed := window.end > reader.length || job.broken;
            && p == Done(if window.end > reader.length then Shrunk
                         else if job.broken then Broken(meta, window, reader) else Body(meta, window, reader))
            && s.negative == shelf.negative
            && GetValue(s.metadata, job.config.metadata, q, later)
                 == (if failed && q == job.path then None else GetValue(shelf.metadata, job.config.metadata, q, later))
            && GetValue(s.blocks, job.config.blocks, q, later)
                 == (if failed && q == job.path then None else GetValue(shelf.blocks, job.config.blocks, q, later))
  {
    hide RunTo, Without, GetValue;
    Step(job, shelf, Checking(meta, window, reader), Finished);
    RemoveAnswers(shelf.metadata, job.config.metadata, job.path, q, later);
    RemoveAnswers(shelf.blocks, job.config.blocks, job.path, q, later);
    if window.end > reader.length {
      EvictBoth(job, shelf, Shrunk, Finished);
    } else {
      Step(job, shelf, Streaming(meta, window, reader), Finished);
      if job.broken { EvictBoth(job, shelf, Broken(meta, window, reader), Finished); }
    }
  }

  // ----- The class

  /** The gateway's caches of metadata, of known missing paths and of block maps. */
  class HdfsGateway {
    const metadata: TtlCache<Bytes, FileMeta>
    const negative: TtlCache<Bytes, ()>
    const blocks: TtlCache<Bytes, CachedReader>

    ghost predicate Valid()
      reads this, metadata, negative, blocks
    {
      && metadata.Valid() && negative.Valid() && blocks.Valid()
      && (metadata as object) != negative && (negative as object) != blocks && (metadata as object) != blocks
    }

    ghost function State(): Shelf
      reads this, metadata, negative, blocks
    {
      Shelf(metadata.entries, negative.entries, blocks.entries)
    }

    ghost predicate Runs(job: Job) {
      job.config == Config(metadata.limits, negative.limits, blocks.limits)
    }

    constructor (config: Config)
      requires config.metadata.capacity >= 1 && config.negative.capacity >= 1 && config.blocks.capacity >= 1
      ensures Valid() && State() == Shelf([], [], [])
      ensures Config(metadata.limits, negative.limits, blocks.limits) == config
      ensures fresh(metadata) && fresh(negative) && fresh(blocks)
    {
      metadata := new TtlCache(config.metadata.capacity, config.metadata.ttl, config.metadata.maxWeight);
      negative := new TtlCache(config.negative.capacity, config.negative.ttl, config.negative.maxWeight);
      blocks := new TtlCache(config.blocks.capacity, config.blocks.ttl, config.blocks.maxWeight);
    }

    /** `file_meta`: the metadata of a path through the caches. */
    method GetFileMeta(job: Job) returns (r: Result<FileMeta, Outcome>)
      requires Valid() && Runs(job)
      modifies metadata, negative
      ensures Valid()
      ensures (State(), if r.Ok? then Known(r.value) else Done(r.error)) == RunTo(job, old(State()), Asking, HasMeta)
    {
      hide RunTo, GetEntries, GetValue, InsertEntries, Stat, TtlCache.Valid;
      Step(job, State(), Asking, HasMeta);
      var cached := metadata.Get(job.path, job.times.asked);
      if cached.Some? {
        return Ok(cached.value);
      }
      Step(job, State(), Probing, HasMeta);
      var missing := negative.Get(job.path, job.times.probed);
      if missing.Some? {
        return Err(NoSuchKey);
      }
      Step(job, State(), Stating, HasMeta);
      match Stat(job.history) {
        case Ok(meta) =>
          Step(job, State(), Storing(meta), HasMeta);
          metadata.Insert(job.path, meta, 1, job.times.stored);
          r := Ok(meta);
        case Err(e) =>
          if e.FileNotFound? {
            Step(job, State(), Absent, HasMeta);
            negative.Insert(job.path, (), 1, job.times.stored);
            r := Err(NoSuchKey);
          } else {
            r := Err(StatFailed(e));
          }
      }
    }

    /** `open_reader`: the block map of a file, reused only for the same length and mtime. */
    method OpenReader(job: Job, meta: FileMeta, window: Window) returns (r: Result<Reader, Outcome>)
      requires Valid() && Runs(job)
      modifies metadata, blocks
      ensures Valid()
      ensures (State(), if r.Ok? then Checking(meta, window, r.value) else Done(r.error))
           == RunTo(job, old(State()), Locating(meta, window), HasReader)
    {
      hide RunTo, GetEntries, GetValue, InsertEntries, Without, Open, TtlCache.Valid;
      Step(job, State(), Locating(meta, window), HasReader);
      var cached := blocks.Get(job.path, job.times.located);
      if cached.Some? {
        if cached.value.length == meta.length && cached.value.mtime == meta.mtime {
          return Ok(cached.value.reader);
        }
        Step(job, State(), Dropping(meta, window), HasReader);
        blocks.Remove(job.path);
      }
      OpeningRun(job, State(), meta, window);
      match Open(job.history) {
        case Ok(reader) =>
          blocks.Insert(job.path, CachedReader(reader, meta.length, meta.mtime), 1, job.times.kept);
          r := Ok(reader);
        case Err(e) =>
          metadata.Remove(job.path);
          r := Err(OpenFailed(e));
      }
    }

    /** `head_object`. */
    method HeadObject(job: Job) returns (r: Outcome)
      requires Valid() && Runs(job) && job.request == Head
      modifies metadata, negative
      ensures Valid()
      ensures (State(), Done(r)) == RunTo(job, old(State()), Asking, Finished)
    {
      hide GetEntries, GetValue, InsertEntries, Without, Stat, TtlCache.Valid;
      RunVia(job, State(), Asking, HasMeta, Finished);
      var meta := GetFileMeta(job);
      match meta {
        case Err(outcome) =>
          r := outcome;
        case Ok(m) =>
          Step(job, State(), Known(m), Finished);
          if m.isdir {
            r := NoSuchKey;
          } else {
            r := Headers(m);
          }
      }
    }

    /** `get_object` up to its response: an error, or headers with a body to stream. */
    method GetObject(job: Job) returns (r: Result<(FileMeta, Window, Reader), Outcome>)
      requires Valid() && Runs(job) && job.request.Get?
      modifies metadata, negative, blocks
      ensures Valid()
      ensures (State(), if r.Ok? then Streaming(r.value.0, r.value.1, r.value.2) else Done(r.error))
           == RunTo(job, old(State()), Asking, Responded)
    {
      hide RunTo, GetEntries, GetValue, InsertEntries, Without, Stat, Open, WindowOf, TtlCache.Valid;
      RunVia(job, State(), Asking, HasMeta, Responded);
      var status := GetFileMeta(job);
      if status.Err? {
        Settled(job, State(), Done(status.error), Responded);
        return Err(status.error);
      }
      var meta := status.value;
      Step(job, State(), Known(meta), Responded);
      if meta.isdir {
        return Err(NoSuchKey);
      }
      var resolved := WindowOf(meta.length, job.request.range);
      if resolved.None? {
        return Err(InvalidRange);
      }
      var window := resolved.value;
      RunVia(job, State(), Locating(meta, window), HasReader, Responded);
      var found := OpenReader(job, meta, window);
      if found.Err? {
        Settled(job, State(), Done(found.error), Responded);
        return Err(found.error);
      }
      var reader := found.value;
      Step(job, State(), Checking(meta, window, reader), Responded);
      if window.end > reader.length {
        EvictBoth(job, State(), Shrunk, Responded);
        blocks.Remove(job.path);
        metadata.Remove(job.path);
        return Err(Shrunk);
      }
      r := Ok((meta, window, reader));
    }

    /** The reads of a GET body: each failing one evicts what it came from. */
    method FinishBody(job: Job, meta: FileMeta, window: Window, reader: Reader, failures: nat) returns (r: Outcome)
      requires Valid() && Runs(job) && (job.broken <==> failures > 0)
      modifies metadata, blocks
      ensures Valid()
      ensures (State(), Done(r)) == RunTo(job, old(State()), Streaming(meta, window, reader), Finished)
    {
      hide RunTo, Without, TtlCache.Valid;
      ghost var before := State();
      Step(job, before, Streaming(meta, window, reader), Finished);
      r := if failures > 0 then Broken(meta, window, reader) else Body(meta, window, reader);
      if failures > 0 { EvictBoth(job, before, r, Finished); }
      WithoutAgain(before.metadata, job.path);
      WithoutAgain(before.blocks, job.path);
      for i := 0 to failures
        invariant Valid()
        invariant State() == if i == 0 then before else
                               Shelf(Without(before.metadata, job.path), before.negative,
                                     Without(before.blocks, job.path))
      {
        blocks.Remove(job.path);
        metadata.Remove(job.path);
      }
    }
  }
}
