/** Requests served one after the other, with external changes between them: a request
    that fails on stale state clears everything the gateway held about its path. */
module SequentialRuns {
  import opened ByteStrings
  import opened Cache
  import opened HdfsHistory
  import opened Gateway
  import opened Interleaving

  datatype Site = Site(hdfs: Hdfs, shelf: Shelf)

  /** A request served to its end, or an external change. */
  datatype Act =
    | Serve(path: Bytes, request: Request, times: Times, broken: bool)
    | Change(path: Bytes, state: PathState)

  function JobOf(c: Config, site: Site, act: Act): Job
    requires act.Serve?
  {
    Job(c, HistoryOf(site.hdfs, act.path), act.path, act.request, act.times, act.broken)
  }

  function OutcomeOf(c: Config, site: Site, act: Act): Outcome
    requires act.Serve?
  {
    RunTo(JobOf(c, site, act), site.shelf, Asking, Finished).1.outcome
  }

  function Perform(c: Config, site: Site, act: Act): Site {
    match act
    case Serve(_, _, _, _) => site.(shelf := RunTo(JobOf(c, site, act), site.shelf, Asking, Finished).0)
    case Change(path, state) => site.(hdfs := Written(site.hdfs, path, state))
  }

  function PerformAll(c: Config, site: Site, acts: seq<Act>): Site {
    if acts == [] then site else Perform(c, PerformAll(c, site, acts[..|acts| - 1]), acts[|acts| - 1])
  }

  // ----- Known and missing exclude each other

  ghost predicate Lacks<K, V>(s: Entries<K, V>, k: K) {
    forall e | e in s :: e.key != k
  }

  /** No path is in both the metadata and the negative cache; a disabled cache is empty. */
  ghost predicate Orderly(c: Config, shelf: Shelf) {
    && (forall p :: Lacks(shelf.metadata, p) || Lacks(shelf.negative, p))
    && (c.metadata.Enabled() || shelf.metadata == [])
    && (c.negative.Enabled() || shelf.negative == [])
    && (c.blocks.Enabled() || shelf.blocks == [])
  }

  /** The failures that come from stale state. */
  predicate Stale(outcome: Outcome) {
    outcome.OpenFailed? || outcome.Shrunk? || outcome.Broken?
  }

  /** What the caches lack when the only request in flight stands at `phase`. */
  ghost predicate LacksAt(shelf: Shelf, p: Bytes, phase: Phase) {
    match phase
    case Asking => true
    case Probing => Lacks(shelf.metadata, p)
    case Stating => Lacks(shelf.metadata, p) && Lacks(shelf.negative, p)
    case Storing(_) => Lacks(shelf.metadata, p) && Lacks(shelf.negative, p)
    case Absent => Lacks(shelf.metadata, p) && Lacks(shelf.negative, p)
    case Opening(_, _) => Lacks(shelf.negative, p) && Lacks(shelf.blocks, p)
    case Forgetting(_) => Lacks(shelf.negative, p) && Lacks(shelf.blocks, p)
    case Unlearning(_) => Lacks(shelf.negative, p) && Lacks(shelf.blocks, p)
    case Done(outcome) => Stale(outcome) ==>
        Lacks(shelf.metadata, p) && Lacks(shelf.negative, p) && Lacks(shelf.blocks, p)
    case _ => Lacks(shelf.negative, p)
  }

  lemma GetLacks<K, V>(s: Entries<K, V>, limits: Limits, k: K, now: nat)
    requires limits.Enabled() || s == []
    ensures GetValue(s, limits, k, now).None? ==> Lacks(GetEntries(s, limits, k, now), k)
    ensures GetValue(s, limits, k, now).Some? ==> !Lacks(s, k)
    ensures limits.Enabled() || GetEntries(s, limits, k, now) == []
    ensures forall p | Lacks(s, p) :: Lacks(GetEntries(s, limits, k, now), p)
  {
  }

  lemma InsertLacks<K, V>(s: Entries<K, V>, limits: Limits, k: K, v: V, now: nat)
    requires limits.Enabled() || s == []
    ensures limits.Enabled() || InsertEntries(s, limits, k, v, 1, now) == []
    ensures forall p | p != k && Lacks(s, p) :: Lacks(InsertEntries(s, limits, k, v, 1, now), p)
  {
    forall p, e | p != k && Lacks(s, p) && e in InsertEntries(s, limits, k, v, 1, now)
      ensures e.key != p
    {
      EntriesComeFrom(s, limits, k, v, 1, now, e);
    }
  }

  lemma RemoveLacks<K, V>(s: Entries<K, V>, k: K)
    ensures Lacks(Without(s, k), k)
    ensures forall p | Lacks(s, p) :: Lacks(Without(s, k), p)
    ensures s == [] ==> Without(s, k) == []
  {
  }

  lemma MetaKeepsOrder(c: Config, h: History, shelf: Shelf, p: Bytes, phase: Phase, now: nat)
    requires AsksMeta(phase) && Orderly(c, shelf) && LacksAt(shelf, p, phase)
    ensures var (shelf', next) := AdvanceMeta(c, h, shelf, p, phase, now);
            Orderly(c, shelf') && LacksAt(shelf', p, next)
  {
    hide GetEntries, GetValue, InsertEntries, Stat, Lacks;
    match phase
    case Asking => GetLacks(shelf.metadata, c.metadata, p, now);
    case Probing => GetLacks(shelf.negative, c.negative, p, now);
    case Storing(meta) => InsertLacks(shelf.metadata, c.metadata, p, meta, now);
    case Absent => InsertLacks(shelf.negative, c.negative, p, (), now);
    case _ =>
  }

  lemma AdvanceKeepsOrder(c: Config, h: History, shelf: Shelf, p: Bytes, request: Request, phase: Phase, now: nat,
                          broken: bool)
    requires Orderly(c, shelf) && LacksAt(shelf, p, phase)
    ensures var (shelf', next) := Advance(c, h, shelf, p, request, phase, now, broken);
            Orderly(c, shelf') && LacksAt(shelf', p, next)
  {
    hide AdvanceMeta, GetEntries, GetValue, InsertEntries, Without, Open, Lacks;
    match phase
    case Locating(_, _) => GetLacks(shelf.blocks, c.blocks, p, now);
    case Keeping(meta, _, reader) =>
      InsertLacks(shelf.blocks, c.blocks, p, CachedReader(reader, meta.length, meta.mtime), now);
    case Dropping(_, _) => RemoveLacks(shelf.blocks, p);
    case Evicting(_) => RemoveLacks(shelf.blocks, p);
    case Forgetting(_) => RemoveLacks(shelf.metadata, p);
    case Unlearning(_) => RemoveLacks(shelf.metadata, p);
    case _ => if AsksMeta(phase) { MetaKeepsOrder(c, h, shelf, p, phase, now); }
  }

  lemma {:induction false} RunKeepsOrder(job: Job, shelf: Shelf, phase: Phase, goal: Goal)
    requires Orderly(job.config, shelf) && LacksAt(shelf, job.path, phase)
    ensures var (shelf', next) := RunTo(job, shelf, phase, goal);
            Orderly(job.config, shelf') && LacksAt(shelf', job.path, next)
    decreases phase.Rank()
  {
    hide Advance, Orderly, LacksAt;
    if !goal.Met(phase) {
      var (shelf', next) := Advance(job.config, job.history, shelf, job.path, job.request, phase,
                                    job.times.At(phase), job.broken);
      AdvanceKeepsOrder(job.config, job.history, shelf, job.path, job.request, phase, job.times.At(phase), job.broken);
      RunKeepsOrder(job, shelf', next, goal);
    }
  }

  lemma {:induction false} ActsKeepOrder(c: Config, hdfs: Hdfs, acts: seq<Act>)
    ensures Orderly(c, PerformAll(c, Site(hdfs, Shelf([], [], [])), acts).shelf)
  {
    if acts != [] {
      var before, act := PerformAll(c, Site(hdfs, Shelf([], [], [])), acts[..|acts| - 1]), acts[|acts| - 1];
      ActsKeepOrder(c, hdfs, acts[..|acts| - 1]);
      if act.Serve? {
        RunKeepsOrder(JobOf(c, before, act), before.shelf, Asking, Finished);
      }
    }
  }

  // ----- Fresh caches stay fresh

  /** HDFS is healthy for a request: its body breaks only if it is not of the current version. */
  ghost predicate SoundFrom(job: Job, shelf: Shelf, phase: Phase) {
    Sound(job.history, RunTo(job, shelf, phase, Responded).1, job.broken)
  }

  ghost predicate SoundAct(c: Config, site: Site, act: Act) {
    act.Serve? ==> SoundFrom(JobOf(c, site, act), site.shelf, Asking)
  }

  lemma {:induction false} RunStaysFresh(job: Job, shelf: Shelf, phase: Phase, p: Bytes, h: History)
    requires ShelfHolds(shelf, p, Current(h))
    requires job.path == p ==> job.history == h && FreshPhase(h, job.request, phase)
    ensures var (shelf', next) := RunTo(job, shelf, phase, Finished);
            && ShelfHolds(shelf', p, Current(h))
            && (job.path == p ==> FreshPhase(h, job.request, next))
            && (job.path == p && Whole(phase) && SoundFrom(job, shelf, phase) ==> Whole(next))
    decreases phase.Rank()
  {
    hide Advance, ShelfHolds, Current, FreshPhase;
    if !Finished.Met(phase) {
      var now := job.times.At(phase);
      var (shelf', next) := Advance(job.config, job.history, shelf, job.path, job.request, phase, now, job.broken);
      if job.path == p {
        AdvanceKeepsFresh(job.config, h, shelf, p, job.request, phase, now, job.broken);
        FreshBrings(h, job.request, phase);
      }
      AdvanceKeepsShelf(job.config, job.history, shelf, job.path, job.request, phase, now, job.broken, p, Current(h));
      RunStaysFresh(job, shelf', next, p, h);
    }
  }

  predicate Unchanged(acts: seq<Act>, p: Bytes) {
    forall act | act in acts && act.Change? :: act.path != p
  }

  lemma {:induction false} ActsStayFresh(c: Config, site: Site, acts: seq<Act>, p: Bytes)
    requires ShelfHolds(site.shelf, p, Current(HistoryOf(site.hdfs, p)))
    requires Unchanged(acts, p)
    ensures var after := PerformAll(c, site, acts);
            && HistoryOf(after.hdfs, p) == HistoryOf(site.hdfs, p)
            && ShelfHolds(after.shelf, p, Current(HistoryOf(site.hdfs, p)))
  {
    hide ShelfHolds, Current, RunTo;
    if acts != [] {
      var before, act := PerformAll(c, site, acts[..|acts| - 1]), acts[|acts| - 1];
      assert act in acts;
      ActsStayFresh(c, site, acts[..|acts| - 1], p);
      if act.Serve? {
        RunStaysFresh(JobOf(c, before, act), before.shelf, Asking, p, HistoryOf(site.hdfs, p));
      }
    }
  }

  lemma NothingHeld(shelf: Shelf, p: Bytes, claim: Claim)
    requires Lacks(shelf.metadata, p) && Lacks(shelf.negative, p) && Lacks(shelf.blocks, p)
    ensures ShelfHolds(shelf, p, claim)
  {
  }

  /** One failed GET per external change: after any run, a request that fails on a stale
      open, a shrunk file or a broken stream is followed, whatever else is served, changed
      elsewhere or fails to be read, by answers from the current state until the path
      changes again; only a failing read of the current version itself can cut one off. */
  lemma OneFailurePerChange(c: Config, hdfs: Hdfs, before: seq<Act>, failing: Act, between: seq<Act>, next: Act)
    requires failing.Serve? && next.Serve? && next.path == failing.path && Unchanged(between, failing.path)
    requires Stale(OutcomeOf(c, PerformAll(c, Site(hdfs, Shelf([], [], [])), before), failing))
    ensures var site := PerformAll(c, Site(hdfs, Shelf([], [], [])), before);
            var last := PerformAll(c, Perform(c, site, failing), between);
            var h := HistoryOf(site.hdfs, next.path);
            && HistoryOf(last.hdfs, next.path) == h
            && Ends(h, next.request, OutcomeOf(c, last, next))
            && (SoundAct(c, last, next) ==> OutcomeOf(c, last, next) == Direct(h, next.request))
  {
    hide RunTo, Current, ShelfHolds;
    var p, site := failing.path, PerformAll(c, Site(hdfs, Shelf([], [], [])), before);
    ActsKeepOrder(c, hdfs, before);
    RunKeepsOrder(JobOf(c, site, failing), site.shelf, Asking, Finished);
    var failed := Perform(c, site, failing);
    NothingHeld(failed.shelf, p, Current(HistoryOf(failed.hdfs, p)));
    ActsStayFresh(c, failed, between, p);
    var last := PerformAll(c, failed, between);
    RunStaysFresh(JobOf(c, last, next), last.shelf, Asking, p, HistoryOf(site.hdfs, p));
  }
}
