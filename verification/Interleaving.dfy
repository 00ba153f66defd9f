/** Requests in flight at the same time over one set of caches, while external writers
    change HDFS: what holds in every interleaving. */
module Interleaving {
  import opened ByteStrings
  import opened Namespaces
  import opened Ranges
  import opened Cache
  import opened HdfsHistory
  import opened Gateway

  datatype Proc = Proc(path: Bytes, request: Request, phase: Phase)

  datatype Machine = Machine(hdfs: Hdfs, shelf: Shelf, procs: map<nat, Proc>)

  /** A request arrives, or takes one step at some time; a body that has failed fails again;
      or an external writer changes a path. */
  datatype Event =
    | Arrive(pid: nat, path: Bytes, request: Request)
    | Tick(pid: nat, now: nat, broken: bool)
    | FailAgain(pid: nat)
    | Write(path: Bytes, state: PathState)

  function Happen(c: Config, m: Machine, e: Event): Machine {
    match e
    case Arrive(pid, path, request) =>
      if pid in m.procs then m else m.(procs := m.procs[pid := Proc(path, request, Asking)])
    case Tick(pid, now, broken) =>
      if pid !in m.procs then m else
        var proc := m.procs[pid];
        var (shelf, phase) := Advance(c, HistoryOf(m.hdfs, proc.path), m.shelf, proc.path, proc.request, proc.phase,
                                      now, broken);
        m.(shelf := shelf, procs := m.procs[pid := proc.(phase := phase)])
    case FailAgain(pid) =>
      if pid in m.procs && m.procs[pid].phase.Done? && m.procs[pid].phase.outcome.Broken?
      then m.(procs := m.procs[pid := m.procs[pid].(phase := Evicting(m.procs[pid].phase.outcome))])
      else m
    case Write(path, state) =>
      m.(hdfs := Written(m.hdfs, path, state))
  }

  /** Nothing cached, nothing in flight. */
  function Start(hdfs: Hdfs): Machine {
    Machine(hdfs, Shelf([], [], []), map[])
  }

  /** The state after a run. */
  function After(c: Config, m: Machine, events: seq<Event>): Machine {
    if events == [] then m else Happen(c, After(c, m, events[..|events| - 1]), events[|events| - 1])
  }

  // ----- What the entries of one key hold

  ghost predicate Holds<K, V>(s: Entries<K, V>, k: K, ok: V -> bool) {
    forall e | e in s && e.key == k :: ok(e.value)
  }

  lemma HoldsAfterGet<K, V>(s: Entries<K, V>, limits: Limits, q: K, now: nat, k: K, ok: V -> bool)
    requires Holds(s, k, ok)
    ensures Holds(GetEntries(s, limits, q, now), k, ok)
    ensures q == k && GetValue(s, limits, q, now).Some? ==> ok(GetValue(s, limits, q, now).value)
  {
  }

  lemma HoldsAfterInsert<K, V>(s: Entries<K, V>, limits: Limits, q: K, v: V, now: nat, k: K, ok: V -> bool)
    requires Holds(s, k, ok) && (q == k ==> ok(v))
    ensures Holds(InsertEntries(s, limits, q, v, 1, now), k, ok)
  {
    forall e | e in InsertEntries(s, limits, q, v, 1, now) && e.key == k
      ensures ok(e.value)
    {
      EntriesComeFrom(s, limits, q, v, 1, now, e);
    }
  }

  lemma HoldsAfterRemove<K, V>(s: Entries<K, V>, q: K, k: K, ok: V -> bool)
    requires Holds(s, k, ok)
    ensures Holds(Without(s, q), k, ok)
  {
  }

  /** A condition on what the three caches hold about one path. */
  datatype Claim = Claim(meta: FileMeta -> bool, missing: bool, reader: CachedReader -> bool)

  ghost predicate ShelfHolds(shelf: Shelf, p: Bytes, claim: Claim) {
    && Holds(shelf.metadata, p, claim.meta)
    && Holds(shelf.negative, p, (_: ()) => claim.missing)
    && Holds(shelf.blocks, p, claim.reader)
  }

  /** The values a step of a request may put into the caches. */
  ghost predicate Brings(phase: Phase, claim: Claim) {
    && (phase.Storing? ==> claim.meta(phase.meta))
    && (phase.Absent? ==> claim.missing)
    && (phase.Keeping? ==> claim.reader(CachedReader(phase.reader, phase.meta.length, phase.meta.mtime)))
  }

  /** What a step takes out of the caches satisfies the condition. */
  ghost predicate Takes(phase: Phase, next: Phase, claim: Claim) {
    && (phase.Asking? && next.Known? ==> claim.meta(next.meta))
    && (phase.Probing? && next.Done? ==> claim.missing)
    && (phase.Locating? && next.Checking? ==>
        claim.reader(CachedReader(next.reader, phase.meta.length, phase.meta.mtime)))
    && (phase.Locating? && next.Dropping? ==>
          exists r: CachedReader :: claim.reader(r) && !(r.length == phase.meta.length && r.mtime == phase.meta.mtime))
  }

  /** A step of any request keeps a condition on a path, if it brings only what meets it. */
  lemma AdvanceKeepsShelf(c: Config, h: History, shelf: Shelf, q: Bytes, request: Request, phase: Phase, now: nat,
                          broken: bool, p: Bytes, claim: Claim)
    requires ShelfHolds(shelf, p, claim)
    requires q == p ==> Brings(phase, claim)
    ensures var (shelf', next) := Advance(c, h, shelf, q, request, phase, now, broken);
            ShelfHolds(shelf', p, claim) && (q == p ==> Takes(phase, next, claim))
  {
    hide GetEntries, GetValue, InsertEntries, Without, Stat, Open, Decide;
    var missing := (_: ()) => claim.missing;
    match phase
    case Asking => HoldsAfterGet(shelf.metadata, c.metadata, q, now, p, claim.meta);
    case Probing => HoldsAfterGet(shelf.negative, c.negative, q, now, p, missing);
    case Storing(meta) => HoldsAfterInsert(shelf.metadata, c.metadata, q, meta, now, p, claim.meta);
    case Absent => HoldsAfterInsert(shelf.negative, c.negative, q, (), now, p, missing);
    case Locating(meta, window) => HoldsAfterGet(shelf.blocks, c.blocks, q, now, p, claim.reader);
    case Keeping(meta, window, reader) =>
      HoldsAfterInsert(shelf.blocks, c.blocks, q, CachedReader(reader, meta.length, meta.mtime), now, p, claim.reader);
    case Dropping(_, _) => HoldsAfterRemove(shelf.blocks, q, p, claim.reader);
    case Evicting(_) => HoldsAfterRemove(shelf.blocks, q, p, claim.reader);
    case Forgetting(_) => HoldsAfterRemove(shelf.metadata, q, p, claim.meta);
    case Unlearning(_) => HoldsAfterRemove(shelf.metadata, q, p, claim.meta);
    case _ =>
  }

  // ----- Caches that agree with the current state of a path

  ghost function Current(h: History): Claim {
    Claim((m: FileMeta) => Stat(h) == Ok(m),
          Stat(h) == Err(FileNotFound),
          (r: CachedReader) => Open(h) == Ok(r.reader) && Stat(h).Ok? && r.length == Stat(h).value.length
              && r.mtime == Stat(h).value.mtime)
  }

  /** A GET that has its metadata and window from the current state. */
  ghost predicate Resolved(h: History, request: Request, meta: FileMeta, window: Window) {
    && Stat(h) == Ok(meta) && !meta.isdir
    && request.Get? && WindowOf(meta.length, request.range) == Some(window)
  }

  /** The answer without caches, or that answer with its body cut off by a failing read. */
  ghost predicate Ends(h: History, request: Request, outcome: Outcome) {
    || outcome == Direct(h, request)
    || (outcome.Broken? && Direct(h, request) == Body(outcome.meta, outcome.window, outcome.reader))
  }

  /** A request whose every finding so far is the current state's. */
  ghost predicate FreshPhase(h: History, request: Request, phase: Phase) {
    match phase
    case Asking => true
    case Probing => true
    case Stating => true
    case Storing(meta) => Stat(h) == Ok(meta)
    case Known(meta) => Stat(h) == Ok(meta)
    case Absent => Stat(h) == Err(FileNotFound)
    case Locating(meta, window) => Resolved(h, request, meta, window)
    case Opening(meta, window) => Resolved(h, request, meta, window)
    case Keeping(meta, window, reader) => Resolved(h, request, meta, window) && Open(h) == Ok(reader)
    case Checking(meta, window, reader) => Resolved(h, request, meta, window) && Open(h) == Ok(reader)
    case Streaming(meta, window, reader) => Resolved(h, request, meta, window) && Open(h) == Ok(reader)
    case Forgetting(e) => Direct(h, request) == OpenFailed(e)
    case Dropping(_, _) => false
    case Evicting(outcome) => outcome.Broken? && Ends(h, request, outcome)
    case Unlearning(outcome) => outcome.Broken? && Ends(h, request, outcome)
    case Done(outcome) => Ends(h, request, outcome)
  }

  /** HDFS is healthy: a stream breaks only if its version is not the current one. */
  ghost predicate Sound(h: History, phase: Phase, broken: bool) {
    phase.Streaming? && broken ==> Open(h) != Ok(phase.reader)
  }

  /** No read of the request's body has failed. */
  ghost predicate Whole(phase: Phase) {
    !phase.Evicting? && !phase.Unlearning? && !(phase.Done? && phase.outcome.Broken?)
  }

  lemma AdvanceKeepsFresh(c: Config, h: History, shelf: Shelf, path: Bytes, request: Request, phase: Phase, now: nat,
                          broken: bool)
    requires ShelfHolds(shelf, path, Current(h)) && FreshPhase(h, request, phase)
    ensures var next := Advance(c, h, shelf, path, request, phase, now, broken).1;
            FreshPhase(h, request, next) && (Sound(h, phase, broken) && Whole(phase) ==> Whole(next))
  {
    hide GetEntries, GetValue, InsertEntries, Without, ShelfHolds, WindowOf, Brings;
    FreshBrings(h, request, phase);
    AdvanceKeepsShelf(c, h, shelf, path, request, phase, now, broken, path, Current(h));
  }

  /** Everything the gateway holds or has found out about a path is its current state. */
  ghost predicate FreshMachine(m: Machine, p: Bytes) {
    var h := HistoryOf(m.hdfs, p);
    && ShelfHolds(m.shelf, p, Current(h))
    && forall pid | pid in m.procs && m.procs[pid].path == p :: FreshPhase(h, m.procs[pid].request, m.procs[pid].phase)
  }

  /** No request for the path has had a failing read. */
  ghost predicate WholeMachine(m: Machine, p: Bytes) {
    forall pid | pid in m.procs && m.procs[pid].path == p :: Whole(m.procs[pid].phase)
  }

  /** HDFS is healthy in a step of a request for the path. */
  ghost predicate SoundEvent(m: Machine, e: Event, p: Bytes) {
    e.Tick? && e.pid in m.procs && m.procs[e.pid].path == p ==>
      Sound(HistoryOf(m.hdfs, p), m.procs[e.pid].phase, e.broken)
  }

  ghost predicate SoundRun(c: Config, m: Machine, events: seq<Event>, p: Bytes) {
    events == [] || (SoundRun(c, m, events[..|events| - 1], p)
                     && SoundEvent(After(c, m, events[..|events| - 1]), events[|events| - 1], p))
  }

  /** No external change of the path happens. */
  predicate Undisturbed(events: seq<Event>, p: Bytes) {
    forall e | e in events && e.Write? :: e.path != p
  }

  lemma HappenKeepsFresh(c: Config, m: Machine, e: Event, p: Bytes)
    requires FreshMachine(m, p) && Undisturbed([e], p)
    ensures FreshMachine(Happen(c, m, e), p)
    ensures HistoryOf(Happen(c, m, e).hdfs, p) == HistoryOf(m.hdfs, p)
    ensures WholeMachine(m, p) && SoundEvent(m, e, p) ==> WholeMachine(Happen(c, m, e), p)
  {
    hide Advance, Current, ShelfHolds, FreshPhase, Sound;
    assert e in [e];
    if e.Tick? && e.pid in m.procs {
      var proc, h := m.procs[e.pid], HistoryOf(m.hdfs, p);
      var hq := HistoryOf(m.hdfs, proc.path);
      if proc.path == p {
        AdvanceKeepsFresh(c, h, m.shelf, p, proc.request, proc.phase, e.now, e.broken);
        FreshBrings(h, proc.request, proc.phase);
      }
      AdvanceKeepsShelf(c, hq, m.shelf, proc.path, proc.request, proc.phase, e.now, e.broken, p, Current(h));
    } else if e.Arrive? {
      FreshStart(HistoryOf(m.hdfs, p), e.request);
    } else if e.FailAgain? && e.pid in m.procs && m.procs[e.pid].path == p {
      FreshFailsAgain(HistoryOf(m.hdfs, p), m.procs[e.pid].request, m.procs[e.pid].phase);
    }
  }

  lemma FreshFailsAgain(h: History, request: Request, phase: Phase)
    requires FreshPhase(h, request, phase)
    ensures phase.Done? && phase.outcome.Broken? ==> FreshPhase(h, request, Evicting(phase.outcome))
  {
  }

  lemma FreshStart(h: History, request: Request)
    ensures FreshPhase(h, request, Asking)
  {
  }

  lemma FreshBrings(h: History, request: Request, phase: Phase)
    requires FreshPhase(h, request, phase)
    ensures Brings(phase, Current(h))
  {
  }

  lemma {:induction false} RunKeepsFresh(c: Config, m: Machine, events: seq<Event>, p: Bytes)
    requires FreshMachine(m, p) && Undisturbed(events, p)
    ensures FreshMachine(After(c, m, events), p)
    ensures HistoryOf(After(c, m, events).hdfs, p) == HistoryOf(m.hdfs, p)
    ensures WholeMachine(m, p) && SoundRun(c, m, events, p) ==> WholeMachine(After(c, m, events), p)
  {
    hide FreshMachine, WholeMachine, SoundEvent, Happen;
    if events != [] {
      var n := |events| - 1;
      RunKeepsFresh(c, m, events[..n], p);
      assert events[n] in events;
      HappenKeepsFresh(c, After(c, m, events[..n]), events[n], p);
    }
  }

  /** Cache transparency: as long as no external writer touches a path, every HEAD and GET
      of it, however they interleave with each other and with anything else, ends as it
      would without caches, for all limits, lifetimes, clocks and evictions; whatever reads
      fail, a GET whose own body fails has the headers, window and version of that answer,
      and in a run where HDFS is healthy for the path there is none. */
  lemma CachesAreTransparent(c: Config, hdfs: Hdfs, events: seq<Event>, p: Bytes, pid: nat)
    requires Undisturbed(events, p)
    ensures var procs := After(c, Start(hdfs), events).procs;
            pid in procs && procs[pid].path == p && procs[pid].phase.Done? ==>
              && Ends(HistoryOf(hdfs, p), procs[pid].request, procs[pid].phase.outcome)
              && (SoundRun(c, Start(hdfs), events, p) ==>
                    procs[pid].phase.outcome == Direct(HistoryOf(hdfs, p), procs[pid].request))
  {
    hide Happen, SoundEvent, FreshMachine, SoundRun, Undisturbed, Direct;
    NothingIsFresh(hdfs, p);
    RunKeepsFresh(c, Start(hdfs), events, p);
    var m := After(c, Start(hdfs), events);
    if pid in m.procs && m.procs[pid].path == p && m.procs[pid].phase.Done? {
      FreshEnds(m, p, pid);
    }
  }

  lemma NothingIsFresh(hdfs: Hdfs, p: Bytes)
    ensures FreshMachine(Start(hdfs), p)
  {
  }

  lemma FreshEnds(m: Machine, p: Bytes, pid: nat)
    requires FreshMachine(m, p) && pid in m.procs && m.procs[pid].path == p && m.procs[pid].phase.Done?
    ensures Ends(HistoryOf(m.hdfs, p), m.procs[pid].request, m.procs[pid].phase.outcome)
  {
    hide ShelfHolds, Direct;
    assert FreshPhase(HistoryOf(m.hdfs, p), m.procs[pid].request, m.procs[pid].phase);
  }

  // ----- Uninterrupted runs are runs

  lemma {:induction false} AfterConcat(c: Config, m: Machine, first: seq<Event>, second: seq<Event>)
    ensures After(c, m, first + second) == After(c, After(c, m, first), second)
  {
    hide Happen;
    if second == [] {
      assert first + second == first;
    } else {
      var n := |second| - 1;
      assert (first + second)[..|first| + n] == first + second[..n];
      AfterConcat(c, m, first, second[..n]);
    }
  }

  /** What the gateway's methods do for a request is one of its interleaved runs. */
  lemma {:induction false} RunToIsRun(m: Machine, pid: nat, job: Job, goal: Goal) returns (events: seq<Event>)
    requires pid in m.procs && m.procs[pid].path == job.path && m.procs[pid].request == job.request
    requires HistoryOf(m.hdfs, job.path) == job.history
    ensures var (shelf, phase) := RunTo(job, m.shelf, m.procs[pid].phase, goal);
            After(job.config, m, events) == m.(shelf := shelf, procs := m.procs[pid := m.procs[pid].(phase := phase)])
    decreases m.procs[pid].phase.Rank()
  {
    hide Advance;
    var proc := m.procs[pid];
    if goal.Met(proc.phase) {
      events := [];
      assert proc.(phase := proc.phase) == proc;
      assert m.procs[pid := proc] == m.procs;
    } else {
      var tick := Tick(pid, job.times.At(proc.phase), job.broken);
      var next := Happen(job.config, m, tick);
      var rest := RunToIsRun(next, pid, job, goal);
      events := [tick] + rest;
      assert After(job.config, m, [tick]) == next by { assert [tick][..0] == []; }
      AfterConcat(job.config, m, [tick], rest);
    }
  }

  function Writes(p: Bytes, states: seq<PathState>): seq<Event> {
    if states == [] then [] else Writes(p, states[..|states| - 1]) + [Write(p, states[|states| - 1])]
  }

  lemma WriteAppends(c: Config, m: Machine, p: Bytes, state: PathState)
    ensures var r := Happen(c, m, Write(p, state));
            r.shelf == m.shelf && r.procs == m.procs && HistoryOf(r.hdfs, p) == HistoryOf(m.hdfs, p) + [state]
  {
  }

  lemma OneMore(h: History, states: seq<PathState>)
    requires states != []
    ensures h + states == (h + states[..|states| - 1]) + [states[|states| - 1]]
  {
  }

  lemma {:induction false} WritesAppend(c: Config, m: Machine, p: Bytes, states: seq<PathState>)
    ensures var r := After(c, m, Writes(p, states));
            r.shelf == m.shelf && r.procs == m.procs && HistoryOf(r.hdfs, p) == HistoryOf(m.hdfs, p) + states
  {
    if states == [] {
      assert HistoryOf(m.hdfs, p) + [] == HistoryOf(m.hdfs, p);
    } else {
      hide Happen, HistoryOf, After;
      var init, last := states[..|states| - 1], states[|states| - 1];
      WritesAppend(c, m, p, init);
      AfterOneMore(c, m, Writes(p, init), Write(p, last));
      WriteAppends(c, After(c, m, Writes(p, init)), p, last);
      OneMore(HistoryOf(m.hdfs, p), states);
    }
  }

  lemma AfterOneMore(c: Config, m: Machine, events: seq<Event>, e: Event)
    ensures After(c, m, events + [e]) == Happen(c, After(c, m, events), e)
  {
    hide Happen;
    assert (events + [e])[..|events|] == events;
  }
}
