/** The bounded, weighted LRU cache with a time to live: its entries as a recency-ordered
    sequence, the operations as functions on it, and the class that updates it in place. */
module Cache {
  import opened ByteStrings

  datatype Slot<K, V> = Slot(key: K, value: V, inserted: nat, weight: nat)

  /** Capacity in entries (at least one), time to live (zero disables) and weight budget. */
  datatype Limits = Limits(capacity: nat, ttl: nat, maxWeight: nat) {
    predicate Enabled() { ttl != 0 }
  }

  /** Entries, most recently used first. */
  type Entries<K, V> = seq<Slot<K, V>>

  // ----- The operations on entries

  function Lookup<K(==), V>(s: Entries<K, V>, k: K): (r: Option<Slot<K, V>>)
    ensures r.Some? ==> r.value in s && r.value.key == k
    ensures r.None? ==> forall e | e in s :: e.key != k
  {
    if s == [] then None
    else if s[0].key == k then Some(s[0])
    else Lookup(s[1..], k)
  }

  function Without<K(==), V>(s: Entries<K, V>, k: K): (r: Entries<K, V>)
    ensures |r| <= |s|
    ensures forall e | e in r :: e in s && e.key != k
  {
    if s == [] then []
    else if s[0].key == k then Without(s[1..], k)
    else [s[0]] + Without(s[1..], k)
  }

  function Weight<K, V>(s: Entries<K, V>): nat {
    if s == [] then 0 else Weight(s[..|s| - 1]) + s[|s| - 1].weight
  }

  predicate Fits<K, V>(s: Entries<K, V>, limits: Limits) {
    |s| <= limits.capacity && Weight(s) <= limits.maxWeight
  }

  /** Drops least recently used entries until the rest fits. */
  function Fitting<K, V>(s: Entries<K, V>, limits: Limits): (r: Entries<K, V>)
    ensures r <= s
    ensures Fits(r, limits)
  {
    if s == [] || Fits(s, limits) then s else
      PrefixOfInit(s, Fitting(s[..|s| - 1], limits));
      Fitting(s[..|s| - 1], limits)
  }

  lemma PrefixOfInit<T>(s: seq<T>, r: seq<T>)
    requires s != []
    ensures r <= s[..|s| - 1] ==> r <= s
  {
  }

  function Elapsed(since: nat, now: nat): nat {
    if now >= since then now - since else 0
  }

  predicate Expired<K, V>(e: Slot<K, V>, limits: Limits, now: nat) {
    Elapsed(e.inserted, now) >= limits.ttl
  }

  function GetEntries<K(==), V>(s: Entries<K, V>, limits: Limits, k: K, now: nat): Entries<K, V> {
    if !limits.Enabled() then s else
      match Lookup(s, k)
      case None => s
      case Some(e) => if Expired(e, limits, now) then Without(s, k) else [e] + Without(s, k)
  }

  function GetValue<K(==), V>(s: Entries<K, V>, limits: Limits, k: K, now: nat): Option<V> {
    if !limits.Enabled() then None else
      match Lookup(s, k)
      case None => None
      case Some(e) => if Expired(e, limits, now) then None else Some(e.value)
  }

  predicate Accepts(limits: Limits, weight: nat) {
    limits.Enabled() && weight <= limits.maxWeight
  }

  function InsertEntries<K(==), V>(s: Entries<K, V>, limits: Limits, k: K, v: V, weight: nat, now: nat): Entries<K, V> {
    if Accepts(limits, weight)
    then Fitting([Slot(k, v, now, weight)] + Without(s, k), limits)
    else s
  }

  ghost predicate DistinctKeys<K, V>(s: Entries<K, V>) {
    forall i, j | 0 <= i < j < |s| :: s[i].key != s[j].key
  }

  ghost predicate EntriesOk<K, V>(s: Entries<K, V>, limits: Limits) {
    DistinctKeys(s) && Fits(s, limits)
  }

  // ----- Weights and evictions

  lemma {:induction false} WeightConcat<K, V>(a: Entries<K, V>, b: Entries<K, V>)
    ensures Weight(a + b) == Weight(a) + Weight(b)
  {
    if b == [] {
      assert a + b == a;
    } else {
      assert (a + b)[..|a| + |b| - 1] == a + b[..|b| - 1];
      WeightConcat(a, b[..|b| - 1]);
    }
  }

  lemma TailDistinct<K, V>(s: Entries<K, V>)
    requires DistinctKeys(s) && s != []
    ensures DistinctKeys(s[1..]) && forall e | e in s[1..] :: e.key != s[0].key
  {
    var rest := s[1..];
    forall e | e in rest
      ensures e.key != s[0].key
    {
      var i :| 0 <= i < |rest| && rest[i] == e;
      assert s[i + 1] == e;
    }
  }

  lemma ConsDistinct<K, V>(e: Slot<K, V>, s: Entries<K, V>)
    requires DistinctKeys(s) && forall x | x in s :: x.key != e.key
    ensures DistinctKeys([e] + s)
  {
  }

  lemma WithoutStep<K, V>(s: Entries<K, V>, k: K)
    requires s != []
    ensures s == [s[0]] + s[1..]
    ensures Without(s, k) == if s[0].key == k then Without(s[1..], k) else [s[0]] + Without(s[1..], k)
    ensures Lookup(s, k) == if s[0].key == k then Some(s[0]) else Lookup(s[1..], k)
  {
  }

  lemma {:induction false} WithoutDistinct<K, V>(s: Entries<K, V>, k: K)
    requires DistinctKeys(s)
    ensures DistinctKeys(Without(s, k))
    ensures Lookup(s, k).None? ==> Without(s, k) == s
  {
    if s != [] {
      hide DistinctKeys, Without, Lookup;
      WithoutStep(s, k);
      TailDistinct(s);
      WithoutDistinct(s[1..], k);
      if s[0].key != k { ConsDistinct(s[0], Without(s[1..], k)); }
    }
  }

  lemma WeightCons<K, V>(e: Slot<K, V>, s: Entries<K, V>)
    ensures Weight([e] + s) == e.weight + Weight(s)
  {
    WeightConcat([e], s);
    assert [e][..0] == [];
  }

  /** What popping a key does to keys and weight. */
  lemma {:induction false} WithoutWeighs<K, V>(s: Entries<K, V>, k: K)
    requires DistinctKeys(s)
    ensures DistinctKeys(Without(s, k))
    ensures match Lookup(s, k)
            case None => Without(s, k) == s
            case Some(e) => Weight(Without(s, k)) + e.weight == Weight(s) && |Without(s, k)| == |s| - 1
  {
    WithoutDistinct(s, k);
    if s != [] {
      hide DistinctKeys, Weight, Without, Lookup;
      WithoutStep(s, k);
      WeightCons(s[0], s[1..]);
      TailDistinct(s);
      if s[0].key == k {
        NotThere(s[1..], k);
      } else {
        WithoutWeighs(s[1..], k);
        WeightCons(s[0], Without(s[1..], k));
      }
    }
  }

  lemma {:induction false} NotThere<K, V>(s: Entries<K, V>, k: K)
    requires forall e | e in s :: e.key != k
    ensures Without(s, k) == s && Lookup(s, k).None?
  {
    if s != [] {
      assert s[0] in s && forall e | e in s[1..] :: e in s;
      NotThere(s[1..], k);
    }
  }

  /** The survivors are the longest most recently used run that fits both bounds. */
  lemma {:induction false} FittingIsLongest<K, V>(s: Entries<K, V>, limits: Limits)
    ensures forall run: Entries<K, V> | run <= s && Fits(run, limits) :: run <= Fitting(s, limits)
  {
    if s != [] && !Fits(s, limits) {
      FittingIsLongest(s[..|s| - 1], limits);
      forall run: Entries<K, V> | run <= s && Fits(run, limits)
        ensures run <= s[..|s| - 1]
      {
        assert run == s || |run| < |s|;
      }
    }
  }

  /** An accepted insert is stored, and is the most recent entry. */
  lemma InsertSurvives<K, V>(s: Entries<K, V>, limits: Limits, k: K, v: V, weight: nat, now: nat)
    requires Accepts(limits, weight) && limits.capacity >= 1
    ensures var r := InsertEntries(s, limits, k, v, weight, now);
            r != [] && r[0] == Slot(k, v, now, weight)
  {
    var slot := Slot(k, v, now, weight);
    var all := [slot] + Without(s, k);
    var run := [slot];
    assert Weight([slot]) == weight by { assert [slot][..0] == []; }
    FittingIsLongest(all, limits);
    assert run <= all && Fits(run, limits);
    assert run <= Fitting(all, limits);
  }

  /** ... and found until it is as old as the time to live. */
  lemma InsertIsFound<K, V>(s: Entries<K, V>, limits: Limits, k: K, v: V, weight: nat, now: nat, later: nat)
    requires Accepts(limits, weight) && limits.capacity >= 1
    ensures GetValue(InsertEntries(s, limits, k, v, weight, now), limits, k, later)
         == if Elapsed(now, later) < limits.ttl then Some(v) else None
  {
    InsertSurvives(s, limits, k, v, weight, now);
  }

  lemma GetKeepsOk<K, V>(s: Entries<K, V>, limits: Limits, k: K, now: nat)
    requires EntriesOk(s, limits)
    ensures EntriesOk(GetEntries(s, limits, k, now), limits)
  {
    hide Lookup, Without, Weight, DistinctKeys;
    WithoutWeighs(s, k);
    if Lookup(s, k).Some? {
      var e := Lookup(s, k).value;
      WeightCons(e, Without(s, k));
      ConsDistinct(e, Without(s, k));
    }
  }

  lemma InsertKeepsOk<K, V>(s: Entries<K, V>, limits: Limits, k: K, v: V, weight: nat, now: nat)
    requires EntriesOk(s, limits)
    ensures EntriesOk(InsertEntries(s, limits, k, v, weight, now), limits)
  {
    WithoutWeighs(s, k);
    var all := [Slot(k, v, now, weight)] + Without(s, k);
    assert DistinctKeys(all);
  }

  lemma RemoveKeepsOk<K, V>(s: Entries<K, V>, limits: Limits, k: K)
    requires EntriesOk(s, limits)
    ensures EntriesOk(Without(s, k), limits)
  {
    WithoutWeighs(s, k);
  }

  /** Where the entries after an operation come from. */
  lemma EntriesComeFrom<K, V>(s: Entries<K, V>, limits: Limits, k: K, v: V, weight: nat, now: nat, e: Slot<K, V>)
    ensures e in GetEntries(s, limits, k, now) ==>
              e in s && (e.key == k ==> GetValue(s, limits, k, now) == Some(e.value) || !limits.Enabled())
    ensures e in InsertEntries(s, limits, k, v, weight, now) ==>
              if e.key == k && Accepts(limits, weight) then e == Slot(k, v, now, weight) else e in s
    ensures GetValue(s, limits, k, now).Some? ==>
              exists x | x in s ::
                  x.key == k && x.value == GetValue(s, limits, k, now).value && !Expired(x, limits, now)
  {
    if e in InsertEntries(s, limits, k, v, weight, now) && Accepts(limits, weight) {
      var slot := Slot(k, v, now, weight);
      var all := [slot] + Without(s, k);
      var kept := Fitting(all, limits);
      var i :| 0 <= i < |kept| && kept[i] == e;
      assert all[i] == e;
      assert e == slot || e in Without(s, k);
    }
  }

  lemma WithoutAgain<K, V>(s: Entries<K, V>, k: K)
    ensures Without(Without(s, k), k) == Without(s, k)
  {
    NotThere(Without(s, k), k);
  }

  lemma GetBringsNothing<K, V>(s: Entries<K, V>, limits: Limits, k: K, now: nat)
    ensures forall e | e in GetEntries(s, limits, k, now) :: e in s
  {
  }

  // ----- What an operation does to later answers

  lemma {:induction false} LookupWithout<K, V>(s: Entries<K, V>, k: K, q: K)
    ensures Lookup(Without(s, k), q) == if q == k then None else Lookup(s, q)
  {
    if s != [] {
      hide Without, Lookup;
      WithoutStep(s, k);
      WithoutStep(s, q);
      LookupWithout(s[1..], k, q);
      if s[0].key != k { LookupCons(s[0], Without(s[1..], k), q); }
    } else {
      LookupNothing<K, V>(q);
    }
  }

  lemma LookupNothing<K, V>(q: K)
    ensures Lookup<K, V>([], q) == None && Without<K, V>([], q) == []
  {
  }

  lemma LookupCons<K, V>(e: Slot<K, V>, s: Entries<K, V>, q: K)
    ensures Lookup([e] + s, q) == if q == e.key then Some(e) else Lookup(s, q)
  {
    assert ([e] + s)[1..] == s;
  }

  /** Asking for one key changes no later answer, for that key or any other. */
  lemma GetChangesNoAnswer<K, V>(s: Entries<K, V>, limits: Limits, k: K, now: nat, q: K, later: nat)
    requires now <= later
    ensures GetValue(GetEntries(s, limits, k, now), limits, q, later) == GetValue(s, limits, q, later)
  {
    hide Without, Lookup;
    LookupWithout(s, k, q);
    match Lookup(s, k)
    case None =>
    case Some(e) => LookupCons(e, Without(s, k), q);
  }

  /** Removing a key makes it missing, and changes the answer for no other key. */
  lemma RemoveAnswers<K, V>(s: Entries<K, V>, limits: Limits, k: K, q: K, later: nat)
    ensures GetValue(Without(s, k), limits, q, later) == if q == k then None else GetValue(s, limits, q, later)
  {
    LookupWithout(s, k, q);
  }

  /** An insert is taken exactly when the cache has a lifetime and the weight is at most the
      whole budget; then the key has the new value until that is as old as the lifetime, and
      otherwise no answer changes. */
  lemma InsertAnswers<K, V>(s: Entries<K, V>, limits: Limits, k: K, v: V, weight: nat, now: nat, q: K, later: nat)
    requires limits.capacity >= 1
    ensures var r := InsertEntries(s, limits, k, v, weight, now);
            if limits.ttl > 0 && weight <= limits.maxWeight then
              && r != [] && GetValue(r, limits, k, later) == (if later < now + limits.ttl then Some(v) else None)
              && (q != k && GetValue(r, limits, q, later).Some? ==>
                    GetValue(r, limits, q, later) == GetValue(s, limits, q, later))
            else GetValue(r, limits, q, later) == GetValue(s, limits, q, later)
  {
    if limits.ttl > 0 && weight <= limits.maxWeight {
      InsertSurvives(s, limits, k, v, weight, now);
      InsertIsFound(s, limits, k, v, weight, now, later);
      var slot := Slot(k, v, now, weight);
      var all := [slot] + Without(s, k);
      LookupPrefix(Fitting(all, limits), all, q);
      LookupCons(slot, Without(s, k), q);
      LookupWithout(s, k, q);
    }
  }

  lemma {:induction false} LookupPrefix<K, V>(r: Entries<K, V>, s: Entries<K, V>, q: K)
    requires r <= s
    ensures Lookup(r, q).Some? ==> Lookup(r, q) == Lookup(s, q)
  {
    if r != [] { LookupPrefix(r[1..], s[1..], q); }
  }

  // ----- The width of the weight

  /** What the weight counter, a `usize` in the source, holds when an accepted entry has
      been added and before the eviction loop: the popped entry of the key and, at capacity,
      the least recent one are gone. */
  function Peak<K(==), V>(s: Entries<K, V>, limits: Limits, k: K, weight: nat): nat {
    var others := Without(s, k);
    weight + Weight(if others != [] && |others| == limits.capacity then others[..|others| - 1] else others)
  }

  /** One entry of the full budget and the insert of another reach twice the budget. */
  lemma PeakReaches<K, V>(limits: Limits, k: K, other: K, v: V)
    requires limits.capacity >= 2 && k != other
    ensures EntriesOk([Slot(other, v, 0, limits.maxWeight)], limits)
    ensures Peak([Slot(other, v, 0, limits.maxWeight)], limits, k, limits.maxWeight) == 2 * limits.maxWeight
  {
    var slot := Slot(other, v, 0, limits.maxWeight);
    var s := [slot];
    WithoutOther(slot, k);
    assert s[..0] == [] && s[|s| - 1] == slot;
    assert Weight(s) == limits.maxWeight;
  }

  lemma WithoutOther<K, V>(slot: Slot<K, V>, k: K)
    requires slot.key != k
    ensures Without([slot], k) == [slot]
  {
    assert [slot][1..] == [];
  }

  lemma PeakWithin<K, V>(s: Entries<K, V>, limits: Limits, k: K, weight: nat)
    requires EntriesOk(s, limits) && weight <= limits.maxWeight && limits.capacity >= 1
    ensures Peak(s, limits, k, weight) <= if limits.capacity == 1 then limits.maxWeight else 2 * limits.maxWeight
  {
    WithoutWeighs(s, k);
    var others := Without(s, k);
    if others != [] && |others| == limits.capacity {
      assert Weight(others) == Weight(others[..|others| - 1]) + others[|others| - 1].weight;
    }
  }

  ghost predicate NeverWraps<K(!new), V(!new)>(limits: Limits) {
    forall s: Entries<K, V>, k: K, weight: nat | EntriesOk(s, limits) && weight <= limits.maxWeight ::
      Peak(s, limits, k, weight) <= USIZE_MAX
  }

  /** The counter wraps in no state exactly when the budget is at most half its range, or the
      cache holds a single entry and the budget fits. */
  lemma NeverWrapsIff<K(!new), V(!new)>(limits: Limits, k: K, other: K, v: V)
    requires limits.capacity >= 1 && k != other
    ensures NeverWraps<K, V>(limits) <==>
              (if limits.capacity == 1 then limits.maxWeight else 2 * limits.maxWeight) <= USIZE_MAX
  {
    if limits.capacity >= 2 {
      PeakReaches(limits, k, other, v);
    } else {
      var none: Entries<K, V> := [];
      assert EntriesOk(none, limits) && Peak(none, limits, k, limits.maxWeight) == limits.maxWeight;
    }
    forall s: Entries<K, V>, key: K, weight: nat | EntriesOk(s, limits) && weight <= limits.maxWeight
      ensures Peak(s, limits, key, weight) <= if limits.capacity == 1 then limits.maxWeight else 2 * limits.maxWeight
    {
      PeakWithin(s, limits, key, weight);
    }
  }

  // ----- Runs

  datatype Op<K, V> = Get(key: K, now: nat) | Insert(key: K, value: V, weight: nat, now: nat) | Remove(key: K)

  function Apply<K(==), V>(s: Entries<K, V>, limits: Limits, op: Op<K, V>): Entries<K, V> {
    match op
    case Get(k, now) => GetEntries(s, limits, k, now)
    case Insert(k, v, w, now) => InsertEntries(s, limits, k, v, w, now)
    case Remove(k) => Without(s, k)
  }

  /** The entries after a run of operations on an empty cache. */
  function Run<K(==), V>(limits: Limits, ops: seq<Op<K, V>>): Entries<K, V> {
    if ops == [] then [] else Apply(Run(limits, ops[..|ops| - 1]), limits, ops[|ops| - 1])
  }

  /** The timestamped map the cache stands for: the latest accepted insert of the key that
      was not removed since. */
  function Latest<K(==), V>(limits: Limits, ops: seq<Op<K, V>>, k: K): Option<(V, nat)> {
    if ops == [] then None else
      var before := Latest(limits, ops[..|ops| - 1], k);
      match ops[|ops| - 1]
      case Get(_, _) => before
      case Insert(k', v, w, now) => if k' == k && Accepts(limits, w) then Some((v, now)) else before
      case Remove(k') => if k' == k then None else before
  }

  /** Over every run the entries hold what the map holds, distinct and within bounds. */
  lemma {:induction false} RunRefines<K, V>(limits: Limits, ops: seq<Op<K, V>>)
    ensures EntriesOk(Run(limits, ops), limits)
    ensures forall e | e in Run(limits, ops) :: Latest(limits, ops, e.key) == Some((e.value, e.inserted))
  {
    if ops == [] {
      assert Weight<K, V>([]) == 0;
    } else {
      var before, op := Run(limits, ops[..|ops| - 1]), ops[|ops| - 1];
      RunRefines(limits, ops[..|ops| - 1]);
      match op {
        case Get(k, now) =>
          GetKeepsOk(before, limits, k, now);
        case Insert(k, v, w, now) =>
          InsertKeepsOk(before, limits, k, v, w, now);
          forall e | e in Run(limits, ops)
            ensures Latest(limits, ops, e.key) == Some((e.value, e.inserted))
          {
            EntriesComeFrom(before, limits, k, v, w, now, e);
          }
        case Remove(k) =>
          RemoveKeepsOk(before, limits, k);
      }
    }
  }

  /** When the key was last asked for or accepted: the number of operations up to then. */
  function LastUse<K(==), V>(limits: Limits, ops: seq<Op<K, V>>, k: K): (r: nat)
    ensures r <= |ops|
  {
    if ops == [] then 0 else
      var op := ops[|ops| - 1];
      if op.key == k && (op.Get? || (op.Insert? && Accepts(limits, op.weight))) then |ops|
      else LastUse(limits, ops[..|ops| - 1], k)
  }

  ghost predicate ByLastUse<K, V>(limits: Limits, ops: seq<Op<K, V>>, s: Entries<K, V>) {
    forall i, j | 0 <= i < j < |s| :: LastUse(limits, ops, s[i].key) > LastUse(limits, ops, s[j].key)
  }

  lemma {:induction false} WithoutByLastUse<K, V>(limits: Limits, ops: seq<Op<K, V>>, s: Entries<K, V>, k: K)
    requires ByLastUse(limits, ops, s)
    ensures ByLastUse(limits, ops, Without(s, k))
  {
    if s != [] {
      WithoutByLastUse(limits, ops, s[1..], k);
      forall e | e in Without(s[1..], k)
        ensures LastUse(limits, ops, s[0].key) > LastUse(limits, ops, e.key)
      {
        assert e in s[1..];
      }
    }
  }

  lemma OthersLastUse<K, V>(limits: Limits, ops: seq<Op<K, V>>, op: Op<K, V>, k: K)
    requires k != op.key
    ensures LastUse(limits, ops + [op], k) == LastUse(limits, ops, k)
  {
    assert (ops + [op])[..|ops|] == ops;
  }

  /** An operation does not reorder the entries of other keys. */
  lemma OthersByLastUse<K, V>(limits: Limits, ops: seq<Op<K, V>>, op: Op<K, V>, s: Entries<K, V>)
    requires ByLastUse(limits, ops, s)
    ensures ByLastUse(limits, ops + [op], Without(s, op.key))
    ensures forall e | e in Without(s, op.key) :: LastUse(limits, ops + [op], e.key) <= |ops|
  {
    hide LastUse, Without;
    var r := Without(s, op.key);
    WithoutByLastUse(limits, ops, s, op.key);
    forall e | e in r
      ensures LastUse(limits, ops + [op], e.key) == LastUse(limits, ops, e.key)
    {
      OthersLastUse(limits, ops, op, e.key);
    }
    assert forall i | 0 <= i < |r| :: r[i] in r;
  }

  lemma FrontByLastUse<K, V>(limits: Limits, ops: seq<Op<K, V>>, e: Slot<K, V>, s: Entries<K, V>)
    requires ByLastUse(limits, ops, s) && forall x | x in s :: LastUse(limits, ops, x.key) < LastUse(limits, ops, e.key)
    ensures ByLastUse(limits, ops, [e] + s)
  {
    hide LastUse;
  }

  lemma PrefixByLastUse<K, V>(limits: Limits, ops: seq<Op<K, V>>, r: Entries<K, V>, s: Entries<K, V>)
    requires ByLastUse(limits, ops, s) && r <= s
    ensures ByLastUse(limits, ops, r)
  {
    hide LastUse;
  }

  lemma NothingUsed<K, V>(limits: Limits)
    ensures ByLastUse<K, V>(limits, [], [])
  {
  }

  lemma {:induction false} DisabledIsEmpty<K, V>(limits: Limits, ops: seq<Op<K, V>>)
    requires !limits.Enabled()
    ensures Run(limits, ops) == []
    ensures ByLastUse(limits, ops, [])
  {
    if ops != [] { DisabledIsEmpty(limits, ops[..|ops| - 1]); }
  }

  lemma RejectedLastUse<K, V>(limits: Limits, ops: seq<Op<K, V>>, op: Op<K, V>, s: Entries<K, V>)
    requires ByLastUse(limits, ops, s) && op.Insert? && !Accepts(limits, op.weight)
    ensures ByLastUse(limits, ops + [op], s)
  {
    assert (ops + [op])[..|ops|] == ops;
    forall k
      ensures LastUse(limits, ops + [op], k) == LastUse(limits, ops, k)
    {
    }
  }

  /** The entries stand in the order of their last use, so what eviction drops is the least
      recently used. */
  lemma {:induction false} RunIsByLastUse<K, V>(limits: Limits, ops: seq<Op<K, V>>)
    ensures ByLastUse(limits, ops, Run(limits, ops))
  {
    hide Without, Fitting, Accepts, Expired, DistinctKeys, ByLastUse;
    if ops == [] {
      assert ByLastUse(limits, ops, Run(limits, ops)) by { NothingUsed<K, V>(limits); }
    } else {
      var init, op := ops[..|ops| - 1], ops[|ops| - 1];
      var s := Run(limits, init);
      var others := Without(s, op.key);
      RunIsByLastUse(limits, init);
      RunRefines(limits, init);
      WithoutDistinct(s, op.key);
      assert init + [op] == ops;
      OthersByLastUse(limits, init, op, s);
      match op {
        case Get(k, now) =>
          if Lookup(s, k).Some? && !Expired(Lookup(s, k).value, limits, now) && limits.Enabled() {
            FrontByLastUse(limits, ops, Lookup(s, k).value, others);
          } else if !limits.Enabled() {
            DisabledIsEmpty(limits, init);
          }
        case Insert(k, v, w, now) =>
          var slot := Slot(k, v, now, w);
          if Accepts(limits, w) {
            FrontByLastUse(limits, ops, slot, others);
            PrefixByLastUse(limits, ops, Run(limits, ops), [slot] + others);
          } else {
            RejectedLastUse(limits, init, op, s);
          }
        case Remove(_) =>
      }
    }
  }

  /** A hit returns the latest accepted insert, not removed since and younger than the
      time to live. */
  lemma HitIsLatest<K, V>(limits: Limits, ops: seq<Op<K, V>>, k: K, now: nat)
    ensures GetValue(Run(limits, ops), limits, k, now).Some? ==>
              && Latest(limits, ops, k).Some?
              && Latest(limits, ops, k).value.0 == GetValue(Run(limits, ops), limits, k, now).value
              && Elapsed(Latest(limits, ops, k).value.1, now) < limits.ttl
  {
    RunRefines(limits, ops);
  }

  /** The operation leaves an entry alone: it is on another key, or it asks for the entry's
      key while the entry is alive, or it is an insert that is not taken. */
  predicate Harmless<K(==), V>(limits: Limits, op: Op<K, V>, e: Slot<K, V>) {
    || op.key != e.key
    || (op.Get? && (limits.ttl == 0 || Elapsed(e.inserted, op.now) < limits.ttl))
    || (op.Insert? && !(limits.ttl > 0 && op.weight <= limits.maxWeight))
  }

  /** The entry is still there, and at most so much was added. */
  ghost predicate Stays<K, V>(s: Entries<K, V>, r: Entries<K, V>, e: Slot<K, V>, added: nat, weight: nat) {
    e in r && |r| <= |s| + added && Weight(r) <= Weight(s) + weight
  }

  lemma {:induction false} LookupIs<K, V>(s: Entries<K, V>, e: Slot<K, V>)
    requires DistinctKeys(s) && e in s
    ensures Lookup(s, e.key) == Some(e)
  {
    var found := Lookup(s, e.key).value;
    var i :| 0 <= i < |s| && s[i] == e;
    var j :| 0 <= j < |s| && s[j] == found;
    assert i == j;
  }

  lemma GetStays<K, V>(limits: Limits, s: Entries<K, V>, k: K, now: nat, e: Slot<K, V>)
    requires DistinctKeys(s) && e in s
    requires k != e.key || limits.ttl == 0 || Elapsed(e.inserted, now) < limits.ttl
    ensures Stays(s, GetEntries(s, limits, k, now), e, 0, 0)
  {
    hide Without, Lookup, Weight, DistinctKeys;
    WithoutWeighs(s, k);
    if k == e.key { LookupIs(s, e); } else { WithoutKeeps(s, k, e); }
    match Lookup(s, k)
    case None =>
    case Some(found) => WeightCons(found, Without(s, k));
  }

  lemma InsertStays<K, V>(limits: Limits, s: Entries<K, V>, k: K, v: V, w: nat, now: nat, e: Slot<K, V>)
    requires DistinctKeys(s) && e in s && k != e.key
    requires |s| < limits.capacity && Weight(s) + w <= limits.maxWeight
    ensures Stays(s, InsertEntries(s, limits, k, v, w, now), e, 1, w)
  {
    hide Without, Lookup, Weight, DistinctKeys;
    WithoutWeighs(s, k);
    WithoutKeeps(s, k, e);
    WeightCons(Slot(k, v, now, w), Without(s, k));
  }

  /** One harmless operation, within the bounds, keeps an entry. */
  lemma StepKeepsEntry<K, V>(limits: Limits, s: Entries<K, V>, op: Op<K, V>, e: Slot<K, V>)
    requires EntriesOk(s, limits) && e in s && Harmless(limits, op, e)
    requires |s| + AddedCount(limits, op) <= limits.capacity && Weight(s) + AddedWeight(limits, op) <= limits.maxWeight
    ensures EntriesOk(Apply(s, limits, op), limits)
    ensures Stays(s, Apply(s, limits, op), e, AddedCount(limits, op), AddedWeight(limits, op))
  {
    match op {
      case Get(k, now) =>
        GetKeepsOk(s, limits, k, now);
        GetStays(limits, s, k, now, e);
      case Insert(k, v, w, now) =>
        InsertKeepsOk(s, limits, k, v, w, now);
        if Accepts(limits, w) { InsertStays(limits, s, k, v, w, now, e); }
      case Remove(k) =>
        RemoveKeepsOk(s, limits, k);
        WithoutWeighs(s, k);
        WithoutKeeps(s, k, e);
    }
  }

  /** An entry stays as long as the operations in between neither replace, remove nor outlive
      it, nor push the total past a bound. */
  lemma {:induction false} EntryStays<K, V>(limits: Limits, s: Entries<K, V>, ops: seq<Op<K, V>>, e: Slot<K, V>)
    requires EntriesOk(s, limits) && e in s
    requires forall op | op in ops :: Harmless(limits, op, e)
    requires |s| + InsertedCount(limits, ops) <= limits.capacity
    requires Weight(s) + InsertedWeight(limits, ops) <= limits.maxWeight
    ensures var r := RunFrom(limits, s, ops);
            EntriesOk(r, limits) && Stays(s, r, e, InsertedCount(limits, ops), InsertedWeight(limits, ops))
  {
    if ops != [] {
      var n := |ops| - 1;
      EntryStays(limits, s, ops[..n], e);
      assert ops[n] in ops;
      StepKeepsEntry(limits, RunFrom(limits, s, ops[..n]), ops[n], e);
    }
  }

  /** So a remembered value answers every request until it expires. */
  lemma ValueStays<K, V>(limits: Limits, s: Entries<K, V>, ops: seq<Op<K, V>>, e: Slot<K, V>, now: nat)
    requires EntriesOk(s, limits) && e in s && limits.ttl > 0 && Elapsed(e.inserted, now) < limits.ttl
    requires forall op | op in ops :: Harmless(limits, op, e)
    requires |s| + InsertedCount(limits, ops) <= limits.capacity
    requires Weight(s) + InsertedWeight(limits, ops) <= limits.maxWeight
    ensures GetValue(RunFrom(limits, s, ops), limits, e.key, now) == Some(e.value)
  {
    EntryStays(limits, s, ops, e);
    LookupIs(RunFrom(limits, s, ops), e);
  }

  function RunFrom<K(==), V>(limits: Limits, s: Entries<K, V>, ops: seq<Op<K, V>>): Entries<K, V> {
    if ops == [] then s else Apply(RunFrom(limits, s, ops[..|ops| - 1]), limits, ops[|ops| - 1])
  }

  function AddedCount<K, V>(limits: Limits, op: Op<K, V>): nat {
    if op.Insert? && limits.ttl > 0 && op.weight <= limits.maxWeight then 1 else 0
  }

  function AddedWeight<K, V>(limits: Limits, op: Op<K, V>): nat {
    if AddedCount(limits, op) == 1 then op.weight else 0
  }

  function InsertedCount<K, V>(limits: Limits, ops: seq<Op<K, V>>): nat {
    if ops == [] then 0 else InsertedCount(limits, ops[..|ops| - 1]) + AddedCount(limits, ops[|ops| - 1])
  }

  function InsertedWeight<K, V>(limits: Limits, ops: seq<Op<K, V>>): nat {
    if ops == [] then 0 else InsertedWeight(limits, ops[..|ops| - 1]) + AddedWeight(limits, ops[|ops| - 1])
  }

  /** Bounds after every run: at most `capacity` entries, and their weights, added up, at
      most the budget. */
  lemma RunIsBounded<K, V>(limits: Limits, ops: seq<Op<K, V>>)
    ensures |Run(limits, ops)| <= limits.capacity
    ensures Weight(Run(limits, ops)) <= limits.maxWeight
  {
    RunRefines(limits, ops);
  }

  lemma {:induction false} WithoutKeeps<K, V>(s: Entries<K, V>, k: K, e: Slot<K, V>)
    requires e in s && e.key != k
    ensures e in Without(s, k)
  {
    if s[0] != e { WithoutKeeps(s[1..], k, e); }
  }

  // ----- The class

  class TtlCache<K(==), V> {
    var entries: Entries<K, V>
    var weight: nat
    const limits: Limits

    ghost predicate Valid()
      reads this
    {
      limits.capacity >= 1 && EntriesOk(entries, limits) && weight == Weight(entries)
    }

    constructor (capacity: nat, ttl: nat, maxWeight: nat)
      requires capacity >= 1
      ensures Valid() && entries == [] && limits == Limits(capacity, ttl, maxWeight)
    {
      entries := [];
      weight := 0;
      limits := Limits(capacity, ttl, maxWeight);
    }

    /** Fetches a live entry and makes it the most recent; an expired one is dropped. */
    method Get(key: K, now: nat) returns (r: Option<V>)
      requires Valid()
      modifies this
      ensures Valid()
      ensures entries == GetEntries(old(entries), limits, key, now)
      ensures r == GetValue(old(entries), limits, key, now)
    {
      if !limits.Enabled() {
        return None;
      }
      GetKeepsOk(entries, limits, key, now);
      WithoutWeighs(entries, key);
      match Lookup(entries, key) {
        case None =>
          r := None;
        case Some(entry) =>
          entries := Without(entries, key);
          if Expired(entry, limits, now) {
            weight := weight - entry.weight;
            r := None;
          } else {
            WeightCons(entry, entries);
            entries := [entry] + entries;
            r := Some(entry.value);
          }
      }
    }

    /** Stores a value unless it is heavier than the whole budget, and evicts from the
        least recently used end. */
    method Insert(key: K, value: V, w: nat, now: nat)
      requires Valid()
      modifies this
      ensures Valid()
      ensures entries == InsertEntries(old(entries), limits, key, value, w, now)
    {
      hide Lookup, Without, Weight, Fitting, DistinctKeys;
      if !limits.Enabled() || w > limits.maxWeight {
        return;
      }
      InsertKeepsOk(entries, limits, key, value, w, now);
      WithoutWeighs(entries, key);
      var previous := Lookup(entries, key);
      if previous.Some? {
        entries := Without(entries, key);
        weight := weight - previous.value.weight;
      }
      var slot := Slot(key, value, now, w);
      ghost var all := [slot] + entries;
      PushAtCapacity(entries, slot, limits);
      if |entries| == limits.capacity {
        var last := |entries| - 1;
        weight := weight - entries[last].weight;
        entries := entries[..last];
      }
      assert weight + w == Peak(old(entries), limits, key, w);
      entries := [slot] + entries;
      weight := weight + w;
      assert weight == Weight(entries) && Fitting(entries, limits) == Fitting(all, limits);
      EvictToBudget();
    }

    /** The eviction loop; the weight never exceeds twice the budget on the way. */
    method EvictToBudget()
      requires weight == Weight(entries) <= 2 * limits.maxWeight
      requires |entries| <= limits.capacity
      modifies this
      ensures entries == Fitting(old(entries), limits) && weight == Weight(entries)
    {
      while weight > limits.maxWeight
        invariant weight == Weight(entries)
        invariant |entries| <= limits.capacity
        invariant Fitting(entries, limits) == Fitting(old(entries), limits)
        decreases |entries|
      {
        var last := |entries| - 1;
        weight := weight - entries[last].weight;
        entries := entries[..last];
      }
    }

    method Remove(key: K)
      requires Valid()
      modifies this
      ensures Valid()
      ensures entries == Without(old(entries), key)
    {
      RemoveKeepsOk(entries, limits, key);
      WithoutWeighs(entries, key);
      var entry := Lookup(entries, key);
      if entry.Some? {
        entries := Without(entries, key);
        weight := weight - entry.value.weight;
      }
    }
  }

  /** Pushing an entry at capacity drops the least recently used one first. */
  lemma PushAtCapacity<K, V>(s: Entries<K, V>, slot: Slot<K, V>, limits: Limits)
    requires |s| <= limits.capacity && limits.capacity >= 1
    ensures Weight([slot] + s) == slot.weight + Weight(s)
    ensures |s| == limits.capacity ==>
              var kept := s[..|s| - 1];
              && Weight(kept) + s[|s| - 1].weight == Weight(s)
              && Weight([slot] + kept) == slot.weight + Weight(kept)
              && Fitting([slot] + s, limits) == Fitting([slot] + kept, limits)
  {
    WeightCons(slot, s);
    if |s| == limits.capacity {
      WeightCons(slot, s[..|s| - 1]);
      assert ([slot] + s)[..|s|] == [slot] + s[..|s| - 1];
    }
  }
}
