/** What the merge is asked for, in terms of the namespace alone: the keys that start with
    the prefix and exceed the marker, less the subtrees that cannot be listed. */
module FlatListing {
  import opened ByteStrings
  import opened Sorting
  import opened Paths
  import opened Namespaces
  import opened Merge
  import opened SortedListings

  ghost function MatchingKeys(ns: Namespace, prefix: Bytes, after: Option<Bytes>): set<Bytes> {
    set k | k in ns.files && prefix <= k && Past(after, k)
  }

  /** No directory strictly below the start and above `u` fails to be listed. */
  ghost predicate Visible(ns: Namespace, sp: Bytes, u: Bytes) {
    forall d | d in ns.dirs && sp <= d && DirOut(d) <= u && DirOut(d) != u :: DirOut(d) !in ns.errors
  }

  /** The namespace with the subtrees of failing directories deleted. */
  ghost function Pruned(ns: Namespace, sp: Bytes): Namespace {
    Namespace(map k | k in ns.files && Visible(ns, sp, k) :: ns.files[k],
              set d | d in ns.dirs && Visible(ns, sp, DirOut(d)),
              map[])
  }

  /** Started at the prefix's directory part, the walk is kept from a matching item only by
      directories that cannot be listed. */
  lemma ClearIsVisible(ns: Namespace, q: Query, u: Bytes)
    requires StartsAt(q.sp, q.prefix) && q.prefix <= u
    ensures Clear(ns, q, u) <==> Visible(ns, q.sp, u)
  {
    forall d | d in ns.dirs && q.sp <= d && DirOut(d) <= u && DirOut(d) != u
      ensures q.prefix <= d
    {
      MatchesAbove(q.sp, q.prefix, d, u);
    }
    if Visible(ns, q.sp, u) {
      forall d | d in ns.dirs
        ensures !Blocks(ns, q, d, u)
      {
      }
    }
    if Clear(ns, q, u) {
      forall d | d in ns.dirs && q.sp <= d && DirOut(d) <= u && DirOut(d) != u
        ensures DirOut(d) !in ns.errors
      {
        assert !Blocks(ns, q, d, u);
      }
    }
  }

  lemma NoSlashAfterStart(sp: Bytes, prefix: Bytes)
    requires StartsAt(sp, prefix)
    ensures forall i | |sp| <= i < |prefix| :: prefix[i] != SLASH
  {
    forall i | |sp| <= i < |prefix|
      ensures prefix[i] != SLASH
    {
      assert prefix[|sp|..][i - |sp|] == prefix[i];
    }
  }

  /** A directory between the start and a match of the prefix matches it too. */
  lemma MatchesAbove(sp: Bytes, prefix: Bytes, d: Bytes, u: Bytes)
    requires StartsAt(sp, prefix) && prefix <= u && sp <= d && DirOut(d) <= u
    ensures prefix <= d
  {
    PrefixTransitive(d, DirOut(d), u);
    assert u[|d|] == DirOut(d)[|d|] == SLASH;
    assert forall i | 0 <= i < |prefix| :: prefix[i] == u[i];
    NoSlashAfterStart(sp, prefix);
    if |prefix| <= |d| {
      PrefixesNest(prefix, d, u);
    }
  }

  /** The flat listing is exact: it emits the files that match the prefix and exceed the
      marker, except those below a directory that cannot be listed. */
  lemma WantedFilesAre(ns: Namespace, q: Query)
    requires ns.Valid() && StartsAt(q.sp, q.prefix)
    ensures WantedFiles(ns, q) == set k | k in MatchingKeys(ns, q.prefix, q.after) && Visible(ns, q.sp, k)
  {
    forall k
      ensures k in WantedFiles(ns, q) <==> k in MatchingKeys(ns, q.prefix, q.after) && Visible(ns, q.sp, k)
    {
      if k in ns.files {
        KeyShape(ns, k);
        if q.prefix <= k {
          PrefixTransitive(q.sp, q.prefix, k);
          ClearIsVisible(ns, q, k);
        }
      } else if k in Items(ns) {
        ItemKinds(ns, k);
      }
    }
  }

  /** The directories opened are the visible ones that match the prefix and are not wholly
      before the marker. */
  lemma WantedDirsAre(ns: Namespace, q: Query, d: Bytes)
    requires ns.Valid() && StartsAt(q.sp, q.prefix) && d in ns.dirs
    ensures DirOut(d) in WantedItems(ns, q) <==>
              q.prefix <= d && Reaches(q.after, d) && Visible(ns, q.sp, DirOut(d))
  {
    DirItem(d);
    if q.prefix <= d {
      PrefixTransitive(q.sp, q.prefix, d);
      PrefixTransitive(q.prefix, d, DirOut(d));
      ClearIsVisible(ns, q, DirOut(d));
    }
  }

  /** When no key starts with the prefix, nothing is emitted, wherever the walk starts. */
  lemma NothingWanted(ns: Namespace, q: Query)
    requires ns.Valid() && MatchingKeys(ns, q.prefix, None) == {}
    ensures WantedFiles(ns, q) == {}
  {
    forall k | k in Items(ns)
      ensures k in WantedFiles(ns, q) ==> k in MatchingKeys(ns, q.prefix, None)
    {
      ItemKinds(ns, k);
    }
  }

  /** With every directory listable, the keys are exactly the matching ones. */
  lemma WithoutErrors(ns: Namespace, q: Query)
    requires ns.Valid() && StartsAt(q.sp, q.prefix) && ns.errors == map[]
    ensures Keys(ns, q) == SortedSet(MatchingKeys(ns, q.prefix, q.after))
    ensures forall maxKeys, r | IsPage(ns, q, maxKeys, r) :: r.Ok?
  {
    WantedFilesAre(ns, q);
    assert forall k :: Visible(ns, q.sp, k);
    assert WantedFiles(ns, q) == MatchingKeys(ns, q.prefix, q.after);
  }

  lemma PrunedIsValid(ns: Namespace, sp: Bytes)
    requires ns.Valid()
    ensures Pruned(ns, sp).Valid()
  {
    var p := Pruned(ns, sp);
    forall k, i | k in p.files.Keys + p.dirs && 0 <= i < |k| && k[i] == SLASH
      ensures k[..i] in p.dirs
    {
      var a := k[..i];
      assert a in ns.dirs;
      var u := if k in p.files then k else DirOut(k);
      assert Visible(ns, sp, u);
      assert DirOut(a) == k[..i + 1] == u[..i + 1];
      forall d | d in ns.dirs && sp <= d && DirOut(d) <= DirOut(a) && DirOut(d) != DirOut(a)
        ensures DirOut(d) !in ns.errors
      {
        PrefixTransitive(DirOut(d), DirOut(a), u);
      }
    }
  }

  /** Best effort: the keys are those of the namespace without the failing subtrees. */
  lemma FailingSubtreesAreAbsent(ns: Namespace, q: Query)
    requires ns.Valid() && StartsAt(q.sp, q.prefix)
    ensures Keys(ns, q) == SortedSet(MatchingKeys(Pruned(ns, q.sp), q.prefix, q.after))
    ensures Keys(ns, q) == Keys(Pruned(ns, q.sp), q)
  {
    var p := Pruned(ns, q.sp);
    PrunedIsValid(ns, q.sp);
    WantedFilesAre(ns, q);
    WithoutErrors(p, q);
    assert WantedFiles(ns, q) == MatchingKeys(p, q.prefix, q.after);
  }
}
