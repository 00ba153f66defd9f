/** The frontier of the flat listing as a value: cursors over opened directories, the
    items they still cover, and the invariant each step of the merge keeps.

    An item is a file key or a directory's output `dir + "/"`; the merge takes items in
    increasing order, emits files and opens directories. */
module Merge {
  import opened ByteStrings
  import opened Sorting
  import opened KeyOrder
  import opened Paths
  import opened Namespaces

  /** A listing request: the output of the start directory, the prefix and the marker. */
  datatype Query = Query(sp: Bytes, prefix: Bytes, after: Option<Bytes>)

  predicate Past(after: Option<Bytes>, key: Bytes) {
    after.None? || Lt(after.value, key)
  }

  /** The directory may hold a key past the marker. */
  predicate Reaches(after: Option<Bytes>, dir: Bytes) {
    after.None? || !DirChildrenAllBefore(dir, after.value)
  }

  ghost function Items(ns: Namespace): set<Bytes> {
    ns.files.Keys + set d | d in ns.dirs :: DirOut(d)
  }

  predicate IsDirItem(u: Bytes) {
    u != [] && u[|u| - 1] == SLASH
  }

  function DirOf(u: Bytes): Bytes
    requires IsDirItem(u)
  {
    u[..|u| - 1]
  }

  /** Directory `d`, strictly below the start, keeps the walk from getting to `u`: it
      cannot match the prefix or cannot be listed. */
  ghost predicate Blocks(ns: Namespace, q: Query, d: Bytes, u: Bytes) {
    && q.sp <= d
    && DirOut(d) <= u && DirOut(d) != u
    && (!(q.prefix <= d) || DirOut(d) in ns.errors)
  }

  ghost predicate Clear(ns: Namespace, q: Query, u: Bytes) {
    forall d | d in ns.dirs :: !Blocks(ns, q, d, u)
  }

  /** The files to emit and the directories to open. */
  ghost predicate Wanted(ns: Namespace, q: Query, u: Bytes) {
    && Clear(ns, q, u)
    && if IsDirItem(u)
       then DirOf(u) in ns.dirs && q.sp <= DirOf(u) && q.prefix <= DirOf(u) && Reaches(q.after, DirOf(u))
       else u in ns.files && q.sp <= u && q.prefix <= u && Past(q.after, u)
  }

  ghost function WantedItems(ns: Namespace, q: Query): set<Bytes> {
    set u | u in Items(ns) && Wanted(ns, q, u)
  }

  /** A position in the files or the directories of one opened directory. */
  datatype Cursor = Cursor(listing: DirListing, files: bool, idx: nat) {
    function Len(): nat {
      if files then |listing.files| else |listing.dirs|
    }

    function Front(): Bytes
      requires idx < Len()
    {
      if files then listing.files[idx].key else listing.dirs[idx]
    }

    /** What the cursor's next entry is listed as. */
    function Out(): Bytes
      requires idx < Len()
    {
      if files then Front() else DirOut(Front())
    }

    /** `Cursor::cmp` decides the order of the next entries' outputs. */
    function Cmp(other: Cursor): (r: Ordering)
      requires idx < Len() && other.idx < other.Len()
      ensures r == Compare(Out(), other.Out())
    {
      match (files, other.files)
      case (true, true) => Compare(Front(), other.Front())
      case (false, false) => CmpDirKeys(Front(), other.Front())
      case (true, false) => CmpFileDir(Front(), other.Front())
      case (false, true) =>
        CompareMirrors(other.Out(), Out());
        CmpFileDir(other.Front(), Front()).Reverse()
    }

    ghost predicate Covers(u: Bytes) {
      if files
      then exists i | idx <= i < |listing.files| :: listing.files[i].key == u
      else exists i | idx <= i < |listing.dirs| :: DirOut(listing.dirs[i]) <= u
    }

    /** The items at and below the next entry. */
    ghost predicate AtFront(u: Bytes)
      requires idx < Len()
    {
      if files then u == Out() else Out() <= u
    }
  }

  type Frontier = set<Cursor>

  /** A listing reached by the walk. */
  ghost predicate Reached(ns: Namespace, q: Query, l: DirListing) {
    && (forall i, j | 0 <= i < j < |l.files| :: Lt(l.files[i].key, l.files[j].key))
    && (forall i | 0 <= i < |l.files| ::
          var k := l.files[i].key;
          k in ns.files && l.files[i] == ns.Entry(k) && q.sp <= k && Clear(ns, q, k))
    && OutputSorted(l.dirs) && Siblings(l.dirs)
    && (forall i | 0 <= i < |l.dirs| ::
          var d := l.dirs[i];
          d in ns.dirs && q.sp <= d && Clear(ns, q, DirOut(d)))
  }

  ghost predicate CursorOk(ns: Namespace, q: Query, c: Cursor) {
    c.idx < c.Len() && Reached(ns, q, c.listing)
  }

  ghost predicate Disjoint(ns: Namespace, c: Cursor, c': Cursor) {
    forall u | u in Items(ns) :: !(c.Covers(u) && c'.Covers(u))
  }

  ghost predicate FrontierOk(ns: Namespace, q: Query, heap: Frontier) {
    && (forall c | c in heap :: CursorOk(ns, q, c))
    && (forall c, c' | c in heap && c' in heap && c != c' :: Disjoint(ns, c, c'))
  }

  ghost predicate Covered(heap: Frontier, u: Bytes) {
    exists c | c in heap :: c.Covers(u)
  }

  /** The items not yet taken. */
  ghost function Remaining(ns: Namespace, heap: Frontier): set<Bytes> {
    set u | u in Items(ns) && Covered(heap, u)
  }

  /** The merge has taken exactly the wanted items of `trace`, in order, and every wanted
      item still covered is above them. */
  ghost predicate MergeOk(ns: Namespace, q: Query, heap: Frontier, trace: seq<Bytes>) {
    && FrontierOk(ns, q, heap)
    && StrictlySorted(trace)
    && (forall u | u in trace :: u in WantedItems(ns, q))
    && (forall u | u in WantedItems(ns, q) :: u in trace || Covered(heap, u))
    && (forall u, x | u in WantedItems(ns, q) && Covered(heap, u) && x in trace :: Lt(x, u))
  }

  // ----- Items

  lemma KeyShape(ns: Namespace, k: Bytes)
    requires ns.Valid() && k in ns.files.Keys + ns.dirs
    ensures k != [] && k[0] != SLASH && !IsDirItem(k)
  {
    CanonicalShape(k);
  }

  lemma DirItem(d: Bytes)
    ensures IsDirItem(DirOut(d)) && DirOf(DirOut(d)) == d
  {
  }

  lemma ItemKinds(ns: Namespace, u: Bytes)
    requires ns.Valid() && u in Items(ns)
    ensures if IsDirItem(u) then DirOf(u) in ns.dirs && DirOut(DirOf(u)) == u && u !in ns.files
            else u in ns.files
  {
    if u in ns.files {
      KeyShape(ns, u);
    } else {
      var d :| d in ns.dirs && DirOut(d) == u;
      DirItem(d);
    }
  }

  /** Whatever a slash of an item follows is a directory. */
  lemma AncestorIsDir(ns: Namespace, u: Bytes, i: nat)
    requires ns.Valid() && u in Items(ns) && i < |u| && u[i] == SLASH
    ensures u[..i] in ns.dirs
  {
    ItemKinds(ns, u);
    if IsDirItem(u) {
      var d := DirOf(u);
      if i == |d| {
        assert u[..i] == d;
      } else {
        assert d[i] == SLASH && d[..i] == u[..i];
      }
    }
  }

  /** An item strictly below a directory is one of its files, or at or below one of its
      child directories. */
  lemma ItemBelow(ns: Namespace, dp: Bytes, u: Bytes) returns (child: Bytes)
    requires ns.Valid() && u in Items(ns) && dp <= u && u != dp
    requires dp == [] || IsDirItem(dp)
    ensures ChildOf(dp, child)
    ensures if SLASH in u[|dp|..] then child in ns.dirs && DirOut(child) <= u
            else child == u && u in ns.files
  {
    hide Canonical, Lt;
    var rest := u[|dp|..];
    if SLASH in rest {
      var i := FirstSlash(rest);
      AncestorIsDir(ns, u, |dp| + i);
      child := u[..|dp| + i];
      assert child in ns.dirs;
      CutAtSlash(dp, u, i);
      KeyShape(ns, child);
    } else {
      child := u;
      ItemKinds(ns, u);
      assert rest[|rest| - 1] == u[|u| - 1];
    }
  }

  lemma CutAtSlash(dp: Bytes, u: Bytes, i: nat)
    requires dp <= u && |dp| + i < |u| && u[|dp| + i] == SLASH && SLASH !in u[|dp|..][..i]
    ensures dp <= u[..|dp| + i] && SLASH !in u[..|dp| + i][|dp|..]
    ensures DirOut(u[..|dp| + i]) <= u
    ensures i == 0 ==> u[..|dp| + i] == dp
  {
    assert u[..|dp| + i][|dp|..] == u[|dp|..][..i];
    assert DirOut(u[..|dp| + i]) == u[..|dp| + i + 1];
  }

  lemma FirstSlash(s: Bytes) returns (i: nat)
    requires SLASH in s
    ensures i < |s| && s[i] == SLASH && SLASH !in s[..i]
  {
    i := 0;
    while s[i] != SLASH
      invariant i < |s| && SLASH !in s[..i] && SLASH in s[i..]
      decreases |s| - i
    {
      assert s[..i + 1] == s[..i] + [s[i]];
      assert s[i..] == [s[i]] + s[i + 1..];
      i := i + 1;
    }
  }

  // ----- Cursors

  lemma OutIsLeast(ns: Namespace, q: Query, c: Cursor, u: Bytes)
    requires CursorOk(ns, q, c) && c.Covers(u)
    ensures Le(c.Out(), u)
  {
    if c.files {
      var i :| c.idx <= i < |c.listing.files| && c.listing.files[i].key == u;
    } else {
      var i :| c.idx <= i < |c.listing.dirs| && DirOut(c.listing.dirs[i]) <= u;
      PrefixLe(DirOut(c.listing.dirs[i]), u);
      LeTransitive(c.Out(), DirOut(c.listing.dirs[i]), u);
    }
  }

  lemma OutIsCovered(ns: Namespace, q: Query, c: Cursor)
    requires CursorOk(ns, q, c)
    ensures c.Covers(c.Out()) && c.Out() in Items(ns)
  {
    if c.files {
      assert c.listing.files[c.idx].key == c.Out();
    } else {
      assert c.listing.dirs[c.idx] in ns.dirs;
    }
  }

  function Advanced(c: Cursor): Frontier {
    if c.idx + 1 < c.Len() then {c.(idx := c.idx + 1)} else {}
  }

  /** Advancing gives up exactly the items at and below the next entry. */
  lemma AdvancedCovers(ns: Namespace, q: Query, c: Cursor, u: Bytes)
    requires CursorOk(ns, q, c)
    ensures c.Covers(u) <==> c.AtFront(u) || Covered(Advanced(c), u)
    ensures forall c' | c' in Advanced(c) :: CursorOk(ns, q, c') && !(c.AtFront(u) && c'.Covers(u))
  {
    if c.files { AdvancedFiles(ns, q, c, u); } else { AdvancedDirs(c, u); }
  }

  lemma AdvancedFiles(ns: Namespace, q: Query, c: Cursor, u: Bytes)
    requires CursorOk(ns, q, c) && c.files
    ensures c.Covers(u) <==> u == c.Out() || Covered(Advanced(c), u)
    ensures forall c' | c' in Advanced(c) :: !(u == c.Out() && c'.Covers(u))
  {
    hide Canonical, Lt, OutputSorted, Siblings, IsListing;
    var n := c.(idx := c.idx + 1);
    if c.Covers(u) && u != c.Out() {
      var i :| c.idx <= i < |c.listing.files| && c.listing.files[i].key == u;
      assert n.Covers(u) && n in Advanced(c);
    }
    if n.Covers(u) {
      var i :| n.idx <= i < |c.listing.files| && c.listing.files[i].key == u;
      LtIrreflexive(u);
    }
  }

  lemma AdvancedDirs(c: Cursor, u: Bytes)
    requires c.idx < c.Len() && !c.files && Siblings(c.listing.dirs)
    ensures c.Covers(u) <==> c.Out() <= u || Covered(Advanced(c), u)
    ensures forall c' | c' in Advanced(c) :: !(c.Out() <= u && c'.Covers(u))
  {
    var dirs := c.listing.dirs;
    var n := c.(idx := c.idx + 1);
    assert c.Out() == DirOut(dirs[c.idx]);
    if n.Covers(u) {
      var i :| n.idx <= i < |dirs| && DirOut(dirs[i]) <= u;
      SiblingsShareNothing(dirs, c.idx, i, u);
      assert n in Advanced(c);
      assert c.Covers(u);
    } else if c.Covers(u) {
      var i :| c.idx <= i < |dirs| && DirOut(dirs[i]) <= u;
      assert i == c.idx;
    }
  }

  lemma SiblingsShareNothing(dirs: seq<Bytes>, i: nat, j: nat, u: Bytes)
    requires Siblings(dirs) && i < |dirs| && j < |dirs| && i != j
    ensures !(DirOut(dirs[i]) <= u && DirOut(dirs[j]) <= u)
  {
    var x, y := DirOut(dirs[i]), DirOut(dirs[j]);
    if x <= u && y <= u {
      if |x| <= |y| { PrefixesNest(x, y, u); } else { PrefixesNest(y, x, u); }
    }
  }

  ghost predicate Minimal(heap: Frontier, c: Cursor)
    requires forall x | x in heap :: x.idx < x.Len()
  {
    c in heap && forall x | x in heap :: Le(c.Out(), x.Out())
  }

  lemma MinimalIsLeast(ns: Namespace, q: Query, heap: Frontier, c: Cursor)
    requires FrontierOk(ns, q, heap) && Minimal(heap, c)
    ensures Covered(heap, c.Out()) && c.Out() in Items(ns)
    ensures forall u | Covered(heap, u) :: Le(c.Out(), u)
  {
    OutIsCovered(ns, q, c);
    forall u | Covered(heap, u)
      ensures Le(c.Out(), u)
    {
      var x :| x in heap && x.Covers(u);
      OutIsLeast(ns, q, x, u);
      LeTransitive(c.Out(), x.Out(), u);
    }
  }

  lemma {:induction false} MinimalExists(heap: Frontier)
    requires heap != {} && forall x | x in heap :: x.idx < x.Len()
    ensures exists c :: Minimal(heap, c)
  {
    var y :| y in heap;
    if heap == {y} {
      assert Minimal(heap, y);
    } else {
      var rest := heap - {y};
      MinimalExists(rest);
      var c :| Minimal(rest, c);
      LtTotal(c.Out(), y.Out());
      if Lt(y.Out(), c.Out()) {
        forall x | x in heap
          ensures Le(y.Out(), x.Out())
        {
          if x != y { LeTransitive(y.Out(), c.Out(), x.Out()); }
        }
        assert Minimal(heap, y);
      } else {
        assert Minimal(heap, c);
      }
    }
  }

  // ----- One step of the merge

  /** `repl` can stand for a least cursor once its front item is taken: it covers part of
      what `c` covered, without that item, and every other wanted part of it. */
  ghost predicate Replaces(ns: Namespace, q: Query, c: Cursor, repl: Frontier)
    requires c.idx < c.Len()
  {
    && FrontierOk(ns, q, repl)
    && (forall u | u in Items(ns) && Covered(repl, u) :: c.Covers(u) && u != c.Out())
    && (forall u | u in WantedItems(ns, q) && c.Covers(u) && u != c.Out() :: Covered(repl, u))
  }

  function Succeeding(heap: Frontier, c: Cursor, repl: Frontier): Frontier {
    heap - {c} + repl
  }

  lemma NextDisjoint(ns: Namespace, q: Query, heap: Frontier, c: Cursor, repl: Frontier)
    requires FrontierOk(ns, q, heap) && c in heap && Replaces(ns, q, c, repl)
    ensures FrontierOk(ns, q, Succeeding(heap, c, repl))
    ensures repl !! heap - {c}
  {
    forall x, y | x in heap - {c} && y in repl
      ensures Disjoint(ns, x, y) && Disjoint(ns, y, x) && x != y
    {
      assert Disjoint(ns, x, c);
      forall u | u in Items(ns) && y.Covers(u)
        ensures !x.Covers(u)
      {
        assert Covered(repl, u);
      }
      OutIsCovered(ns, q, y);
    }
  }

  /** What the next frontier covers. */
  lemma NextCovers(ns: Namespace, q: Query, heap: Frontier, c: Cursor, repl: Frontier, u: Bytes)
    requires FrontierOk(ns, q, heap) && c in heap && Replaces(ns, q, c, repl) && u in Items(ns)
    ensures Covered(Succeeding(heap, c, repl), u) ==> Covered(heap, u) && u != c.Out()
    ensures u in WantedItems(ns, q) && Covered(heap, u) && u != c.Out() ==> Covered(Succeeding(heap, c, repl), u)
  {
    hide Lt, Canonical, WantedItems, CursorOk;
    var next := Succeeding(heap, c, repl);
    if Covered(next, u) {
      var x :| x in next && x.Covers(u);
      if x in repl {
        assert Covered(repl, u);
        assert c.Covers(u);
      } else {
        OutIsCovered(ns, q, c);
        assert Disjoint(ns, x, c);
      }
    }
    if u in WantedItems(ns, q) && Covered(heap, u) && u != c.Out() {
      var x :| x in heap && x.Covers(u);
      if x == c {
        assert Covered(repl, u);
        var y :| y in repl && y.Covers(u);
        assert y in next;
      } else {
        assert x in next;
      }
    }
  }

  /** The measure of the merge: what remains gets strictly less. */
  lemma NextRemaining(ns: Namespace, q: Query, heap: Frontier, c: Cursor, repl: Frontier)
    requires FrontierOk(ns, q, heap) && c in heap && Replaces(ns, q, c, repl)
    ensures Remaining(ns, Succeeding(heap, c, repl)) < Remaining(ns, heap)
  {
    OutIsCovered(ns, q, c);
    assert c.Out() in Remaining(ns, heap);
    forall u | u in Items(ns)
      ensures Covered(Succeeding(heap, c, repl), u) ==> Covered(heap, u) && u != c.Out()
    {
      NextCovers(ns, q, heap, c, repl, u);
    }
  }

  function Extended(trace: seq<Bytes>, u: Bytes, wanted: bool): seq<Bytes> {
    if wanted then trace + [u] else trace
  }

  /** Taking the least item keeps the invariant. */
  lemma StepKeepsMerge(ns: Namespace, q: Query, heap: Frontier, trace: seq<Bytes>, c: Cursor, repl: Frontier,
                       wanted: bool)
    requires MergeOk(ns, q, heap, trace) && Minimal(heap, c) && Replaces(ns, q, c, repl)
    requires wanted <==> c.Out() in WantedItems(ns, q)
    ensures MergeOk(ns, q, Succeeding(heap, c, repl), Extended(trace, c.Out(), wanted))
  {
    hide Wanted, Disjoint, Lt, Items, Covered;
    var u0 := c.Out();
    var next, trace' := Succeeding(heap, c, repl), Extended(trace, u0, wanted);
    MinimalIsLeast(ns, q, heap, c);
    NextDisjoint(ns, q, heap, c, repl);
    forall u | u in WantedItems(ns, q)
      ensures u in trace' || Covered(next, u)
      ensures Covered(next, u) ==> Covered(heap, u) && Lt(u0, u)
    {
      NextCovers(ns, q, heap, c, repl, u);
    }
    assert forall x | x in trace' :: x in trace || (wanted && x == u0);
  }

  // ----- What each branch puts in place of the least cursor

  /** Nothing wanted lies strictly below a directory the walk does not enter. */
  lemma SkippedSubtree(ns: Namespace, q: Query, d: Bytes, u: Bytes)
    requires d in ns.dirs && q.sp <= d
    requires !(q.prefix <= d) || !Reaches(q.after, d) || DirOut(d) in ns.errors
    requires DirOut(d) <= u && DirOut(d) != u
    ensures !Wanted(ns, q, u)
  {
    if q.prefix <= d && DirOut(d) !in ns.errors {
      var after := q.after.value;
      AllBeforeIsExact(d, after);
      if IsDirItem(u) {
        NestedOutputs(d, DirOf(u));
        forall x: Bytes | DirOut(DirOf(u)) <= x
          ensures Lt(x, after)
        {
          PrefixTransitive(DirOut(d), u, x);
        }
        AllBeforeIsExact(DirOf(u), after);
      } else {
        assert Lt(u, after);
        LtAsymmetric(u, after);
      }
    } else {
      assert Blocks(ns, q, d, u);
    }
  }

  /** Popping a file, or a directory that is not entered. */
  lemma PassReplaces(ns: Namespace, q: Query, c: Cursor)
    requires CursorOk(ns, q, c)
    requires c.files || !(q.prefix <= c.Front()) || !Reaches(q.after, c.Front()) || c.Out() in ns.errors
    ensures Replaces(ns, q, c, Advanced(c))
  {
    hide Canonical, Lt, Wanted;
    var a := Advanced(c);
    OutIsCovered(ns, q, c);
    forall u | u in Items(ns)
      ensures Covered(a, u) ==> c.Covers(u) && u != c.Out()
      ensures u in WantedItems(ns, q) && c.Covers(u) && u != c.Out() ==> Covered(a, u)
    {
      AdvancedCovers(ns, q, c, u);
      if c.AtFront(u) && u != c.Out() {
        SkippedSubtree(ns, q, c.Front(), u);
      }
    }
    AdvancedCovers(ns, q, c, c.Out());
  }

  ghost predicate Positioned(q: Query, l: DirListing, fi: nat, di: nat) {
    && fi <= |l.files| && di <= |l.dirs|
    && (forall i | 0 <= i < |l.files| :: i < fi <==> !Past(q.after, l.files[i].key))
    && (forall i | 0 <= i < |l.dirs| :: i < di <==> !Reaches(q.after, l.dirs[i]))
  }

  /** The cursors pushed for a listing. */
  function Pushed(l: DirListing, fi: nat, di: nat): Frontier {
    (if fi < |l.files| then {Cursor(l, true, fi)} else {}) +
    (if di < |l.dirs| then {Cursor(l, false, di)} else {})
  }

  /** What blocks a child blocks its directory or is it. */
  lemma BlockerOfChild(ns: Namespace, q: Query, dp: Bytes, k: Bytes, d: Bytes, u: Bytes)
    requires d in ns.dirs && ChildOf(dp, k) && q.sp <= dp
    requires u == k || u == DirOut(k)
    requires Blocks(ns, q, d, u)
    ensures dp != q.sp
    ensures IsDirItem(dp) ==> d == DirOf(dp) || Blocks(ns, q, d, dp)
  {
    var o := DirOut(d);
    assert u[..|o|] == o && u[|d|] == o[|d|] == SLASH;
    ChildHasNoSlash(dp, k);
    assert |o| < |u|;
    assert u[|d|] == k[|d|];
    assert |d| < |dp|;
    assert u[..|dp|] == k[..|dp|] == dp;
    PrefixesNest(o, dp, u);
    DirItem(d);
  }

  /** The walk may enter the directory whose keys start with `dp`. */
  ghost predicate Enters(ns: Namespace, q: Query, dp: Bytes) {
    && q.sp <= dp
    && (dp == q.sp || (IsDirItem(dp) && q.sp <= DirOf(dp)
                       && q.prefix <= DirOf(dp) && dp !in ns.errors && Clear(ns, q, dp)))
  }

  lemma ChildClear(ns: Namespace, q: Query, dp: Bytes, k: Bytes, u: Bytes)
    requires Enters(ns, q, dp) && ChildOf(dp, k) && (u == k || u == DirOut(k))
    ensures q.sp <= k && Clear(ns, q, u)
  {
    PrefixTransitive(q.sp, dp, k);
    forall d | d in ns.dirs
      ensures !Blocks(ns, q, d, u)
    {
      if Blocks(ns, q, d, u) {
        BlockerOfChild(ns, q, dp, k, d, u);
        DirItem(d);
      }
    }
  }

  /** The listing of a directory the walk enters is reached. */
  lemma ListingReached(ns: Namespace, q: Query, dp: Bytes, l: DirListing)
    requires IsListing(ns, dp, l) && Enters(ns, q, dp)
    ensures Reached(ns, q, l)
  {
    ChildrenAreSiblings(ns, dp, l);
    forall i | 0 <= i < |l.files|
      ensures q.sp <= l.files[i].key && Clear(ns, q, l.files[i].key)
    {
      ChildClear(ns, q, dp, l.files[i].key, l.files[i].key);
    }
    forall i | 0 <= i < |l.dirs|
      ensures l.dirs[i] in ns.dirs && q.sp <= l.dirs[i] && Clear(ns, q, DirOut(l.dirs[i]))
    {
      assert l.dirs[i] in l.dirs;
      ChildClear(ns, q, dp, l.dirs[i], DirOut(l.dirs[i]));
    }
  }

  /** What the pushed cursors cover lies strictly below the directory, and no item is
      covered twice. */
  lemma PushedBelow(dp: Bytes, l: DirListing, fi: nat, di: nat, u: Bytes)
    requires fi <= |l.files| && di <= |l.dirs|
    requires forall i | 0 <= i < |l.files| :: ChildOf(dp, l.files[i].key)
    requires forall i | 0 <= i < |l.dirs| :: ChildOf(dp, l.dirs[i])
    ensures Cursor(l, true, fi).Covers(u) ==> dp <= u && u != dp && !Cursor(l, false, di).Covers(u)
    ensures Cursor(l, false, di).Covers(u) ==> dp <= u && u != dp
  {
    if Cursor(l, false, di).Covers(u) {
      var j :| di <= j < |l.dirs| && DirOut(l.dirs[j]) <= u;
      var d := l.dirs[j];
      PrefixTransitive(dp, d, DirOut(d));
      PrefixTransitive(dp, DirOut(d), u);
      assert u[|d|] == DirOut(d)[|d|] == SLASH;
      if Cursor(l, true, fi).Covers(u) {
        ChildHasNoSlash(dp, u);
      }
    }
  }

  /** A directory at or above a wanted item may hold keys past the marker. */
  lemma WantedReaches(ns: Namespace, q: Query, d: Bytes, u: Bytes)
    requires d in ns.dirs && q.sp <= d && DirOut(d) <= u && Wanted(ns, q, u)
    ensures Reaches(q.after, d)
  {
    DirItem(d);
    if u != DirOut(d) && !Reaches(q.after, d) {
      SkippedSubtree(ns, q, d, u);
    }
  }

  /** Every wanted item strictly below the directory is covered. */
  lemma PushedComplete(ns: Namespace, q: Query, dp: Bytes, l: DirListing, fi: nat, di: nat, u: Bytes)
    requires ns.Valid() && IsListing(ns, dp, l) && Reached(ns, q, l) && Positioned(q, l, fi, di)
    requires dp == [] || IsDirItem(dp)
    requires u in WantedItems(ns, q) && dp <= u && u != dp
    ensures Covered(Pushed(l, fi, di), u)
  {
    hide Clear, OutputSorted, Siblings, Reaches, Past, FrontierOk, Canonical;
    var child := ItemBelow(ns, dp, u);
    if SLASH in u[|dp|..] {
      assert child in l.dirs;
      var j :| 0 <= j < |l.dirs| && l.dirs[j] == child;
      WantedReaches(ns, q, child, u);
      var d := Cursor(l, false, di);
      assert d.Covers(u) && d in Pushed(l, fi, di);
    } else {
      var i :| 0 <= i < |l.files| && l.files[i] == ns.Entry(u);
      KeyShape(ns, u);
      var f := Cursor(l, true, fi);
      assert f.Covers(u) && f in Pushed(l, fi, di);
    }
  }

  lemma PushedOk(ns: Namespace, q: Query, dp: Bytes, l: DirListing, fi: nat, di: nat)
    requires ns.Valid() && IsListing(ns, dp, l) && Reached(ns, q, l) && Positioned(q, l, fi, di)
    requires dp == [] || IsDirItem(dp)
    ensures FrontierOk(ns, q, Pushed(l, fi, di))
    ensures forall u | Covered(Pushed(l, fi, di), u) :: dp <= u && u != dp
    ensures forall u | u in WantedItems(ns, q) && dp <= u && u != dp :: Covered(Pushed(l, fi, di), u)
  {
    assert forall i | 0 <= i < |l.dirs| :: l.dirs[i] in l.dirs;
    forall u
      ensures Cursor(l, true, fi).Covers(u) ==> dp <= u && u != dp && !Cursor(l, false, di).Covers(u)
      ensures Cursor(l, false, di).Covers(u) ==> dp <= u && u != dp
    {
      PushedBelow(dp, l, fi, di, u);
    }
    forall u | u in WantedItems(ns, q) && dp <= u && u != dp
      ensures Covered(Pushed(l, fi, di), u)
    {
      PushedComplete(ns, q, dp, l, fi, di, u);
    }
  }

  /** Popping a directory and opening it. */
  lemma OpenReplaces(ns: Namespace, q: Query, c: Cursor, l: DirListing, fi: nat, di: nat)
    requires ns.Valid() && CursorOk(ns, q, c) && !c.files
    requires q.prefix <= c.Front() && c.Out() !in ns.errors
    requires IsListing(ns, c.Out(), l) && Positioned(q, l, fi, di)
    ensures Replaces(ns, q, c, Advanced(c) + Pushed(l, fi, di))
    ensures Reached(ns, q, l)
  {
    var dp := c.Out();
    var a, p := Advanced(c), Pushed(l, fi, di);
    DirItem(c.Front());
    PrefixTransitive(q.sp, c.Front(), dp);
    ListingReached(ns, q, dp, l);
    PushedOk(ns, q, dp, l, fi, di);
    OutIsCovered(ns, q, c);
    UnionCovers(a, p);
    forall u
      ensures Covered(a, u) ==> c.Covers(u) && !c.AtFront(u)
      ensures c.Covers(u) ==> c.AtFront(u) || Covered(a, u)
      ensures c.AtFront(u) ==> c.Covers(u)
    {
      AdvancedCovers(ns, q, c, u);
    }
    AdvancedCovers(ns, q, c, dp);
    forall x, y | x in a && y in p
      ensures Disjoint(ns, x, y) && Disjoint(ns, y, x)
    {
      forall u
        ensures x.Covers(u) ==> Covered(a, u)
        ensures y.Covers(u) ==> Covered(p, u)
      {
      }
    }
  }

  lemma UnionCovers(a: Frontier, b: Frontier)
    ensures forall u :: Covered(a + b, u) <==> Covered(a, u) || Covered(b, u)
  {
    forall u
      ensures Covered(a + b, u) <==> Covered(a, u) || Covered(b, u)
    {
      if Covered(a, u) { var c :| c in a && c.Covers(u); assert c in a + b; }
      if Covered(b, u) { var c :| c in b && c.Covers(u); assert c in a + b; }
    }
  }
}
