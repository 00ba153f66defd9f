/** The comparisons that the listing code makes on directories without building their
    output strings: a directory `d` is listed as `d + "/"`, and every key below it
    starts with that string. */
module KeyOrder {
  import opened ByteStrings
  import opened Sorting

  /** `cmp_dir_output`: compares `dir + "/"` with `other`. */
  function CmpDirOutput(dir: Bytes, other: Bytes): (r: Ordering)
    ensures r == Compare(DirOut(dir), other)
  {
    var common := if |dir| <= |other| then |dir| else |other|;
    CompareWithin(DirOut(dir), other, common);
    CompareAt(DirOut(dir), other, common);
    assert DirOut(dir)[..common] == dir[..common];
    match Compare(dir[..common], other[..common])
    case Equal =>
      if |dir| >= |other| then Greater else
        CompareAt(DirOut(dir), other, if other[|dir|] == SLASH then common + 1 else common);
        (match CompareByte(SLASH, other[|dir|])
         case Equal => if |other| == |dir| + 1 then Equal else Less
         case order => order)
    case order => order
  }

  /** `cmp_dir_keys`: compares `a + "/"` with `b + "/"`. */
  function CmpDirKeys(a: Bytes, b: Bytes): (r: Ordering)
    ensures r == Compare(DirOut(a), DirOut(b))
  {
    var common := if |a| <= |b| then |a| else |b|;
    CompareWithin(DirOut(a), DirOut(b), common);
    assert DirOut(a)[..common] == a[..common] && DirOut(b)[..common] == b[..common];
    match Compare(a[..common], b[..common])
    case Equal =>
      if |a| == |b| then Equal
      else if |a| < |b| then
        CompareAt(DirOut(a), DirOut(b), if b[|a|] == SLASH then common + 1 else common);
        (match CompareByte(SLASH, b[|a|])
         case Equal => Less
         case order => order)
      else
        CompareAt(DirOut(a), DirOut(b), if a[|b|] == SLASH then common + 1 else common);
        (match CompareByte(a[|b|], SLASH)
         case Equal => Greater
         case order => order)
    case order => order
  }

  /** `cmp_file_dir`: compares a file key with `dir + "/"`. */
  function CmpFileDir(file: Bytes, dir: Bytes): (r: Ordering)
    ensures r == Compare(file, DirOut(dir))
  {
    CompareMirrors(DirOut(dir), file);
    CmpDirOutput(dir, file).Reverse()
  }

  /** `dir_output_starts_with`: whether `dir + "/"` starts with `prefix`. */
  predicate DirOutputStartsWith(dir: Bytes, prefix: Bytes): (r: bool)
    ensures r <==> prefix <= DirOut(dir)
  {
    if |prefix| <= |dir| then
      assert prefix <= dir <==> prefix <= DirOut(dir) by {
        assert DirOut(dir)[..|prefix|] == dir[..|prefix|];
      }
      prefix <= dir
    else
      |prefix| == |dir| + 1 && dir <= prefix && prefix[|dir|] == SLASH
  }

  /** `dir_children_all_before`: no key below `dir` can be above `after`. */
  predicate DirChildrenAllBefore(dir: Bytes, after: Bytes): (r: bool)
    ensures r <==> Lt(DirOut(dir), after) && !(DirOut(dir) <= after)
  {
    var common := if |dir| <= |after| then |dir| else |after|;
    CompareWithin(DirOut(dir), after, common);
    assert DirOut(dir)[..common] == dir[..common];
    assert DirOut(dir) <= after ==> dir[..common] == after[..common] by {
      if DirOut(dir) <= after { assert after[..|dir|] == DirOut(dir)[..|dir|]; }
    }
    CompareMirrors(DirOut(dir), after);
    match Compare(dir[..common], after[..common])
    case Less => true
    case Greater => false
    case Equal =>
      CompareAt(DirOut(dir), after, common);
      if |dir| == |after| then false
      else if |dir| < |after| then
        CompareAt(DirOut(dir), after, if after[|dir|] == SLASH then common + 1 else common);
        after[|dir|] > SLASH
      else false
  }

  /** The predicate is exact: it holds if and only if every string below the directory
      sorts before the marker. */
  lemma AllBeforeIsExact(dir: Bytes, after: Bytes)
    ensures DirChildrenAllBefore(dir, after)
       <==> forall u: Bytes | DirOut(dir) <= u :: Lt(u, after)
  {
    var out := DirOut(dir);
    if DirChildrenAllBefore(dir, after) {
      forall u: Bytes | out <= u
        ensures Lt(u, after)
      {
        AbovePrefixRange(out, u, after);
      }
    } else {
      var u := if out <= after then after else out;
      assert out <= u && !Lt(u, after);
    }
  }

  // ----- Resuming inside a directory's children

  ghost predicate OutputSorted(dirs: seq<Bytes>) {
    forall i, j | 0 <= i < j < |dirs| :: Lt(DirOut(dirs[i]), DirOut(dirs[j]))
  }

  /** No directory lies below another, as for the children of one directory. */
  ghost predicate Siblings(dirs: seq<Bytes>) {
    forall i, j | 0 <= i < |dirs| && 0 <= j < |dirs| && i != j :: !(DirOut(dirs[i]) <= DirOut(dirs[j]))
  }

  /** A marker inside a directory's subtree has no sibling between that directory and
      itself. */
  lemma StraddlerIsLast(dirs: seq<Bytes>, marker: Bytes, i: nat, j: nat)
    requires OutputSorted(dirs) && Siblings(dirs)
    requires i < |dirs| && j < |dirs|
    requires DirOut(dirs[i]) <= marker && Le(DirOut(dirs[j]), marker)
    ensures j <= i
  {
    if i < j {
      PrefixRangeConvex(DirOut(dirs[i]), DirOut(dirs[i]), DirOut(dirs[j]), marker);
    }
  }

  /** Over output-ordered siblings the predicate is monotone. */
  lemma AllBeforeIsMonotone(dirs: seq<Bytes>, marker: Bytes, i: nat, j: nat)
    requires OutputSorted(dirs) && Siblings(dirs)
    requires i < j < |dirs| && DirChildrenAllBefore(dirs[j], marker)
    ensures DirChildrenAllBefore(dirs[i], marker)
  {
    LtTransitive(DirOut(dirs[i]), DirOut(dirs[j]), marker);
    if DirOut(dirs[i]) <= marker {
      StraddlerIsLast(dirs, marker, i, j);
    }
  }

  /** `start` parts the directories wholly before the marker from the rest, and only the
      one at `start` may hold keys on both sides of it. */
  ghost predicate PartsAt(dirs: seq<Bytes>, marker: Bytes, start: nat) {
    && start <= |dirs|
    && (forall i | 0 <= i < start :: DirChildrenAllBefore(dirs[i], marker))
    && (forall i | start <= i < |dirs| :: !DirChildrenAllBefore(dirs[i], marker))
    && (forall i | 0 <= i < |dirs| && DirOut(dirs[i]) <= marker :: i == start)
    && (forall i | start < i < |dirs| :: Lt(marker, DirOut(dirs[i])))
  }

  /** `dirs_start_after`: the exact partition point of `DirChildrenAllBefore`, one less
      than the binary-search bound precisely when a sibling straddles the marker. */
  method DirsStartAfter(dirs: seq<Bytes>, marker: Bytes) returns (start: nat)
    requires OutputSorted(dirs) && Siblings(dirs)
    ensures PartsAt(dirs, marker, start)
  {
    UpToMarkerIsMonotone(dirs, marker);
    start := PartitionPoint(dirs, (d: Bytes) => CmpDirOutput(d, marker) != Greater);
    BoundSplitsSiblings(dirs, marker, start);
    if start > 0 {
      var candidate := dirs[start - 1];
      StraddleTest(candidate, marker);
      if |marker| > |candidate| && candidate <= marker && marker[|candidate|] == SLASH {
        start := start - 1;
      }
    }
  }

  lemma UpToMarkerIsMonotone(dirs: seq<Bytes>, marker: Bytes)
    requires OutputSorted(dirs)
    ensures forall d: Bytes :: CmpDirOutput(d, marker) != Greater <==> Le(DirOut(d), marker)
    ensures forall j, k | 0 <= j < k < |dirs| ::
              CmpDirOutput(dirs[k], marker) != Greater ==> CmpDirOutput(dirs[j], marker) != Greater
  {
    forall d: Bytes
      ensures CmpDirOutput(d, marker) != Greater <==> Le(DirOut(d), marker)
    {
      LtTotal(DirOut(d), marker);
    }
    forall j, k | 0 <= j < k < |dirs| && Le(DirOut(dirs[k]), marker)
      ensures Le(DirOut(dirs[j]), marker)
    {
      LeTransitive(DirOut(dirs[j]), DirOut(dirs[k]), marker);
    }
  }

  /** The byte-wise straddle test decides whether the marker lies below the directory. */
  lemma StraddleTest(dir: Bytes, marker: Bytes)
    ensures (|marker| > |dir| && dir <= marker && marker[|dir|] == SLASH) <==> DirOut(dir) <= marker
  {
    if DirOut(dir) <= marker {
      assert marker[..|dir|] == DirOut(dir)[..|dir|];
      assert marker[|dir|] == DirOut(dir)[|dir|];
    }
    if |marker| > |dir| && dir <= marker && marker[|dir|] == SLASH {
      assert marker[..|dir| + 1] == DirOut(dir);
    }
  }

  lemma BoundSplitsSiblings(dirs: seq<Bytes>, marker: Bytes, bound: nat)
    requires OutputSorted(dirs) && Siblings(dirs) && bound <= |dirs|
    requires forall i | 0 <= i < bound :: Le(DirOut(dirs[i]), marker)
    requires forall i | bound <= i < |dirs| :: !Le(DirOut(dirs[i]), marker)
    ensures PartsAt(dirs, marker, if bound > 0 && DirOut(dirs[bound - 1]) <= marker then bound - 1 else bound)
  {
    hide Lt;
    forall i | 0 <= i < |dirs|
      ensures bound <= i ==> Lt(marker, DirOut(dirs[i])) && !Lt(DirOut(dirs[i]), marker)
      ensures i < bound && !(DirOut(dirs[i]) <= marker) ==> Lt(DirOut(dirs[i]), marker)
      ensures DirOut(dirs[i]) <= marker ==> i == bound - 1
    {
      LtNotLe(marker, DirOut(dirs[i]));
      LtNotLe(DirOut(dirs[i]), marker);
      if DirOut(dirs[i]) <= marker {
        PrefixLe(DirOut(dirs[i]), marker);
        StraddlerIsLast(dirs, marker, i, bound - 1);
      }
    }
  }
}
