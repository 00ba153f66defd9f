/** What HDFS holds below the gateway's root, and the answer to listing one directory. */
module Namespaces {
  import opened ByteStrings
  import opened Sorting
  import opened KeyOrder
  import opened Paths

  datatype Result<+T, +E> = Ok(value: T) | Err(error: E)

  /** Errors of the HDFS client; RPC errors carry the Java exception class. */
  datatype HdfsError = FileNotFound | RPCError(exception: string) | FatalRPCError(exception: string)
      | OtherError(code: nat)

  predicate EndsWith(s: string, suffix: string) {
    |suffix| <= |s| && s[|s| - |suffix|..] == suffix
  }

  /** `is_access_denied`. */
  predicate IsAccessDenied(exception: string) {
    || EndsWith(exception, "AccessControlException")
    || EndsWith(exception, "AuthorizationException")
    || EndsWith(exception, "AccessDeniedException")
    || EndsWith(exception, "PermissionDeniedException")
    || EndsWith(exception, "PermissionDenied")
  }

  /** `is_dir_denied`: the NameNode refused access to this one directory. */
  predicate IsDirDenied(error: HdfsError) {
    (error.RPCError? || error.FatalRPCError?) && IsAccessDenied(error.exception)
  }

  /** The errors a walk passes over: a denied or a vanished subdirectory. */
  predicate Skippable(error: HdfsError) {
    IsDirDenied(error) || error.FileNotFound?
  }

  const DENIALS: seq<string> := ["AccessControlException", "AuthorizationException", "AccessDeniedException",
                                 "PermissionDeniedException", "PermissionDenied"]

  lemma EndsWithIff(s: string, suffix: string)
    ensures EndsWith(s, suffix) <==> exists start: string :: s == start + suffix
  {
    if EndsWith(s, suffix) { assert s == s[..|s| - |suffix|] + suffix; }
  }

  /** No error but these is passed over: a subtree is silently absent only where the NameNode
      denied access, in a class whose name ends so, or the directory is gone. */
  lemma SkippableIff(error: HdfsError)
    ensures Skippable(error) <==>
              || error == FileNotFound
              || ((error.RPCError? || error.FatalRPCError?) &&
                  exists start: string, name | name in DENIALS :: error.exception == start + name)
  {
    if error.RPCError? || error.FatalRPCError? {
      hide EndsWith;
      forall name | name in DENIALS
        ensures EndsWith(error.exception, name) <==> exists start: string :: error.exception == start + name
      {
        EndsWithIff(error.exception, name);
      }
      assert forall i | 0 <= i < |DENIALS| :: DENIALS[i] in DENIALS;
      assert IsAccessDenied(error.exception) <==> exists name | name in DENIALS :: EndsWith(error.exception, name);
    }
  }

  datatype FileInfo = FileInfo(size: nat, modificationTime: nat)

  datatype ListEntry = ListEntry(key: Bytes, size: nat, modificationTime: nat)

  /** One directory's children: files by key, directories by output. */
  datatype DirListing = DirListing(files: seq<ListEntry>, dirs: seq<Bytes>)

  /** Whether `key` names a direct child of the directory whose keys start with `dp`. */
  predicate ChildOf(dp: Bytes, key: Bytes) {
    dp <= key && |dp| < |key| && SLASH !in key[|dp|..]
  }

  lemma ChildHasNoSlash(dp: Bytes, key: Bytes)
    requires ChildOf(dp, key)
    ensures forall i | |dp| <= i < |key| :: key[i] != SLASH
  {
    forall i | |dp| <= i < |key|
      ensures key[i] != SLASH
    {
      assert key[|dp|..][i - |dp|] == key[i];
    }
  }

  /** Files and directories by their keys, and the directories whose listing fails, by
      their outputs (the empty string for the root). */
  datatype Namespace = Namespace(files: map<Bytes, FileInfo>, dirs: set<Bytes>, errors: map<Bytes, HdfsError>) {
    ghost predicate Valid() {
      && (forall k | k in files.Keys + dirs :: Canonical(k))
      && files.Keys !! dirs
      && (forall k, i | k in files.Keys + dirs && 0 <= i < |k| && k[i] == SLASH :: k[..i] in dirs)
    }

    /** `dp` is the output of a directory, or empty for the root. */
    predicate IsDirPart(dp: Bytes) {
      dp == [] || (dp[|dp| - 1] == SLASH && dp[..|dp| - 1] in dirs)
    }

    function Entry(k: Bytes): ListEntry
      requires k in files
    {
      ListEntry(k, files[k].size, files[k].modificationTime)
    }
  }

  /** `l` is the sorted, split listing of the directory whose keys start with `dp`. */
  ghost predicate IsListing(ns: Namespace, dp: Bytes, l: DirListing) {
    && (forall i, j | 0 <= i < j < |l.files| :: Lt(l.files[i].key, l.files[j].key))
    && (forall i | 0 <= i < |l.files| :: l.files[i].key in ns.files && l.files[i] == ns.Entry(l.files[i].key)
                                          && ChildOf(dp, l.files[i].key))
    && (forall k | k in ns.files && ChildOf(dp, k) :: ns.Entry(k) in l.files)
    && OutputSorted(l.dirs)
    && (forall d :: d in l.dirs <==> d in ns.dirs && ChildOf(dp, d))
  }

  /** `r` is the answer to listing the directory whose keys start with `dp`. */
  ghost predicate IsAnswer(ns: Namespace, dp: Bytes, r: Result<DirListing, HdfsError>) {
    if dp in ns.errors then r == Err(ns.errors[dp])
    else if ns.IsDirPart(dp) then r.Ok? && IsListing(ns, dp, r.value)
    else r == Err(FileNotFound)
  }

  /** The answer is unique: whoever lists the directory gets the same listing. */
  lemma AnswerUnique(ns: Namespace, dp: Bytes, r: Result<DirListing, HdfsError>, s: Result<DirListing, HdfsError>)
    requires IsAnswer(ns, dp, r) && IsAnswer(ns, dp, s)
    ensures r == s
  {
    if r.Ok? {
      EntriesUnique(ns, dp, r.value, s.value);
      OutputsUnique(r.value.dirs, s.value.dirs);
    }
  }

  lemma EntriesUnique(ns: Namespace, dp: Bytes, l: DirListing, l': DirListing)
    requires IsListing(ns, dp, l) && IsListing(ns, dp, l')
    ensures l.files == l'.files
  {
    hide Lt, OutputSorted, Canonical, SortedSet;
    var keys := seq(|l.files|, i requires 0 <= i < |l.files| => l.files[i].key);
    var keys' := seq(|l'.files|, i requires 0 <= i < |l'.files| => l'.files[i].key);
    forall x
      ensures x in keys <==> x in ns.files && ChildOf(dp, x)
      ensures x in keys' <==> x in ns.files && ChildOf(dp, x)
    {
      if x in ns.files && ChildOf(dp, x) {
        var e := ns.Entry(x);
        var i :| 0 <= i < |l.files| && l.files[i] == e;
        var i' :| 0 <= i' < |l'.files| && l'.files[i'] == e;
        assert keys[i] == x && keys'[i'] == x;
      }
    }
    SortedUnique(keys, keys');
    assert forall i | 0 <= i < |l.files| :: l.files[i].key == keys[i] == keys'[i] == l'.files[i].key;
  }

  lemma OutputsUnique(a: seq<Bytes>, b: seq<Bytes>)
    requires OutputSorted(a) && OutputSorted(b) && forall d :: d in a <==> d in b
    ensures a == b
  {
    var x := seq(|a|, i requires 0 <= i < |a| => DirOut(a[i]));
    var y := seq(|b|, i requires 0 <= i < |b| => DirOut(b[i]));
    forall u
      ensures u in x <==> u in y
    {
      if u in x {
        var i :| 0 <= i < |x| && x[i] == u;
        assert a[i] in a;
        var j :| 0 <= j < |b| && b[j] == a[i];
        assert y[j] == u;
      }
      if u in y {
        var i :| 0 <= i < |y| && y[i] == u;
        assert b[i] in b;
        var j :| 0 <= j < |a| && a[j] == b[i];
        assert x[j] == u;
      }
    }
    SortedUnique(x, y);
    forall i | 0 <= i < |a|
      ensures a[i] == b[i]
    {
      assert x[i] == y[i];
      assert a[i] == DirOut(a[i])[..|a[i]|] && b[i] == DirOut(b[i])[..|b[i]|];
    }
  }

  /** The children of one directory do not lie below one another. */
  lemma ChildrenAreSiblings(ns: Namespace, dp: Bytes, l: DirListing)
    requires IsListing(ns, dp, l)
    ensures Siblings(l.dirs)
  {
    forall i, j | 0 <= i < |l.dirs| && 0 <= j < |l.dirs| && i != j
      ensures !(DirOut(l.dirs[i]) <= DirOut(l.dirs[j]))
    {
      var c, d := l.dirs[i], l.dirs[j];
      assert c in l.dirs && d in l.dirs;
      if DirOut(c) <= DirOut(d) {
        NestedOutputs(c, d);
        if c == d {
          LtIrreflexive(DirOut(c));
        } else {
          ChildHasNoSlash(dp, d);
        }
      }
    }
  }

  /** A directory's output starts with another's when they are equal or nested. */
  lemma NestedOutputs(c: Bytes, d: Bytes)
    requires DirOut(c) <= DirOut(d)
    ensures c == d || (|c| < |d| && DirOut(c) <= d && d[|c|] == SLASH)
  {
    if |c| == |d| {
      assert c == DirOut(c)[..|c|] && d == DirOut(d)[..|c|];
    } else {
      assert DirOut(c) == DirOut(d)[..|c| + 1] == d[..|c| + 1];
    }
  }
}
