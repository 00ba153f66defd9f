/** The request with its checks and tokens, and the whole listing a client collects by
    following the tokens. */
module ClientWalk {
  import opened ByteStrings
  import opened Sorting
  import opened Paths
  import opened Namespaces
  import opened Merge
  import opened DirLister
  import opened SortedListings
  import opened FlatListing
  import opened Pagination
  import opened Grouping
  import opened Tokens
  import opened ListObjects

  datatype S3Error = NoSuchBucket | InvalidArgument | InvalidToken | Upstream(error: HdfsError)

  datatype Input = Input(bucket: Bytes, prefix: Option<Bytes>, delimiter: Option<Bytes>, maxKeys: Option<int>,
                         continuationToken: Option<Bytes>, startAfter: Option<Bytes>)

  datatype Output = Output(contents: seq<ListEntry>, commonPrefixes: seq<Bytes>, isTruncated: bool,
                           nextContinuationToken: Option<Bytes>, keyCount: nat, maxKeys: nat)

  function Prefix(input: Input): Bytes {
    if input.prefix.Some? then input.prefix.value else []
  }

  function MaxKeys(input: Input): int {
    if input.maxKeys.Some? then input.maxKeys.value else 1000
  }

  /** Where the listing resumes; `None` inside when the token does not decode. */
  function ResumeAt(input: Input): Option<Option<Bytes>> {
    match input.continuationToken
    case None => Some(input.startAfter)
    case Some(t) => match DecodeToken(t)
      case None => None
      case Some(k) => Some(Some(k))
  }

  function ToOutput(page: Page, maxKeys: nat): Output {
    Output(page.contents, page.commonPrefixes, page.isTruncated && page.nextToken.Some?,
           if page.nextToken.Some? then Some(EncodeToken(page.nextToken.value)) else None,
           |page.contents| + |page.commonPrefixes|, maxKeys)
  }

  function Respond(answer: Result<Page, HdfsError>, maxKeys: nat): Result<Output, S3Error> {
    match answer
    case Ok(page) => Ok(ToOutput(page, maxKeys))
    case Err(e) => Err(Upstream(e))
  }

  /** What the request is answered with. */
  ghost predicate IsResponse(ns: Namespace, m: PathMapper, bucket: Bytes, input: Input, r: Result<Output, S3Error>) {
    if input.bucket != bucket then r == Err(NoSuchBucket)
    else if MaxKeys(input) < 0 then r == Err(InvalidArgument)
    else if ResumeAt(input).None? then r == Err(InvalidToken)
    else exists answer | IsListed(ns, m, Prefix(input), Effective(input.delimiter), ResumeAt(input).value,
                                  MaxKeys(input), answer) ::
           r == Respond(answer, MaxKeys(input))
  }

  /** A request has one response, so no response depends on what is cached. */
  lemma ResponseUnique(ns: Namespace, m: PathMapper, bucket: Bytes, input: Input, r: Result<Output, S3Error>,
                       s: Result<Output, S3Error>)
    requires IsResponse(ns, m, bucket, input, r) && IsResponse(ns, m, bucket, input, s)
    ensures r == s
  {
    hide IsListed, DecodeToken;
    if input.bucket == bucket && MaxKeys(input) >= 0 && ResumeAt(input).Some? {
      var d, marker := Effective(input.delimiter), ResumeAt(input).value;
      var a :| IsListed(ns, m, Prefix(input), d, marker, MaxKeys(input), a) && r == Respond(a, MaxKeys(input));
      var b :| IsListed(ns, m, Prefix(input), d, marker, MaxKeys(input), b) && s == Respond(b, MaxKeys(input));
      ListedUnique(ns, m, Prefix(input), d, marker, MaxKeys(input), a, b);
    }
  }

  /** `list_objects_v2`. */
  method ListObjectsV2(lister: HdfsDirLister, mapper: PathMapper, bucket: Bytes, input: Input)
    returns (r: Result<Output, S3Error>)
    requires lister.Valid() && mapper == lister.mapper && |lister.ns.files| <= USIZE_MAX
    modifies lister`listed, lister.cache
    ensures lister.Valid()
    ensures IsResponse(lister.ns, mapper, bucket, input, r)
  {
    hide IsListed;
    if input.bucket != bucket {
      return Err(NoSuchBucket);
    }
    var prefix := Prefix(input);
    var delimiter := Effective(input.delimiter);
    var maxKeys := MaxKeys(input);
    if maxKeys < 0 {
      return Err(InvalidArgument);
    }
    var startAfter := input.startAfter;
    if input.continuationToken.Some? {
      var decoded := DecodeToken(input.continuationToken.value);
      if decoded.None? {
        return Err(InvalidToken);
      }
      startAfter := decoded;
    }
    var answer := ListPage(lister, mapper, prefix, delimiter, startAfter, maxKeys);
    r := Respond(answer, maxKeys);
  }

  // ----- The reference listing

  /** The prefix up to its last slash. */
  function PrefixDir(prefix: Bytes): Bytes {
    match LastSlash(prefix)
    case None => []
    case Some(i) => prefix[..i + 1]
  }

  /** Everything a listing of the prefix shows: contents and common prefixes. */
  ghost function Shown(ns: Namespace, prefix: Bytes, delimiter: Option<Bytes>): set<Bytes> {
    AllContents(ns, prefix, delimiter) + AllCommon(ns, PrefixDir(prefix), prefix, delimiter)
  }

  /** What a listing can see of the namespace: for `/` all of it, else what is not below a
      directory that cannot be listed. */
  ghost function Seen(ns: Namespace, prefix: Bytes, delimiter: Option<Bytes>): Namespace {
    Listable(ns, PrefixDir(prefix), delimiter)
  }

  /** The whole listing, for a delimiter as requested. */
  ghost function Everything(ns: Namespace, prefix: Bytes, delimiter: Option<Bytes>): set<Bytes> {
    Shown(Seen(ns, prefix, Effective(delimiter)), prefix, Effective(delimiter))
  }

  /** A matching file the request can reach. */
  ghost predicate Reached(ns: Namespace, prefix: Bytes, delimiter: Option<Bytes>, k: Bytes) {
    k in ns.files && prefix <= k && (delimiter == SLASH_DELIMITER || Visible(ns, PrefixDir(prefix), k))
  }

  /** The listing in plain terms: the files without a delimiter after the prefix, what the
      others have up to and with their first one, and for `/` the directories right below
      the prefix. No delimiter and the empty one part nothing. */
  lemma EverythingIs(ns: Namespace, prefix: Bytes, delimiter: Option<Bytes>, u: Bytes)
    requires ns.Valid()
    ensures u in Everything(ns, prefix, delimiter) <==>
              if delimiter.None? || delimiter.value == [] then Reached(ns, prefix, delimiter, u)
              else
                var d := delimiter.value;
                || (Reached(ns, prefix, delimiter, u) && Nowhere(u[|prefix|..], d))
                || (exists k | Reached(ns, prefix, delimiter, k) :: UpToFirst(k, prefix, d, u))
                || (delimiter == SLASH_DELIMITER &&
                    exists dir | dir in ns.dirs && prefix <= dir && Nowhere(dir[|prefix|..], d) :: u == DirOut(dir))
  {
    hide Collapse, Namespace.Valid, UpToFirst, Nowhere, Visible;
    var files := Seen(ns, prefix, Effective(delimiter)).files.Keys;
    if delimiter.None? || delimiter.value == [] {
      WithoutDelimiter(files, prefix, None);
    } else {
      var d := delimiter.value;
      CommonPrefixesAre(files, prefix, d, u);
      ContentKeysAre(files, prefix, d, u);
      assert forall k | UpToFirst(k, prefix, d, u) :: k in files <==> Reached(ns, prefix, delimiter, k) by {
        StartsWithPrefix(prefix, d, u);
      }
      if delimiter == SLASH_DELIMITER { DirectoriesShown(ns, prefix, u); }
    }
  }

  lemma StartsWithPrefix(prefix: Bytes, d: Bytes, u: Bytes)
    ensures forall k | UpToFirst(k, prefix, d, u) :: prefix <= k
  {
  }

  lemma PrefixWithinDir(prefix: Bytes)
    ensures var dp := PrefixDir(prefix);
            WithinDir(dp, prefix) && (dp == [] || dp[|dp| - 1] == SLASH)
  {
    var dp := PrefixDir(prefix);
    forall i | |dp| <= i < |prefix|
      ensures prefix[i] != SLASH
    {
      assert prefix[|dp|..][i - |dp|] == prefix[i];
      assert dp == [] ==> prefix[0..] == prefix;
    }
  }

  /** A directory right below the prefix is one of the prefix's directory's children. */
  lemma RightBelow(ns: Namespace, prefix: Bytes, dir: Bytes)
    requires ns.Valid() && dir in ns.dirs && prefix <= dir
    ensures Nowhere(dir[|prefix|..], [SLASH]) <==> ChildOf(PrefixDir(prefix), dir)
  {
    hide LastSlash, Canonical;
    var dp := PrefixDir(prefix);
    PrefixWithinDir(prefix);
    PrefixTransitive(dp, prefix, dir);
    assert dir != dp by { CanonicalShape(dir); }
    if ChildOf(dp, dir) {
      ChildHasNoSlash(dp, dir);
      NoSlashNoCollapse(dir, prefix);
      FindIff(dir[|prefix|..], [SLASH], 0);
    }
    if Nowhere(dir[|prefix|..], [SLASH]) {
      forall i | |dp| <= i < |dir|
        ensures dir[i] != SLASH
      {
        if i < |prefix| {
          assert dir[i] == prefix[i];
        } else {
          SlashOccurs(dir[|prefix|..], i - |prefix|);
        }
      }
    }
  }

  lemma DirectoriesShown(ns: Namespace, prefix: Bytes, u: Bytes)
    requires ns.Valid()
    ensures u in CommonPrefixes(ns.files.Keys, prefix, SLASH_DELIMITER) + EmptyDirs(ns, PrefixDir(prefix), prefix) <==>
              || u in CommonPrefixes(ns.files.Keys, prefix, SLASH_DELIMITER)
              || exists dir | dir in ns.dirs && prefix <= dir && Nowhere(dir[|prefix|..], [SLASH]) :: u == DirOut(dir)
  {
    hide Collapse, Namespace.Valid, Nowhere, ChildOf;
    var dp := PrefixDir(prefix);
    forall dir | dir in ns.dirs && prefix <= dir
      ensures Nowhere(dir[|prefix|..], [SLASH]) <==> ChildOf(dp, dir)
    {
      RightBelow(ns, prefix, dir);
    }
    PrefixWithinDir(prefix);
    if dir :| dir in ns.dirs && prefix <= dir && Nowhere(dir[|prefix|..], [SLASH]) && u == DirOut(dir) {
      if k :| k in ns.files && DirOut(dir) <= k {
        BelowChildIsGrouped(dp, prefix, dir, k);
      } else {
        assert u in EmptyDirs(ns, dp, prefix);
      }
    }
  }

  /** The start directory does not fail, and unless the delimiter is `/` every failing
      directory that matches the prefix is denied or vanished. */
  ghost predicate Serviceable(ns: Namespace, m: PathMapper, prefix: Bytes, delimiter: Option<Bytes>) {
    && (m.ListStart(prefix).Some? ==> DirPart(m, m.ListStart(prefix).value) !in ns.errors)
    && (delimiter == SLASH_DELIMITER
        || forall d | d in ns.dirs && prefix <= d && DirOut(d) in ns.errors :: Skippable(ns.errors[DirOut(d)]))
  }

  lemma StartIsPrefixDir(sp: Bytes, prefix: Bytes)
    requires StartsAt(sp, prefix)
    ensures sp == PrefixDir(prefix)
  {
    NoSlashAfterStart(sp, prefix);
    if sp == [] {
      assert prefix[0..] == prefix;
    } else {
      assert prefix[|sp| - 1] == sp[|sp| - 1];
      LastSlashIs(prefix, |sp| - 1);
    }
  }

  /** A start directory that does not exist has no key below it. */
  lemma NoStartNoKeys(ns: Namespace, sp: Bytes, prefix: Bytes, delimiter: Option<Bytes>)
    requires ns.Valid() && StartsAt(sp, prefix) && !ns.IsDirPart(sp)
    ensures AllContents(ns, prefix, delimiter) == {} && AllCommon(ns, sp, prefix, delimiter) == {}
  {
    hide Collapse, Canonical;
    forall k | k in ns.files.Keys + ns.dirs
      ensures !(prefix <= k)
    {
      if prefix <= k {
        PrefixTransitive(sp, prefix, k);
        LastOfStart(sp, k);
      }
    }
  }

  lemma LastOfStart(sp: Bytes, k: Bytes)
    requires sp <= k && sp != []
    ensures k[|sp| - 1] == sp[|sp| - 1] && k[..|sp| - 1] == sp[..|sp| - 1]
  {
  }

  lemma SeenIsValid(ns: Namespace, sp: Bytes, delimiter: Option<Bytes>)
    requires ns.Valid()
    ensures Listable(ns, sp, delimiter).Valid()
    ensures Listable(ns, sp, delimiter).files.Keys <= ns.files.Keys && Listable(ns, sp, delimiter).dirs <= ns.dirs
  {
    PrunedIsValid(ns, sp);
  }

  /** With every directory listable the whole namespace is seen. */
  lemma WithoutErrorsAllIsSeen(ns: Namespace, prefix: Bytes, delimiter: Option<Bytes>)
    requires ns.errors == map[]
    ensures Seen(ns, prefix, delimiter) == ns
  {
    var p := Pruned(ns, PrefixDir(prefix));
    assert p.files == ns.files && p.dirs == ns.dirs;
  }

  /** Where every failure is passed over the answer is the reference listing's page of what
      can be seen, for every prefix but exactly `.` and `..`. */
  lemma AnswerIsReference(ns: Namespace, m: PathMapper, prefix: Bytes, delimiter: Option<Bytes>, marker: Option<Bytes>,
                          maxKeys: nat, r: Result<Page, HdfsError>)
    requires ns.Valid() && m.Valid() && Serviceable(ns, m, prefix, delimiter) && prefix != [DOT] && prefix != [DOT, DOT]
    requires IsListed(ns, m, prefix, delimiter, marker, maxKeys, r)
    ensures r.Ok? && Accurate(ns, r.value)
    ensures var seen := Seen(ns, prefix, delimiter);
            HasPage(r.value, Marked(AllContents(seen, prefix, delimiter), marker),
                             Marked(AllCommon(seen, PrefixDir(prefix), prefix, delimiter), marker), maxKeys)
  {
    hide Lt, Collapse, HasPage, WantedItems, Unmatched, PathMapper.ListStart, Visible, Namespace.Valid;
    var seen := Seen(ns, prefix, delimiter);
    SeenIsValid(ns, PrefixDir(prefix), delimiter);
    if m.ListStart(prefix).None? {
      NoStartUnmatched(m, prefix);
      UnmatchedIsEmpty(seen, PrefixDir(prefix), prefix, delimiter, marker);
      EmptyAnswer(maxKeys, marker);
    } else {
      var sp := StartOf(m, prefix);
      if maxKeys == 0 && delimiter != SLASH_DELIMITER {
        NoKeysWanted(Marked(AllContents(seen, prefix, delimiter), marker),
                     Marked(AllCommon(seen, PrefixDir(prefix), prefix, delimiter), marker));
      } else {
        if Unmatched(prefix) {
          SeenIsValid(ns, sp, delimiter);
          UnmatchedIsEmpty(Listable(ns, sp, delimiter), sp, prefix, delimiter, marker);
          UnmatchedIsEmpty(seen, PrefixDir(prefix), prefix, delimiter, marker);
        } else {
          StartIsPrefixDir(sp, prefix);
        }
        if !StartOpens(ns, sp) {
          if !Unmatched(prefix) { NoStartNoKeys(seen, sp, prefix, delimiter); }
          EmptyAnswer(maxKeys, marker);
        } else if delimiter != SLASH_DELIMITER {
          NoFailureReached(ns, Query(sp, prefix, marker), if delimiter.None? then maxKeys else USIZE_MAX);
        }
      }
    }
  }

  lemma NoStartUnmatched(m: PathMapper, prefix: Bytes)
    requires m.Valid() && m.ListStart(prefix).None? && prefix != [DOT] && prefix != [DOT, DOT]
    ensures Unmatched(prefix)
  {
    ListStartLosslessIff(m, prefix);
    forall k | Canonical(k)
      ensures !(prefix <= k) && !(prefix <= DirOut(k))
    {
      PrefixOfOutputEither(prefix, k);
      if prefix == DirOut(k) {
        DirItem(k);
        ListStartCanonical(m, prefix, prefix);
      }
    }
  }

  lemma PrefixOfOutputEither(prefix: Bytes, k: Bytes)
    ensures prefix <= DirOut(k) ==> prefix <= k || prefix == DirOut(k)
  {
    if prefix <= DirOut(k) { PrefixOfOutput(prefix, k); }
  }

  lemma EmptyAnswer(maxKeys: nat, marker: Option<Bytes>)
    ensures HasPage(EMPTY_PAGE, Marked({}, marker), Marked({}, marker), maxKeys)
  {
    assert Marked({}, marker) == {};
    EmptyPageHas(maxKeys);
  }

  lemma NoKeysWanted(C: set<Bytes>, P: set<Bytes>)
    ensures HasPage(EMPTY_PAGE, C, P, 0)
  {
  }

  lemma NoFailureReached(ns: Namespace, q: Query, limit: nat)
    requires ns.Valid()
    requires forall d | d in ns.dirs && q.prefix <= d && DirOut(d) in ns.errors :: Skippable(ns.errors[DirOut(d)])
    ensures !WalkFails(ns, q, limit)
  {
    hide Clear, BeforeCut, Skippable, Namespace.Valid;
    forall u | u in WantedItems(ns, q)
      ensures !Fatal(ns, u)
    {
      if IsDirItem(u) {
        assert DirOut(DirOf(u)) == u;
      }
    }
  }

  // ----- Which failures fail the request

  ghost function Below(S: set<Bytes>, u: Bytes): set<Bytes> {
    set k | k in S && Lt(k, u)
  }

  /** The matching files past the marker that the walk can reach. */
  ghost function ReachedPast(ns: Namespace, prefix: Bytes, marker: Option<Bytes>): set<Bytes> {
    set k | k in ns.files && prefix <= k && Past(marker, k) && Visible(ns, PrefixDir(prefix), k)
  }

  /** Directory `d` fails a walk for `limit` keys: it matches the prefix, can hold keys past
      the marker and is not below another failing one, its own failure is neither a denial nor
      a deletion, and no more than `limit` keys come before it. */
  ghost predicate Breaks(ns: Namespace, prefix: Bytes, marker: Option<Bytes>, limit: nat, d: Bytes) {
    && d in ns.dirs && prefix <= d && Reaches(marker, d) && Visible(ns, PrefixDir(prefix), DirOut(d))
    && DirOut(d) in ns.errors && !Skippable(ns.errors[DirOut(d)])
    && |Below(ReachedPast(ns, prefix, marker), DirOut(d))| <= limit
  }

  lemma BeforeCutIff(ns: Namespace, q: Query, limit: nat, u: Bytes)
    requires u !in WantedFiles(ns, q)
    ensures BeforeCut(ns, q, limit, u) <==> |Below(WantedFiles(ns, q), u)| <= limit
  {
    hide Lt, WantedItems, SortedSet;
    var S, keys := WantedFiles(ns, q), Keys(ns, q);
    var below := Below(S, u);
    if |keys| <= limit {
      SubsetSize(below, S);
    } else if Lt(u, keys[limit]) {
      forall k | k in below
        ensures k in Elems(keys[..limit])
      {
        var i :| 0 <= i < |keys| && keys[i] == k;
        LtTransitive(k, u, keys[limit]);
        StrictlySortedIndex(keys, i, limit);
      }
      ElemsSize(keys[..limit]);
      SubsetSize(below, Elems(keys[..limit]));
    } else {
      assert keys[limit] in keys;
      LtTotal(u, keys[limit]);
      forall k | k in Elems(keys[..limit + 1])
        ensures k in below
      {
        var i :| 0 <= i < limit + 1 && keys[i] == k;
        assert k in keys;
        LeTransitive(k, keys[limit], u);
      }
      DistinctSize(keys[..limit + 1]);
      SubsetSize(Elems(keys[..limit + 1]), below);
    }
  }

  lemma StrictlySortedIndex(s: seq<Bytes>, i: nat, j: nat)
    requires StrictlySorted(s) && i < |s| && j < |s| && Lt(s[i], s[j])
    ensures i < j && s[i] in s[..j]
  {
    hide Lt;
    if i > j { LtAsymmetric(s[i], s[j]); }
    if i == j { LtIrreflexive(s[i]); }
    assert i < j ==> s[..j][i] == s[i];
  }

  lemma {:induction false} ElemsSize(s: seq<Bytes>)
    ensures |Elems(s)| <= |s|
  {
    if s != [] {
      var n := |s| - 1;
      ElemsSize(s[..n]);
      assert Elems(s) == Elems(s[..n]) + {s[n]} by { assert s == s[..n] + [s[n]]; }
    }
  }

  lemma {:induction false} DistinctSize(s: seq<Bytes>)
    requires StrictlySorted(s)
    ensures |Elems(s)| == |s|
  {
    if s != [] {
      hide Lt;
      var n := |s| - 1;
      DistinctSize(s[..n]);
      assert Elems(s) == Elems(s[..n]) + {s[n]} by { assert s == s[..n] + [s[n]]; }
      SortedDistinct(s);
    }
  }

  /** What the walk meets as fatal before its cut is what breaks the request. */
  lemma FatalIsBreak(ns: Namespace, sp: Bytes, prefix: Bytes, marker: Option<Bytes>, limit: nat, u: Bytes)
    requires ns.Valid() && (StartsAt(sp, prefix) || Unmatched(prefix))
    ensures var q := Query(sp, prefix, marker);
            (u in WantedItems(ns, q) && Fatal(ns, u) && BeforeCut(ns, q, limit, u)) <==>
              IsDirItem(u) && Breaks(ns, prefix, marker, limit, DirOf(u))
  {
    hide Lt, Skippable, Visible, Reaches, BeforeCut, Canonical;
    var q := Query(sp, prefix, marker);
    if IsDirItem(u) && DirOf(u) in ns.dirs && prefix <= DirOf(u) {
      var d := DirOf(u);
      assert DirOut(d) == u;
      StartIsPrefixDir(sp, prefix);
      WantedDirsAre(ns, q, d);
      WantedFilesAre(ns, q);
      assert WantedFiles(ns, q) == ReachedPast(ns, prefix, marker);
      BeforeCutIff(ns, q, limit, u);
    }
  }

  lemma WalkFailsIff(ns: Namespace, sp: Bytes, prefix: Bytes, marker: Option<Bytes>, limit: nat)
    requires ns.Valid() && (StartsAt(sp, prefix) || Unmatched(prefix))
    ensures WalkFails(ns, Query(sp, prefix, marker), limit) <==> exists d :: Breaks(ns, prefix, marker, limit, d)
  {
    hide Lt, Fatal, BeforeCut, WantedItems, Breaks, StartsAt, Unmatched, Namespace.Valid;
    var q := Query(sp, prefix, marker);
    if WalkFails(ns, q, limit) {
      var u :| u in WantedItems(ns, q) && Fatal(ns, u) && BeforeCut(ns, q, limit, u);
      FatalIsBreak(ns, sp, prefix, marker, limit, u);
    }
    if d :| Breaks(ns, prefix, marker, limit, d) {
      BreakIsItem(ns, sp, prefix, marker, limit, d);
    }
  }

  lemma BreakIsItem(ns: Namespace, sp: Bytes, prefix: Bytes, marker: Option<Bytes>, limit: nat, d: Bytes)
    requires ns.Valid() && (StartsAt(sp, prefix) || Unmatched(prefix)) && Breaks(ns, prefix, marker, limit, d)
    ensures var q := Query(sp, prefix, marker);
            DirOut(d) in WantedItems(ns, q) && Fatal(ns, DirOut(d)) && BeforeCut(ns, q, limit, DirOut(d))
  {
    hide Fatal, BeforeCut, WantedItems, Breaks, StartsAt, Unmatched, Namespace.Valid;
    assert IsDirItem(DirOut(d)) && DirOf(DirOut(d)) == d;
    FatalIsBreak(ns, sp, prefix, marker, limit, DirOut(d));
  }

  lemma FirstBreaks(ns: Namespace, sp: Bytes, prefix: Bytes, marker: Option<Bytes>, limit: nat, u: Bytes)
    requires ns.Valid() && (StartsAt(sp, prefix) || Unmatched(prefix))
    requires FirstFailure(ns, Query(sp, prefix, marker), limit, u)
    ensures IsDirItem(u) && DirOut(DirOf(u)) == u && Breaks(ns, prefix, marker, limit, DirOf(u))
    ensures forall d' | Breaks(ns, prefix, marker, limit, d') :: Le(u, DirOut(d'))
  {
    hide Lt, Fatal, BeforeCut, WantedItems, Breaks, StartsAt, Unmatched, Namespace.Valid;
    FatalIsBreak(ns, sp, prefix, marker, limit, u);
    forall d' | Breaks(ns, prefix, marker, limit, d')
      ensures Le(u, DirOut(d'))
    {
      BreakIsItem(ns, sp, prefix, marker, limit, d');
    }
  }

  /** Which failures the request answers with: that of its start, unless there is nothing,
      and for a walk the first directory's that breaks it. No other failure is one, and none
      of these is passed over. */
  lemma FailuresAre(ns: Namespace, m: PathMapper, prefix: Bytes, delimiter: Option<Bytes>, marker: Option<Bytes>,
                    maxKeys: nat, r: Result<Page, HdfsError>)
    requires ns.Valid() && m.Valid() && IsListed(ns, m, prefix, delimiter, marker, maxKeys, r)
    requires m.ListStart(prefix).Some? && (maxKeys > 0 || delimiter == SLASH_DELIMITER)
    ensures var sp := DirPart(m, m.ListStart(prefix).value);
            var limit := if delimiter.None? then maxKeys else USIZE_MAX;
            if sp in ns.errors then r == if ns.errors[sp] == FileNotFound then Ok(EMPTY_PAGE) else Err(ns.errors[sp])
            else if !ns.IsDirPart(sp) then r == Ok(EMPTY_PAGE)
            else if delimiter == SLASH_DELIMITER then r.Ok?
            else
              && (r.Err? <==> exists d :: Breaks(ns, prefix, marker, limit, d))
              && (r.Err? ==> exists d | Breaks(ns, prefix, marker, limit, d) ::
                    && r.error == ns.errors[DirOut(d)]
                    && forall d' | Breaks(ns, prefix, marker, limit, d') :: Le(DirOut(d), DirOut(d')))
  {
    hide Lt, WalkFails, FirstFailure, Breaks, PathMapper.ListStart, StartsAt, Unmatched, Namespace.Valid,
        IsReferencePage;
    var sp := StartOf(m, prefix);
    var limit := if delimiter.None? then maxKeys else USIZE_MAX;
    WalkFailsIff(ns, sp, prefix, marker, limit);
    if sp !in ns.errors && ns.IsDirPart(sp) && delimiter != SLASH_DELIMITER && r.Err? {
      var u :| u in ns.errors && ns.errors[u] == r.error && FirstFailure(ns, Query(sp, prefix, marker), limit, u);
      FirstBreaks(ns, sp, prefix, marker, limit, u);
    }
  }

  // ----- What a response says

  /** The errors of the request itself, in their order: another bucket, a negative page size,
      a token that is neither form of a key. */
  lemma ErrorsAre(ns: Namespace, m: PathMapper, bucket: Bytes, input: Input, r: Result<Output, S3Error>)
    requires IsResponse(ns, m, bucket, input, r)
    ensures r == Err(NoSuchBucket) <==> input.bucket != bucket
    ensures r == Err(InvalidArgument) <==> input.bucket == bucket && input.maxKeys.Some? && input.maxKeys.value < 0
    ensures r == Err(InvalidToken) <==>
              && input.bucket == bucket && !(input.maxKeys.Some? && input.maxKeys.value < 0)
              && input.continuationToken.Some?
              && forall k | ValidUtf8(k) ::
                   input.continuationToken.value != EncodeToken(k) && input.continuationToken.value != EncodeStandard(k)
  {
    hide IsListed, DecodeToken, EncodeToken, EncodeStandard, ValidUtf8;
    if input.continuationToken.Some? {
      var t := input.continuationToken.value;
      forall k
        ensures DecodeToken(t) == Some(k) <==> ValidUtf8(k) && (t == EncodeToken(k) || t == EncodeStandard(k))
      {
        DecodeTokenIff(t, k);
      }
      if DecodeToken(t).Some? { assert DecodeToken(t) == Some(DecodeToken(t).value); }
    }
  }

  lemma SameRequest(ns: Namespace, m: PathMapper, bucket: Bytes, input: Input, input': Input,
                    r: Result<Output, S3Error>)
    requires IsResponse(ns, m, bucket, input, r) && input.bucket == input'.bucket && Prefix(input) == Prefix(input')
    requires Effective(input.delimiter) == Effective(input'.delimiter) && MaxKeys(input) == MaxKeys(input')
    requires ResumeAt(input) == ResumeAt(input')
    ensures IsResponse(ns, m, bucket, input', r)
  {
    hide IsListed, Effective, ResumeAt, Prefix;
  }

  /** What a request leaves out: the prefix is empty, the page size 1000, an empty delimiter
      is none, and a token stands for the key to start after. */
  lemma DefaultsAre(ns: Namespace, m: PathMapper, bucket: Bytes, input: Input, k: Bytes, r: Result<Output, S3Error>)
    requires IsResponse(ns, m, bucket, input, r)
    ensures input.prefix.None? ==> IsResponse(ns, m, bucket, input.(prefix := Some([])), r)
    ensures input.maxKeys.None? ==> IsResponse(ns, m, bucket, input.(maxKeys := Some(1000)), r)
    ensures input.delimiter == Some([]) ==> IsResponse(ns, m, bucket, input.(delimiter := None), r)
    ensures ValidUtf8(k) && input.continuationToken == Some(EncodeToken(k)) ==>
              IsResponse(ns, m, bucket, input.(continuationToken := None, startAfter := Some(k)), r)
  {
    hide IsListed, DecodeToken, EncodeToken, EncodeStandard, ValidUtf8;
    DecodeTokenIff(EncodeToken(k), k);
    if input.prefix.None? { SameRequest(ns, m, bucket, input, input.(prefix := Some([])), r); }
    if input.maxKeys.None? { SameRequest(ns, m, bucket, input, input.(maxKeys := Some(1000)), r); }
    if input.delimiter == Some([]) { SameRequest(ns, m, bucket, input, input.(delimiter := None), r); }
    if ValidUtf8(k) && input.continuationToken == Some(EncodeToken(k)) {
      SameRequest(ns, m, bucket, input, input.(continuationToken := None, startAfter := Some(k)), r);
    }
  }

  /** A page holds, each in order, the first of what is left past the marker; it counts them,
      and says whether, and from where, there is more. */
  lemma ResponseSays(ns: Namespace, m: PathMapper, bucket: Bytes, input: Input, r: Result<Output, S3Error>)
    requires ns.Valid() && m.Valid() && IsResponse(ns, m, bucket, input, r)
    requires input.bucket == bucket && MaxKeys(input) >= 0 && ResumeAt(input).Some?
    requires Serviceable(ns, m, Prefix(input), Effective(input.delimiter))
    requires Prefix(input) != [DOT] && Prefix(input) != [DOT, DOT]
    ensures r.Ok? && r.value.maxKeys == MaxKeys(input)
    ensures var o := r.value;
            var left := Marked(Everything(ns, Prefix(input), input.delimiter), ResumeAt(input).value);
            var served := Taken(left, o.maxKeys);
            && StrictlySorted(KeysOf(o.contents)) && StrictlySorted(o.commonPrefixes)
            && (forall x :: x in served <==> x in KeysOf(o.contents) || x in o.commonPrefixes)
            && o.keyCount == |o.contents| + |o.commonPrefixes| == |served|
            && (o.isTruncated <==> 0 < o.maxKeys < |left|)
            && o.nextContinuationToken == if o.isTruncated then Some(EncodeToken(served[o.maxKeys - 1])) else None
  {
    hide IsListed, Lt, HasPage, DecodeToken, EncodeToken, Serviceable, AllContents, AllCommon, Taken, Listable,
        Namespace.Valid, PathMapper.Valid;
    var d, marker, prefix := Effective(input.delimiter), ResumeAt(input).value, Prefix(input);
    var answer :| IsListed(ns, m, prefix, d, marker, MaxKeys(input), answer) && r == Respond(answer, MaxKeys(input));
    AnswerIsReference(ns, m, prefix, d, marker, MaxKeys(input), answer);
    var seen := Seen(ns, prefix, d);
    var C, P := AllContents(seen, prefix, d), AllCommon(seen, PrefixDir(prefix), prefix, d);
    assert Marked(C, marker) + Marked(P, marker) == Marked(C + P, marker);
    ContentsAreNotCommon(seen, prefix, d);
    PageSays(answer.value, Marked(C, marker), Marked(P, marker), MaxKeys(input));
  }

  lemma ContentsAreNotCommon(ns: Namespace, prefix: Bytes, delimiter: Option<Bytes>)
    ensures AllContents(ns, prefix, delimiter) !! AllCommon(ns, PrefixDir(prefix), prefix, delimiter)
  {
    hide Collapse, PrefixDir;
    forall p | p in AllCommon(ns, PrefixDir(prefix), prefix, delimiter)
      ensures !IsContent(p, prefix, delimiter)
    {
      if p in CommonPrefixes(ns.files.Keys, prefix, delimiter) {
        var k :| k in ns.files.Keys && IsGrouped(k, prefix, delimiter) && Collapse(k, prefix, delimiter).value == p;
        CollapseShape(k, prefix, delimiter);
      } else {
        var dir :| dir in ns.dirs && ChildOf(PrefixDir(prefix), dir) && prefix <= dir && DirOut(dir) == p;
        OutputIsNoContent(dir, prefix);
      }
    }
  }

  lemma OutputIsNoContent(dir: Bytes, prefix: Bytes)
    requires prefix <= dir
    ensures !IsContent(DirOut(dir), prefix, SLASH_DELIMITER)
  {
    var rest := DirOut(dir)[|prefix|..];
    assert rest[|rest| - 1] == SLASH;
    SlashOccurs(rest, |rest| - 1);
  }

  /** The same for a page of contents `C` and common prefixes `P`. */
  lemma PageSays(page: Page, C: set<Bytes>, P: set<Bytes>, maxKeys: nat)
    requires HasPage(page, C, P, maxKeys) && C !! P
    ensures var served, o := Taken(C + P, maxKeys), ToOutput(page, maxKeys);
            && StrictlySorted(KeysOf(o.contents)) && StrictlySorted(o.commonPrefixes)
            && (forall x :: x in served <==> x in KeysOf(o.contents) || x in o.commonPrefixes)
            && o.keyCount == |o.contents| + |o.commonPrefixes| == |served|
            && (o.isTruncated <==> 0 < maxKeys < |C + P|)
            && o.nextContinuationToken == if o.isTruncated then Some(EncodeToken(served[maxKeys - 1])) else None
  {
    hide Lt, Filter, Taken, EncodeToken;
    var served := Taken(C + P, maxKeys);
    TakenLength(C + P, maxKeys);
    TakenIsSorted(C + P, maxKeys);
    if maxKeys > 0 {
      FilterSorted(served, InSet(C));
      FilterSorted(served, InSet(P));
      FilterParts(served, C, P);
    }
  }

  /** Each element is kept by exactly one of two complementary filters. */
  lemma {:induction false} FilterParts(s: seq<Bytes>, C: set<Bytes>, P: set<Bytes>)
    requires C !! P && forall x | x in s :: x in C + P
    ensures |Filter(s, InSet(C))| + |Filter(s, InSet(P))| == |s|
    ensures forall x :: x in s <==> x in Filter(s, InSet(C)) || x in Filter(s, InSet(P))
  {
    if s != [] {
      var init, last := s[..|s| - 1], s[|s| - 1];
      assert s == init + [last] && last in s;
      FilterParts(init, C, P);
      hide Filter;
      FilterSnoc(init, last, InSet(C));
      FilterSnoc(init, last, InSet(P));
    }
  }

  // ----- Walking the pages

  /** A page's contents and common prefixes, interleaved in order. */
  ghost function Outputs(contents: seq<ListEntry>, commonPrefixes: seq<Bytes>): seq<Bytes> {
    SortedSet(Elems(KeysOf(contents)) + Elems(commonPrefixes))
  }

  lemma OutputsAreTaken(page: Page, C: set<Bytes>, P: set<Bytes>, maxKeys: nat)
    requires HasPage(page, C, P, maxKeys) && maxKeys > 0
    ensures Outputs(page.contents, page.commonPrefixes) == Taken(C + P, maxKeys)
  {
    hide Lt, SortedSet, Taken, StrictlySorted;
    var taken := Taken(C + P, maxKeys);
    TakenIsSorted(C + P, maxKeys);
    SortedUnique(taken, Outputs(page.contents, page.commonPrefixes));
  }

  lemma TakenIsSorted(S: set<Bytes>, maxKeys: nat)
    ensures StrictlySorted(Taken(S, maxKeys))
    ensures forall x | x in Taken(S, maxKeys) :: x in S
  {
    hide Lt;
    forall x | x in Taken(S, maxKeys)
      ensures x in S
    {
      assert x in SortedSet(S);
    }
  }

  /** The last output of a cut page parts what was served from what is left. */
  lemma CutContinues(all: set<Bytes>, marker: Option<Bytes>, maxKeys: nat)
    requires maxKeys > 0 && |Marked(all, marker)| > maxKeys
    ensures var served := Taken(Marked(all, marker), maxKeys);
            var rest := Marked(all, Some(served[maxKeys - 1]));
            && SortedSet(Marked(all, marker)) == served + SortedSet(rest)
            && |Marked(all, marker)| == maxKeys + |rest|
  {
    hide Lt, InitialRun, SortedSet, Taken;
    var S := Marked(all, marker);
    var served := Taken(S, maxKeys);
    TakenLength(S, maxKeys);
    var last := served[maxKeys - 1];
    TakenIsInitialRun(S, maxKeys);
    InitialRunIsPrefix(served, S);
    forall x
      ensures x in S - Elems(served) <==> x in Marked(all, Some(last))
    {
      LastParts(all, marker, served, x);
    }
    assert S - Elems(served) == Marked(all, Some(last));
    assert |SortedSet(S)| == |served| + |SortedSet(S - Elems(served))|;
  }

  lemma TakenLength(S: set<Bytes>, maxKeys: nat)
    ensures |Taken(S, maxKeys)| == if |S| <= maxKeys then |S| else maxKeys
    ensures |S| <= maxKeys ==> Taken(S, maxKeys) == SortedSet(S)
  {
  }

  lemma LastParts(all: set<Bytes>, marker: Option<Bytes>, served: seq<Bytes>, x: Bytes)
    requires InitialRun(served, Marked(all, marker)) && served != []
    ensures x in Marked(all, marker) && x !in served <==> x in Marked(all, Some(served[|served| - 1]))
  {
    hide Lt;
    var last := served[|served| - 1];
    assert last in served && last in Marked(all, marker);
    if x in Marked(all, Some(last)) {
      if marker.Some? { LtTransitive(marker.value, last, x); }
      if x in served {
        StrictlySortedLast(served);
        LtNotLe(last, x);
      }
    }
  }

  lemma TakenIsInitialRun(S: set<Bytes>, maxKeys: nat)
    ensures InitialRun(Taken(S, maxKeys), S)
  {
    hide Lt;
    var sorted, run := SortedSet(S), Taken(S, maxKeys);
    TakenIsSorted(S, maxKeys);
    assert sorted == run + sorted[|run|..];
    forall x, y | x in run && y in S && y !in run
      ensures Lt(x, y)
    {
      assert y in sorted;
      var i :| 0 <= i < |run| && run[i] == x;
      var j :| 0 <= j < |sorted| && sorted[j] == y;
      LaterIsOutside(sorted, run, j);
      assert sorted[i] == x;
    }
  }

  lemma LaterIsOutside(sorted: seq<Bytes>, run: seq<Bytes>, j: nat)
    requires run <= sorted && j < |sorted| && sorted[j] !in run
    ensures |run| <= j
  {
    assert forall i | 0 <= i < |run| :: run[i] == sorted[i] && run[i] in run;
  }

  /** One page when nothing is left, else as many as it takes to serve `n` outputs. */
  function PageCount(n: nat, maxKeys: nat): (r: nat)
    requires maxKeys > 0
    ensures r >= 1 && n <= r * maxKeys
    ensures r > 1 ==> (r - 1) * maxKeys < n
  {
    if n <= maxKeys then 1 else
      var rest := PageCount(n - maxKeys, maxKeys);
      assert (rest + 1) * maxKeys == rest * maxKeys + maxKeys;
      assert rest > 1 ==> rest * maxKeys == (rest - 1) * maxKeys + maxKeys;
      rest + 1
  }

  ghost function Collected(pages: seq<Output>): seq<Bytes> {
    if pages == [] then [] else
      var last := pages[|pages| - 1];
      Collected(pages[..|pages| - 1]) + Outputs(last.contents, last.commonPrefixes)
  }

  /** Every key and the delimiter are UTF-8, as strings in the source are. */
  ghost predicate Utf8Namespace(ns: Namespace, delimiter: Option<Bytes>) {
    && (forall k | k in ns.files.Keys + ns.dirs :: ValidUtf8(k))
    && (delimiter.Some? ==> ValidUtf8(delimiter.value))
  }

  lemma ShownIsUtf8(ns: Namespace, prefix: Bytes, delimiter: Option<Bytes>, x: Bytes)
    requires Utf8Namespace(ns, delimiter) && x in Shown(ns, prefix, delimiter)
    ensures ValidUtf8(x)
  {
    hide ValidUtf8, Collapse;
    if x in AllContents(ns, prefix, delimiter) {
      assert x in ns.files.Keys + ns.dirs;
    } else if x in CommonPrefixes(ns.files.Keys, prefix, delimiter) {
      var k :| k in ns.files.Keys && IsGrouped(k, prefix, delimiter) && Collapse(k, prefix, delimiter).value == x;
      assert k in ns.files.Keys + ns.dirs;
      GroupedHasDelimiter(k, prefix, delimiter);
      CollapseIsValid(k, prefix, delimiter);
    } else {
      var d :| d in ns.dirs && DirOut(d) == x;
      assert d in ns.files.Keys + ns.dirs;
      DirOutIsValid(d);
    }
  }

  lemma GroupedHasDelimiter(k: Bytes, prefix: Bytes, delimiter: Option<Bytes>)
    requires IsGrouped(k, prefix, delimiter)
    ensures delimiter.Some?
  {
  }

  ghost predicate AccurateOutput(ns: Namespace, o: Output) {
    forall e | e in o.contents :: e.key in ns.files && e == ns.Entry(e.key)
  }

  /** One request of the walk. */
  method NextPage(lister: HdfsDirLister, mapper: PathMapper, bucket: Bytes, input: Input, ghost marker: Option<Bytes>)
    returns (output: Output, ghost next: Option<Bytes>)
    requires lister.Valid() && mapper == lister.mapper && |lister.ns.files| <= USIZE_MAX
    requires input.bucket == bucket && input.prefix.Some? && input.maxKeys.Some? && input.maxKeys.value >= 1
    requires Utf8Namespace(lister.ns, input.delimiter)
    requires Serviceable(lister.ns, mapper, input.prefix.value, Effective(input.delimiter))
    requires input.prefix.value != [DOT] && input.prefix.value != [DOT, DOT]
    requires ResumeAt(input) == Some(marker)
    modifies lister`listed, lister.cache
    ensures lister.Valid() && AccurateOutput(lister.ns, output)
    ensures Continues(Everything(lister.ns, input.prefix.value, input.delimiter), marker, input.maxKeys.value,
                      Outputs(output.contents, output.commonPrefixes), next)
    ensures next.Some? <==> output.nextContinuationToken.Some?
    ensures next.Some? ==> DecodeToken(output.nextContinuationToken.value) == next
  {
    hide IsListed, Lt, HasPage, ValidUtf8, Namespace.Valid, DecodeToken, EncodeToken, Utf8Namespace, Outputs,
        Everything, Continues, Shown, Serviceable;
    var response := ListObjectsV2(lister, mapper, bucket, input);
    ghost var d := Effective(input.delimiter);
    ghost var answer :| IsListed(lister.ns, mapper, input.prefix.value, d, marker, input.maxKeys.value, answer)
                        && response == Respond(answer, input.maxKeys.value);
    ValidNamespace(lister);
    AnswerIsReference(lister.ns, mapper, input.prefix.value, d, marker, input.maxKeys.value, answer);
    PageOfWalk(lister.ns, input.prefix.value, input.delimiter, marker, input.maxKeys.value, answer.value);
    output := response.value;
    next := answer.value.nextToken;
  }

  lemma ValidNamespace(lister: HdfsDirLister)
    requires lister.Valid()
    ensures lister.ns.Valid() && lister.mapper.Valid()
  {
  }

  /** A client that follows the tokens until none is returned collects the reference
      listing past its start marker: every output once, in order, in the fewest pages. */
  method Walk(lister: HdfsDirLister, mapper: PathMapper, bucket: Bytes, prefix: Bytes, delimiter: Option<Bytes>,
              startAfter: Option<Bytes>, maxKeys: nat) returns (pages: seq<Output>)
    requires lister.Valid() && mapper == lister.mapper && |lister.ns.files| <= USIZE_MAX
    requires Utf8Namespace(lister.ns, delimiter) && Serviceable(lister.ns, mapper, prefix, Effective(delimiter))
    requires prefix != [DOT] && prefix != [DOT, DOT] && maxKeys >= 1
    modifies lister`listed, lister.cache
    ensures lister.Valid()
    ensures var all := Marked(Everything(lister.ns, prefix, delimiter), startAfter);
            Collected(pages) == SortedSet(all) && |pages| == PageCount(|all|, maxKeys)
    ensures forall o | o in pages :: AccurateOutput(lister.ns, o)
  {
    hide Lt, Everything, DecodeToken, Marked, Utf8Namespace, Collected, Outputs, PageCount, SortedSet, AccurateOutput,
        HdfsDirLister.Valid, WalkedTo, Continues;
    ghost var all := Everything(lister.ns, prefix, delimiter);
    ghost var marker := startAfter;
    var input := Input(bucket, Some(prefix), delimiter, Some(maxKeys), None, startAfter);
    pages := [];
    NothingWalked(all, startAfter, maxKeys);
    var more := true;
    while more
      invariant lister.Valid()
      invariant input.bucket == bucket && input.prefix == Some(prefix) && input.delimiter == delimiter
                && input.maxKeys == Some(maxKeys)
      invariant more ==> ResumeAt(input) == Some(marker)
      invariant WalkedTo(all, startAfter, maxKeys, pages, more, marker)
      invariant forall o | o in pages :: AccurateOutput(lister.ns, o)
      decreases more, |Marked(all, marker)|
    {
      var output, next := NextPage(lister, mapper, bucket, input, marker);
      TurnPage(all, startAfter, maxKeys, pages, marker, output, next);
      pages, marker := pages + [output], next;
      match output.nextContinuationToken
      case None =>
        more := false;
      case Some(token) =>
        input := input.(continuationToken := Some(token));
    }
    AllWalked(all, startAfter, maxKeys, pages, marker);
  }

  /** The pages so far and what is past the marker make up the whole walk. */
  ghost predicate WalkedTo(all: set<Bytes>, startAfter: Option<Bytes>, maxKeys: nat, pages: seq<Output>, more: bool,
                           marker: Option<Bytes>)
    requires maxKeys >= 1
  {
    && Collected(pages) + (if more then SortedSet(Marked(all, marker)) else []) == SortedSet(Marked(all, startAfter))
    && |pages| + (if more then PageCount(|Marked(all, marker)|, maxKeys) else 0)
        == PageCount(|Marked(all, startAfter)|, maxKeys)
  }

  lemma NothingWalked(all: set<Bytes>, startAfter: Option<Bytes>, maxKeys: nat)
    requires maxKeys >= 1
    ensures WalkedTo(all, startAfter, maxKeys, [], true, startAfter)
  {
    assert Collected([]) == [];
  }

  lemma AllWalked(all: set<Bytes>, startAfter: Option<Bytes>, maxKeys: nat, pages: seq<Output>, marker: Option<Bytes>)
    requires maxKeys >= 1 && WalkedTo(all, startAfter, maxKeys, pages, false, marker)
    ensures Collected(pages) == SortedSet(Marked(all, startAfter))
              && |pages| == PageCount(|Marked(all, startAfter)|, maxKeys)
  {
  }

  lemma TurnPage(all: set<Bytes>, startAfter: Option<Bytes>, maxKeys: nat, pages: seq<Output>, marker: Option<Bytes>,
                 output: Output, next: Option<Bytes>)
    requires maxKeys >= 1 && WalkedTo(all, startAfter, maxKeys, pages, true, marker)
    requires Continues(all, marker, maxKeys, Outputs(output.contents, output.commonPrefixes), next)
    ensures WalkedTo(all, startAfter, maxKeys, pages + [output], next.Some?, next)
    ensures next.Some? ==> |Marked(all, next)| < |Marked(all, marker)|
  {
    hide Marked, SortedSet, PageCount, Collected, Outputs;
    var served := Outputs(output.contents, output.commonPrefixes);
    var rest := if next.Some? then SortedSet(Marked(all, next)) else [];
    CollectOne(pages, output);
    ConcatAssociates(Collected(pages), served, rest);
    assert next.None? ==> served + rest == served;
  }

  lemma CollectOne(pages: seq<Output>, o: Output)
    ensures Collected(pages + [o]) == Collected(pages) + Outputs(o.contents, o.commonPrefixes)
  {
    assert (pages + [o])[..|pages|] == pages;
  }

  /** A page serves the beginning of what is past the marker, and either all of it or what
      comes up to its token. */
  ghost predicate Continues(all: set<Bytes>, marker: Option<Bytes>, maxKeys: nat, served: seq<Bytes>,
                            next: Option<Bytes>)
    requires maxKeys >= 1
  {
    var n := |Marked(all, marker)|;
    if next.Some? then
      && served + SortedSet(Marked(all, next)) == SortedSet(Marked(all, marker))
      && |Marked(all, next)| < n && PageCount(n, maxKeys) == 1 + PageCount(|Marked(all, next)|, maxKeys)
    else served == SortedSet(Marked(all, marker)) && PageCount(n, maxKeys) == 1
  }

  /** One page of the walk: what it serves, and where the next one resumes. */
  lemma PageOfWalk(ns: Namespace, prefix: Bytes, delimiter: Option<Bytes>, marker: Option<Bytes>, maxKeys: nat,
                   page: Page)
    requires ns.Valid() && Utf8Namespace(ns, delimiter) && maxKeys >= 1
    requires var d := Effective(delimiter);
             var seen := Seen(ns, prefix, d);
             HasPage(page, Marked(AllContents(seen, prefix, d), marker),
                           Marked(AllCommon(seen, PrefixDir(prefix), prefix, d), marker), maxKeys)
    ensures Continues(Everything(ns, prefix, delimiter), marker, maxKeys,
                      Outputs(page.contents, page.commonPrefixes), page.nextToken)
    ensures page.nextToken.Some? ==>
              page.isTruncated && DecodeToken(EncodeToken(page.nextToken.value)) == page.nextToken
  {
    hide Lt, ValidUtf8, AllContents, AllCommon, DecodeToken, EncodeToken, EncodeStandard, HasPage, Outputs, Taken,
        Continues, SortedSet, Listable;
    var d := Effective(delimiter);
    var seen := Seen(ns, prefix, d);
    var C, P := AllContents(seen, prefix, d), AllCommon(seen, PrefixDir(prefix), prefix, d);
    assert Marked(C, marker) + Marked(P, marker) == Marked(C + P, marker);
    OutputsAreTaken(page, Marked(C, marker), Marked(P, marker), maxKeys);
    TokenOfPage(page, C + P, Marked(C, marker), Marked(P, marker), marker, maxKeys);
    if page.nextToken.Some? {
      var token := page.nextToken.value;
      SeenIsValid(ns, PrefixDir(prefix), d);
      ShownIsUtf8(seen, prefix, d, token);
      DecodeTokenIff(EncodeToken(token), token);
    }
  }

  lemma TokenOfPage(page: Page, all: set<Bytes>, C: set<Bytes>, P: set<Bytes>, marker: Option<Bytes>, maxKeys: nat)
    requires HasPage(page, C, P, maxKeys) && C + P == Marked(all, marker) && maxKeys >= 1
    ensures Continues(all, marker, maxKeys, Taken(C + P, maxKeys), page.nextToken)
    ensures page.nextToken.Some? ==> page.isTruncated && page.nextToken.value in all
  {
    hide Lt, Filter, SortedSet, Taken;
    TakenLength(C + P, maxKeys);
    if page.nextToken.Some? {
      CutContinues(all, marker, maxKeys);
      TakenIsSorted(C + P, maxKeys);
      assert page.nextToken.value in Taken(C + P, maxKeys);
    }
  }
}
