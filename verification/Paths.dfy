/** S3 keys and absolute HDFS paths: normalisation, the two translations under one
    configured root, and the directory at which a listing of a prefix starts. */
module Paths {
  import opened ByteStrings
  import opened Sorting

  // ----- Segments

  /** `split('/')`: the segments between slashes; the empty string has one empty segment. */
  function Split(s: Bytes): (segs: seq<Bytes>)
    ensures |segs| > 0
    ensures forall g | g in segs :: SLASH !in g
  {
    if s == [] then [[]] else
      var segs := Split(s[..|s| - 1]);
      var c := s[|s| - 1];
      if c == SLASH then segs + [[]] else segs[|segs| - 1 := segs[|segs| - 1] + [c]]
  }

  /** `join("/")`. */
  function Join(segs: seq<Bytes>): Bytes {
    if segs == [] then []
    else if |segs| == 1 then segs[0]
    else Join(segs[..|segs| - 1]) + [SLASH] + segs[|segs| - 1]
  }

  predicate Named(seg: Bytes) {
    seg != [] && seg != [DOT] && seg != [DOT, DOT]
  }

  ghost predicate AllNamed(segs: seq<Bytes>) {
    forall g | g in segs :: Named(g) && SLASH !in g
  }

  /** A key or a path below the root that is its own normal form. */
  ghost predicate Canonical(key: Bytes) {
    AllNamed(Split(key))
  }

  lemma SplitSnoc(s: Bytes, c: byte)
    ensures Split(s + [c]) == if c == SLASH then Split(s) + [[]]
                              else Split(s)[|Split(s)| - 1 := Split(s)[|Split(s)| - 1] + [c]]
  {
    assert (s + [c])[..|s|] == s;
  }

  lemma ExtendLast(a: seq<Bytes>, b: seq<Bytes>, c: byte)
    requires b != []
    ensures (a + b)[|a + b| - 1 := (a + b)[|a + b| - 1] + [c]] == a + b[|b| - 1 := b[|b| - 1] + [c]]
  {
  }

  lemma {:induction false} SplitConcat(a: Bytes, b: Bytes)
    ensures Split(a + [SLASH] + b) == Split(a) + Split(b)
  {
    if b == [] {
      assert a + [SLASH] + b == a + [SLASH];
      SplitSnoc(a, SLASH);
    } else {
      var init, c := b[..|b| - 1], b[|b| - 1];
      hide Split;
      assert b == init + [c] && a + [SLASH] + b == (a + [SLASH] + init) + [c];
      SplitConcat(a, init);
      SplitSnoc(a + [SLASH] + init, c);
      SplitSnoc(init, c);
      if c == SLASH {
        ConcatAssociates(Split(a), Split(init), [[]]);
      } else {
        ExtendLast(Split(a), Split(init), c);
      }
    }
  }

  lemma {:induction false} SplitNoSlash(s: Bytes)
    requires SLASH !in s
    ensures Split(s) == [s]
  {
    if s != [] {
      SplitNoSlash(s[..|s| - 1]);
      assert s == s[..|s| - 1] + [s[|s| - 1]];
    }
  }

  lemma {:induction false} SplitJoin(segs: seq<Bytes>)
    requires segs != [] && forall g | g in segs :: SLASH !in g
    ensures Split(Join(segs)) == segs
  {
    var n := |segs| - 1;
    SplitNoSlash(segs[n]);
    if n > 0 {
      SplitJoin(segs[..n]);
      SplitConcat(Join(segs[..n]), segs[n]);
    }
  }

  lemma JoinSnoc(segs: seq<Bytes>, seg: Bytes)
    ensures Join(segs + [seg]) == if segs == [] then seg else Join(segs) + [SLASH] + seg
  {
    assert (segs + [seg])[..|segs|] == segs;
  }

  /** Extending the last segment extends the joined string. */
  lemma JoinExtends(segs: seq<Bytes>, c: byte)
    requires segs != []
    ensures Join(segs[|segs| - 1 := segs[|segs| - 1] + [c]]) == Join(segs) + [c]
  {
    var init, last := segs[..|segs| - 1], segs[|segs| - 1];
    hide Join;
    assert segs == init + [last] && segs[|segs| - 1 := last + [c]] == init + [last + [c]];
    JoinSnoc(init, last);
    JoinSnoc(init, last + [c]);
    ConcatAssociates(Join(init) + [SLASH], last, [c]);
  }

  lemma {:induction false} JoinSplit(s: Bytes)
    ensures Join(Split(s)) == s
  {
    if s != [] {
      var init, c := s[..|s| - 1], s[|s| - 1];
      hide Join, Split;
      JoinSplit(init);
      assert s == init + [c];
      SplitSnoc(init, c);
      if c == SLASH {
        JoinSnoc(Split(init), []);
        assert init + [SLASH] + [] == s;
      } else {
        JoinExtends(Split(init), c);
      }
    }
  }

  lemma {:induction false} JoinConcat(a: seq<Bytes>, b: seq<Bytes>)
    requires a != [] && b != []
    ensures Join(a + b) == Join(a) + [SLASH] + Join(b)
  {
    var init, last := b[..|b| - 1], b[|b| - 1];
    hide Join;
    assert b == init + [last];
    JoinSnoc(init, last);
    if init == [] {
      JoinSnoc(a, last);
    } else {
      JoinConcat(a, init);
      ConcatAssociates(a, init, [last]);
      JoinSnoc(a + init, last);
      ConcatAssociates(Join(a) + [SLASH], Join(init), [SLASH]);
      ConcatAssociates(Join(a) + [SLASH], Join(init) + [SLASH], last);
    }
  }

  /** The shape of a canonical key: non-empty, no slash at either end. */
  lemma CanonicalShape(key: Bytes)
    requires Canonical(key)
    ensures key != [] && key[0] != SLASH && key[|key| - 1] != SLASH
  {
    var segs := Split(key);
    assert segs[|segs| - 1] in segs;
    if key != [] && key[0] == SLASH {
      assert key == [] + [SLASH] + key[1..];
      SplitConcat([], key[1..]);
    }
  }

  /** A key is canonical exactly when the parts on both sides of any slash are. */
  lemma CanonicalConcat(a: Bytes, b: Bytes)
    ensures Canonical(a + [SLASH] + b) <==> Canonical(a) && Canonical(b)
  {
    SplitConcat(a, b);
    assert forall g :: g in Split(a) + Split(b) <==> g in Split(a) || g in Split(b);
  }

  // ----- Normalisation

  /** One segment of the normalising loop; `None` when `..` pops past an absolute root. */
  function Follow(parts: seq<Bytes>, seg: Bytes, absolute: bool): Option<seq<Bytes>> {
    if seg == [] || seg == [DOT] then Some(parts)
    else if seg == [DOT, DOT] then
      if parts == [] then (if absolute then None else Some([])) else Some(parts[..|parts| - 1])
    else Some(parts + [seg])
  }

  function Resolve(segs: seq<Bytes>, absolute: bool): (r: Option<seq<Bytes>>)
    ensures r.Some? && (forall g | g in segs :: SLASH !in g) ==> AllNamed(r.value)
  {
    if segs == [] then Some([]) else
      match Resolve(segs[..|segs| - 1], absolute)
      case None => None
      case Some(parts) => Follow(parts, segs[|segs| - 1], absolute)
  }

  predicate IsAbsolute(path: Bytes) {
    path != [] && path[0] == SLASH
  }

  function Render(parts: seq<Bytes>, absolute: bool): Bytes {
    if absolute then [SLASH] + Join(parts) else Join(parts)
  }

  function Normalize(path: Bytes): Option<Bytes> {
    match Resolve(Split(path), IsAbsolute(path))
    case None => None
    case Some(parts) => Some(Render(parts, IsAbsolute(path)))
  }

  /** `normalize_abs`: the loop over segments with its stack of parts. */
  method NormalizeAbs(path: Bytes) returns (r: Option<Bytes>)
    ensures r == Normalize(path)
  {
    var absolute := IsAbsolute(path);
    var parts: seq<Bytes> := [];
    var segs := Split(path);
    for i := 0 to |segs|
      invariant Resolve(segs[..i], absolute) == Some(parts)
    {
      var segment := segs[i];
      assert segs[..i + 1][..i] == segs[..i];
      if segment == [DOT, DOT] {
        if parts == [] {
          if absolute {
            ResolveNoneExtends(segs, i + 1, absolute);
            return None;
          }
        } else {
          parts := parts[..|parts| - 1];
        }
      } else if segment != [] && segment != [DOT] {
        parts := parts + [segment];
      }
    }
    assert segs[..|segs|] == segs;
    r := Some(if absolute then [SLASH] + Join(parts) else Join(parts));
  }

  lemma {:induction false} ResolveNoneExtends(segs: seq<Bytes>, n: nat, absolute: bool)
    requires n <= |segs| && Resolve(segs[..n], absolute) == None
    ensures Resolve(segs, absolute) == None
  {
    if n == |segs| {
      assert segs[..n] == segs;
    } else {
      assert segs[..|segs| - 1][..n] == segs[..n];
      ResolveNoneExtends(segs[..|segs| - 1], n, absolute);
    }
  }

  lemma ResolveSnoc(segs: seq<Bytes>, seg: Bytes, absolute: bool)
    ensures Resolve(segs + [seg], absolute) ==
              match Resolve(segs, absolute) case None => None case Some(parts) => Follow(parts, seg, absolute)
  {
    assert (segs + [seg])[..|segs|] == segs;
  }

  lemma {:induction false} ResolveConcat(a: seq<Bytes>, b: seq<Bytes>)
    requires Resolve(a, true).Some? && AllNamed(b)
    ensures Resolve(a + b, true) == Some(Resolve(a, true).value + b)
  {
    if b == [] {
      assert a + b == a && Resolve(a, true).value + b == Resolve(a, true).value;
    } else {
      var init, last := b[..|b| - 1], b[|b| - 1];
      hide Resolve;
      assert last in b && b == init + [last];
      ResolveConcat(a, init);
      ConcatAssociates(a, init, [last]);
      ResolveSnoc(a + init, last, true);
      ConcatAssociates(Resolve(a, true).value, init, [last]);
    }
  }

  lemma {:induction false} ResolveNamed(segs: seq<Bytes>, absolute: bool)
    requires AllNamed(segs)
    ensures Resolve(segs, absolute) == Some(segs)
  {
    if segs != [] {
      var n := |segs| - 1;
      assert segs[n] in segs;
      ResolveNamed(segs[..n], absolute);
      assert segs[..n] + [segs[n]] == segs;
    }
  }

  lemma SplitNamed(parts: seq<Bytes>)
    requires AllNamed(parts)
    ensures Split(Join(parts)) == if parts == [] then [[]] else parts
    ensures !IsAbsolute(Join(parts))
  {
    if parts != [] {
      SplitJoin(parts);
      assert Canonical(Join(parts));
      CanonicalShape(Join(parts));
    }
  }

  lemma ResolveEmptyFirst(parts: seq<Bytes>)
    requires AllNamed(parts)
    ensures Resolve([[]] + parts, true) == Some(parts) && Resolve([[]] + [[]], true) == Some([])
  {
    var none: seq<Bytes> := [];
    assert none + [[]] == [[]];
    ResolveSnoc(none, [], true);
    ResolveSnoc([[]], [], true);
    ResolveConcat([[]], parts);
    assert [] + parts == parts;
  }

  /** Rendering named parts and resolving the result gives the parts back. */
  lemma ResolveRender(parts: seq<Bytes>, absolute: bool)
    requires AllNamed(parts)
    ensures var path := Render(parts, absolute);
            IsAbsolute(path) == absolute && Resolve(Split(path), absolute) == Some(parts)
  {
    hide Split, Join, Resolve, Follow;
    SplitNamed(parts);
    if absolute {
      SplitConcat([], Join(parts));
      assert [] + [SLASH] + Join(parts) == Render(parts, true);
      SplitNamed([]);
      assert Join([]) == [] by { JoinNothing(); }
      ResolveEmptyFirst(parts);
    } else if parts == [] {
      ResolveNothing();
    } else {
      ResolveNamed(parts, false);
    }
  }

  lemma JoinNothing()
    ensures Join([]) == []
  {
  }

  lemma ResolveNothing()
    ensures Resolve([[]], false) == Some([])
  {
  }

  /** Normalising is idempotent. */
  lemma NormalizeIdempotent(path: Bytes)
    ensures Normalize(path).Some? ==> Normalize(Normalize(path).value) == Normalize(path)
  {
    if Normalize(path).Some? {
      ResolveRender(Resolve(Split(path), IsAbsolute(path)).value, IsAbsolute(path));
    }
  }

  /** A normal form keeps the leading slash and has no empty, `.` or `..` segment. */
  lemma NormalFormIsClean(path: Bytes)
    ensures Normalize(path).Some? ==>
              var q := Normalize(path).value;
              && IsAbsolute(q) == IsAbsolute(path)
              && (if IsAbsolute(path) then q == [SLASH] || Canonical(q[1..])
                  else q == [] || Canonical(q))
  {
    if Normalize(path).Some? {
      var parts := Resolve(Split(path), IsAbsolute(path)).value;
      ResolveRender(parts, IsAbsolute(path));
      if parts != [] { SplitJoin(parts); }
    }
  }

  // ----- What each kind of segment does

  lemma {:induction false} ResolveContinues(x: seq<Bytes>, y: seq<Bytes>, b: seq<Bytes>, absolute: bool)
    requires Resolve(x, absolute) == Resolve(y, absolute)
    ensures Resolve(x + b, absolute) == Resolve(y + b, absolute)
  {
    if b == [] {
      assert x + b == x && y + b == y;
    } else {
      var init, last := b[..|b| - 1], b[|b| - 1];
      hide Resolve;
      assert b == init + [last];
      ResolveContinues(x, y, init, absolute);
      ConcatAssociates(x, init, [last]);
      ConcatAssociates(y, init, [last]);
      ResolveSnoc(x + init, last, absolute);
      ResolveSnoc(y + init, last, absolute);
    }
  }

  /** `..` takes back the named segment before it, wherever the two stand. */
  lemma UpCancels(a: seq<Bytes>, g: Bytes, b: seq<Bytes>, absolute: bool)
    requires Named(g)
    ensures Resolve(a + [g] + [[DOT, DOT]] + b, absolute) == Resolve(a + b, absolute)
  {
    hide Resolve;
    ResolveSnoc(a, g, absolute);
    ResolveSnoc(a + [g], [DOT, DOT], absolute);
    if Resolve(a, absolute).Some? {
      var parts := Resolve(a, absolute).value;
      assert (parts + [g])[..|parts|] == parts;
    }
    ResolveContinues(a + [g] + [[DOT, DOT]], a, b, absolute);
  }

  /** Empty and `.` segments mean nothing, wherever they stand. */
  lemma EmptyAndDotVanish(a: seq<Bytes>, g: Bytes, b: seq<Bytes>, absolute: bool)
    requires g == [] || g == [DOT]
    ensures Resolve(a + [g] + b, absolute) == Resolve(a + b, absolute)
  {
    hide Resolve;
    ResolveSnoc(a, g, absolute);
    ResolveContinues(a + [g], a, b, absolute);
  }

  /** With nothing to take back, `..` is dropped from a relative path and fails an absolute
      one. */
  lemma UpAtTheTop(b: seq<Bytes>, absolute: bool)
    ensures Resolve([[DOT, DOT]] + b, absolute) == if absolute then None else Resolve(b, absolute)
  {
    var none: seq<Bytes> := [];
    assert none + [[DOT, DOT]] == [[DOT, DOT]] && none + b == b;
    ResolveSnoc(none, [DOT, DOT], absolute);
    if absolute {
      assert ([[DOT, DOT]] + b)[..1] == [[DOT, DOT]];
      ResolveNoneExtends([[DOT, DOT]] + b, 1, absolute);
    } else {
      ResolveContinues([[DOT, DOT]], none, b, absolute);
    }
  }

  lemma SplitMiddle(x: Bytes, g: Bytes, r: Bytes)
    requires SLASH !in g
    ensures Split(x + [SLASH] + g + [SLASH] + r) == Split(x) + [g] + Split(r)
    ensures IsAbsolute(x + [SLASH] + g + [SLASH] + r) == IsAbsolute(x + [SLASH])
  {
    hide Split;
    SplitNoSlash(g);
    SplitConcat(x, g);
    SplitConcat(x + [SLASH] + g, r);
  }

  /** `x/g/../r` is `x/r`. */
  lemma NormalizeUp(x: Bytes, g: Bytes, r: Bytes)
    requires Named(g) && SLASH !in g
    ensures Normalize(x + [SLASH] + g + [SLASH] + [DOT, DOT] + [SLASH] + r) == Normalize(x + [SLASH] + r)
  {
    hide Split, Resolve, Render;
    SplitNoSlash(g);
    SplitConcat(x, g);
    SplitMiddle(x + [SLASH] + g, [DOT, DOT], r);
    SplitConcat(x, r);
    UpCancels(Split(x), g, Split(r), IsAbsolute(x + [SLASH] + r));
  }

  /** `x/./r` and `x//r` are `x/r`. */
  lemma NormalizeSkips(x: Bytes, g: Bytes, r: Bytes)
    requires g == [] || g == [DOT]
    ensures Normalize(x + [SLASH] + g + [SLASH] + r) == Normalize(x + [SLASH] + r)
  {
    hide Split, Resolve, Render;
    SplitMiddle(x, g, r);
    SplitConcat(x, r);
    EmptyAndDotVanish(Split(x), g, Split(r), IsAbsolute(x + [SLASH] + r));
  }

  // ----- When there is no normal form

  function CountNamed(segs: seq<Bytes>): nat {
    if segs == [] then 0 else
      CountNamed(segs[..|segs| - 1]) + if Named(segs[|segs| - 1]) then 1 else 0
  }

  function CountUp(segs: seq<Bytes>): nat {
    if segs == [] then 0 else
      CountUp(segs[..|segs| - 1]) + if segs[|segs| - 1] == [DOT, DOT] then 1 else 0
  }

  ghost predicate Escapes(segs: seq<Bytes>) {
    exists n | 0 <= n <= |segs| :: CountUp(segs[..n]) > CountNamed(segs[..n])
  }

  lemma {:induction false} ResolveDepth(segs: seq<Bytes>)
    ensures Resolve(segs, true).None? <==> Escapes(segs)
    ensures Resolve(segs, true).Some? ==> |Resolve(segs, true).value| == CountNamed(segs) - CountUp(segs)
  {
    if segs == [] {
      assert segs[..0] == [];
    } else {
      var init := segs[..|segs| - 1];
      ResolveDepth(init);
      assert forall n | 0 <= n <= |init| :: segs[..n] == init[..n];
      assert segs[..|segs|] == segs;
      if Escapes(init) {
        var n :| 0 <= n <= |init| && CountUp(init[..n]) > CountNamed(init[..n]);
        assert segs[..n] == init[..n];
      }
      if Escapes(segs) {
        var n :| 0 <= n <= |segs| && CountUp(segs[..n]) > CountNamed(segs[..n]);
        assert n == |segs| || segs[..n] == init[..n];
      }
    }
  }

  lemma {:induction false} ResolveRelative(segs: seq<Bytes>)
    ensures Resolve(segs, false).Some?
  {
    if segs != [] { ResolveRelative(segs[..|segs| - 1]); }
  }

  /** A path has no normal form exactly when it is absolute and some initial part of it
      goes up more often than it goes down. */
  lemma NormalizeFailsIff(path: Bytes)
    ensures Normalize(path).None? <==> IsAbsolute(path) && Escapes(Split(path))
  {
    ResolveDepth(Split(path));
    ResolveRelative(Split(path));
  }

  // ----- The mapper

  function TrimSlashes(s: Bytes): Bytes {
    if s != [] && s[0] == SLASH then TrimSlashes(s[1..]) else s
  }

  function JoinRoot(root: Bytes, key: Bytes): Bytes {
    if root == [SLASH] then [SLASH] + key else root + [SLASH] + key
  }

  /** `normalize_root`. */
  function NormalizeRoot(root: Bytes): Bytes {
    match Normalize(if IsAbsolute(root) then root else [SLASH] + root)
    case Some(r) => r
    case None => [SLASH]
  }

  datatype PathMapper = PathMapper(root: Bytes) {
    ghost predicate Valid() {
      root == [SLASH] || (IsAbsolute(root) && Canonical(root[1..]))
    }

    /** What every path strictly below the root starts with. */
    function Base(): Bytes {
      if root == [SLASH] then [SLASH] else root + [SLASH]
    }

    predicate UnderRoot(path: Bytes) {
      if root == [SLASH] then IsAbsolute(path)
      else path == root || root + [SLASH] <= path
    }

    /** `key_to_hdfs_path`. */
    function KeyToHdfsPath(key: Bytes): Option<Bytes> {
      var k := TrimSlashes(key);
      if k == [] then None else
        match Normalize(JoinRoot(root, k))
        case None => None
        case Some(path) => if UnderRoot(path) then Some(path) else None
    }

    /** `hdfs_path_to_key`. */
    function HdfsPathToKey(path: Bytes): Option<Bytes> {
      match Normalize(path)
      case None => None
      case Some(p) =>
        if p == root then Some([])
        else if Base() <= p then Some(p[|Base()|..])
        else None
    }

    /** `list_start`. */
    function ListStart(prefix: Bytes): Option<Bytes> {
      var first := Split(prefix)[0];
      if first == [DOT] || first == [DOT, DOT] then None
      else match LastSlash(prefix)
        case None => Some(root)
        case Some(i) => KeyToHdfsPath(prefix[..i + 1])
    }
  }

  /** `rfind('/')`. */
  function LastSlash(s: Bytes): (r: Option<nat>)
    ensures r.None? ==> SLASH !in s
    ensures r.Some? ==> r.value < |s| && s[r.value] == SLASH && SLASH !in s[r.value + 1..]
  {
    if s == [] then None
    else if s[|s| - 1] == SLASH then Some(|s| - 1)
    else
      assert s == s[..|s| - 1] + [s[|s| - 1]];
      LastSlash(s[..|s| - 1])
  }

  lemma {:induction false} LastSlashIs(s: Bytes, i: nat)
    requires i < |s| && s[i] == SLASH && SLASH !in s[i + 1..]
    ensures LastSlash(s) == Some(i)
  {
    var n := |s| - 1;
    if i < n {
      assert s[i + 1..][n - i - 1] == s[n];
      assert s[i + 1..] == s[..n][i + 1..] + [s[n]];
      LastSlashIs(s[..n], i);
    }
  }

  lemma NormalizeRootIsValid(root: Bytes)
    ensures PathMapper(NormalizeRoot(root)).Valid()
  {
    NormalFormIsClean(if IsAbsolute(root) then root else [SLASH] + root);
  }

  /** A root that is valid stays as it is, a leading slash may be left out, and a root that
      goes above the file system's is the file system's. */
  lemma NormalizeRootIs(root: Bytes)
    ensures PathMapper(root).Valid() ==> NormalizeRoot(root) == root
    ensures !IsAbsolute(root) ==> NormalizeRoot(root) == NormalizeRoot([SLASH] + root)
    ensures IsAbsolute(root) && Escapes(Split(root)) ==> NormalizeRoot(root) == [SLASH]
  {
    NormalizeFailsIff(root);
    if PathMapper(root).Valid() { ValidIsNormal(root); }
    hide Normalize, Canonical, Escapes, Split;
  }

  lemma ValidIsNormal(root: Bytes)
    requires PathMapper(root).Valid()
    ensures Normalize(root) == Some(root)
  {
    hide Split, Join, Resolve;
    if root == [SLASH] {
      JoinNothing();
      ResolveRender([], true);
      assert Render([], true) == [SLASH];
    } else {
      RootParts(root);
      ResolveRender(Split(root[1..]), true);
    }
  }

  /** The segments of a valid root followed by a key. */
  lemma RootSegments(m: PathMapper, key: Bytes) returns (parts: seq<Bytes>)
    requires m.Valid()
    ensures JoinRoot(m.root, key) == m.Base() + key && IsAbsolute(m.Base() + key)
    ensures AllNamed(parts) && m.root == Render(parts, true)
    ensures parts == [] <==> m.root == [SLASH]
    ensures Split(m.Base() + key) == [[]] + (parts + Split(key))
  {
    hide Split, Join;
    var empty: Bytes := [];
    SplitNoSlash(empty);
    JoinNothing();
    if m.root == [SLASH] {
      parts := [];
      assert m.Base() + key == empty + [SLASH] + key;
      SplitConcat(empty, key);
      assert parts + Split(key) == Split(key);
    } else {
      parts := Split(m.root[1..]);
      RootParts(m.root);
      assert m.Base() + key == m.root + [SLASH] + key;
      SplitConcat(m.root, key);
      ConcatAssociates([[]], parts, Split(key));
    }
  }

  lemma RootParts(root: Bytes)
    requires IsAbsolute(root)
    ensures Split(root) == [[]] + Split(root[1..])
    ensures root == Render(Split(root[1..]), true)
  {
    var empty: Bytes := [];
    assert Split(empty) == [[]];
    assert root == empty + [SLASH] + root[1..];
    SplitConcat(empty, root[1..]);
    JoinSplit(root[1..]);
  }

  lemma RenderConcat(parts: seq<Bytes>, key: Bytes)
    ensures Render(parts + Split(key), true)
         == (if parts == [] then [SLASH] else Render(parts, true) + [SLASH]) + key
  {
    JoinSplit(key);
    if parts == [] {
      assert parts + Split(key) == Split(key);
    } else {
      JoinConcat(parts, Split(key));
      assert [SLASH] + (Join(parts) + [SLASH] + key) == [SLASH] + Join(parts) + [SLASH] + key;
    }
  }

  lemma ResolveUnderRoot(m: PathMapper, key: Bytes) returns (segs: seq<Bytes>)
    requires m.Valid() && Canonical(key)
    ensures Resolve(Split(m.Base() + key), true) == Some(segs)
    ensures Render(segs, true) == m.Base() + key
  {
    var parts := RootSegments(m, key);
    segs := parts + Split(key);
    assert AllNamed(segs);
    assert Resolve([[]], true) == Some([]);
    ResolveConcat([[]], segs);
    assert [] + segs == segs;
    RenderConcat(parts, key);
  }

  /** Root and key together are in normal form, and a slash at the end is dropped. */
  lemma NormalizeUnderRoot(m: PathMapper, key: Bytes)
    requires m.Valid() && Canonical(key)
    ensures Normalize(m.Base() + key) == Some(m.Base() + key)
    ensures Normalize(m.Base() + key + [SLASH]) == Some(m.Base() + key)
    ensures m.UnderRoot(m.Base() + key) && m.Base() + key != m.root
  {
    var p := m.Base() + key;
    var segs := ResolveUnderRoot(m, key);
    var _ := RootSegments(m, key);
    assert p + [SLASH] + [] == p + [SLASH];
    SplitConcat(p, []);
    var longer := Split(p) + [[]];
    assert Split([]) == [[]];
    assert longer[..|longer| - 1] == Split(p);
    assert Resolve(longer, true) == Some(segs);
    CanonicalShape(key);
  }

  /** The two translations undo each other on canonical keys. */
  lemma KeyRoundTrip(m: PathMapper, key: Bytes)
    requires m.Valid() && Canonical(key)
    ensures m.KeyToHdfsPath(key) == Some(m.Base() + key)
    ensures m.KeyToHdfsPath(key + [SLASH]) == Some(m.Base() + key)
    ensures m.HdfsPathToKey(m.Base() + key) == Some(key)
  {
    hide Split, Join, Resolve, Render, Normalize, Canonical, PathMapper.Valid;
    NormalizeUnderRoot(m, key);
    CanonicalShape(key);
    var _ := RootSegments(m, key);
    var _ := RootSegments(m, key + [SLASH]);
    assert TrimSlashes(key) == key && TrimSlashes(key + [SLASH]) == key + [SLASH];
    assert m.Base() + (key + [SLASH]) == m.Base() + key + [SLASH];
    assert (m.Base() + key)[|m.Base()|..] == key;
  }

  /** ... and on every path whose normal form lies strictly below the root. */
  lemma PathRoundTrip(m: PathMapper, path: Bytes)
    requires m.Valid() && IsAbsolute(path)
    requires Normalize(path).Some? && Normalize(path).value != m.root
    requires m.UnderRoot(Normalize(path).value)
    ensures var k := m.HdfsPathToKey(path);
            k.Some? && Canonical(k.value) && m.KeyToHdfsPath(k.value) == Normalize(path)
  {
    hide Split, Join, Resolve, Render, Normalize, PathMapper.KeyToHdfsPath, TrimSlashes, LastSlash;
    var p := Normalize(path).value;
    NormalFormIsClean(path);
    assert m.Base() <= p;
    var key := p[|m.Base()|..];
    assert p == m.Base() + key;
    if m.root == [SLASH] {
      assert key == p[1..];
    } else {
      assert p[1..] == m.root[1..] + [SLASH] + key;
      CanonicalConcat(m.root[1..], key);
    }
    KeyRoundTrip(m, key);
  }

  /** Whatever the key, the path it maps to is in normal form and never leaves the root. */
  lemma KeyPathContained(m: PathMapper, key: Bytes)
    requires m.Valid()
    ensures m.KeyToHdfsPath(key).Some? ==>
              var p := m.KeyToHdfsPath(key).value;
              && Normalize(p) == Some(p)
              && (p == m.root || (m.Base() <= p && Canonical(p[|m.Base()|..])))
  {
    if m.KeyToHdfsPath(key).Some? {
      var joined := JoinRoot(m.root, TrimSlashes(key));
      var p := m.KeyToHdfsPath(key).value;
      NormalizeIdempotent(joined);
      var _ := RootSegments(m, TrimSlashes(key));
      if p != m.root {
        PathRoundTrip(m, joined);
      }
    }
  }

  /** A key maps to the normal form of root and key, at or below the root. */
  lemma KeyToPathIff(m: PathMapper, key: Bytes, p: Bytes)
    requires m.Valid()
    ensures m.KeyToHdfsPath(key) == Some(p) <==>
              && TrimSlashes(key) != [] && Normalize(m.Base() + TrimSlashes(key)) == Some(p)
              && (p == m.root || m.Base() <= p)
  {
    hide Normalize;
    var _ := RootSegments(m, TrimSlashes(key));
  }

  /** Leading slashes of a key mean nothing, and a key of slashes alone maps nowhere. */
  lemma LeadingSlashes(m: PathMapper, key: Bytes)
    ensures m.KeyToHdfsPath([SLASH] + key) == m.KeyToHdfsPath(key) && m.KeyToHdfsPath([]) == None
  {
    hide Normalize;
    assert ([SLASH] + key)[1..] == key;
  }

  /** A path has a key exactly when its normal form is the root, whose key is empty, or lies
      below it. */
  lemma PathToKeyIff(m: PathMapper, path: Bytes)
    requires m.Valid()
    ensures m.HdfsPathToKey(path).Some? <==> Normalize(path).Some? && m.UnderRoot(Normalize(path).value)
    ensures m.HdfsPathToKey(path) == Some([]) <==> Normalize(path) == Some(m.root)
  {
    hide Normalize, Canonical;
    NormalFormIsClean(path);
    if Normalize(path).Some? && Normalize(path).value != m.root && m.Base() <= Normalize(path).value {
      BelowRoot(m, path);
    }
  }

  lemma BelowRoot(m: PathMapper, path: Bytes)
    requires m.Valid() && Normalize(path).Some?
    requires Normalize(path).value != m.root && m.Base() <= Normalize(path).value
    ensures Normalize(path).value != m.Base()
  {
    NormalFormIsClean(path);
    var p := Normalize(path).value;
    if p == m.Base() {
      CanonicalShape(p[1..]);
    }
  }

  /** Below the root, leading slashes are empty segments. */
  lemma {:induction false} TrimBelowRoot(m: PathMapper, s: Bytes)
    ensures Normalize(m.Base() + TrimSlashes(s)) == Normalize(m.Base() + s)
  {
    if s != [] && s[0] == SLASH {
      TrimBelowRoot(m, s[1..]);
      hide Normalize;
      var x := m.Base()[..|m.Base()| - 1];
      NormalizeSkips(x, [], s[1..]);
      assert x + [SLASH] + s[1..] == m.Base() + s[1..];
      assert x + [SLASH] + [] + [SLASH] + s[1..] == m.Base() + s;
    }
  }

  lemma BaseIsRoot(m: PathMapper)
    requires m.Valid()
    ensures Normalize(m.Base()) == Some(m.root)
  {
    hide Split, Join, Resolve;
    ValidIsNormal(m.root);
    if m.root != [SLASH] {
      var empty: Bytes := [];
      SplitNoSlash(empty);
      SplitConcat(m.root, empty);
      assert m.root + [SLASH] + empty == m.Base();
      EmptyAndDotVanish(Split(m.root), empty, [], true);
      assert Split(m.root) + [] == Split(m.root) && Split(m.root) + [empty] + [] == Split(m.root) + [empty];
    }
  }

  /** A key without anything but slashes maps nowhere, any other where root and key lead. */
  lemma KeyLeads(m: PathMapper, key: Bytes)
    requires m.Valid()
    ensures var path := Normalize(m.Base() + key);
            m.KeyToHdfsPath(key) ==
              if TrimSlashes(key) != [] && path.Some? && m.UnderRoot(path.value) then path else None
    ensures TrimSlashes(key) == [] ==> Normalize(m.Base() + key) == Some(m.root)
  {
    hide Normalize;
    TrimBelowRoot(m, key);
    var _ := RootSegments(m, TrimSlashes(key));
    BaseIsRoot(m);
    assert m.Base() + [] == m.Base();
  }

  /** Keys may take segments back: `k/g/../r` is served as `k/r`, except exactly where that is
      the empty key: there it is the root, and the empty key is refused. */
  lemma KeyUp(m: PathMapper, k: Bytes, g: Bytes, r: Bytes)
    requires m.Valid() && Named(g) && SLASH !in g
    ensures m.KeyToHdfsPath(k + [SLASH] + g + [SLASH] + [DOT, DOT] + [SLASH] + r) == m.KeyToHdfsPath(k + [SLASH] + r)
       <==> TrimSlashes(k + [SLASH] + r) != []
  {
    hide PathMapper.KeyToHdfsPath, PathMapper.Base, PathMapper.Valid, Normalize, TrimSlashes;
    var long, x := k + [SLASH] + g + [SLASH] + [DOT, DOT] + [SLASH] + r, m.Base() + k;
    TrimIff(long);
    assert g[0] in g && g[0] in long;
    KeyLeads(m, long);
    KeyLeads(m, k + [SLASH] + r);
    NormalizeUp(x, g, r);
    UpAssociates(k, g, r);
    UpAssociates(x, g, r);
    JoinAssociates(m.Base(), k, [SLASH] + g + [SLASH] + [DOT, DOT] + [SLASH] + r);
    JoinAssociates(m.Base(), k, [SLASH] + r);
    ConcatAssociates(k, [SLASH], r);
    ConcatAssociates(x, [SLASH], r);
  }

  lemma JoinAssociates(base: Bytes, k: Bytes, r: Bytes)
    ensures base + (k + r) == base + k + r
  {
  }

  lemma UpAssociates(x: Bytes, g: Bytes, r: Bytes)
    ensures x + [SLASH] + g + [SLASH] + [DOT, DOT] + [SLASH] + r
         == x + ([SLASH] + g + [SLASH] + [DOT, DOT] + [SLASH] + r)
  {
    SkipAssociates(x, g, [DOT, DOT] + [SLASH] + r);
    assert x + [SLASH] + g + [SLASH] + [DOT, DOT] + [SLASH] + r
        == x + [SLASH] + g + [SLASH] + ([DOT, DOT] + [SLASH] + r);
    assert [SLASH] + g + [SLASH] + [DOT, DOT] + [SLASH] + r == [SLASH] + g + [SLASH] + ([DOT, DOT] + [SLASH] + r);
  }

  lemma SkipAssociates(x: Bytes, g: Bytes, r: Bytes)
    ensures x + [SLASH] + g + [SLASH] + r == x + ([SLASH] + g + [SLASH] + r)
  {
    ConcatAssociates(x, [SLASH], g);
    ConcatAssociates(x, [SLASH] + g, [SLASH]);
    ConcatAssociates(x, [SLASH] + g + [SLASH], r);
  }

  /** ... and repeat slashes or hold `.`: `k//r` is served as `k/r`, and so is `k/./r` with the
      same exception. */
  lemma KeySkips(m: PathMapper, k: Bytes, g: Bytes, r: Bytes)
    requires m.Valid() && (g == [] || g == [DOT])
    ensures m.KeyToHdfsPath(k + [SLASH] + g + [SLASH] + r) == m.KeyToHdfsPath(k + [SLASH] + r)
       <==> g == [] || TrimSlashes(k + [SLASH] + r) != []
  {
    var long, short, x := k + [SLASH] + g + [SLASH] + r, k + [SLASH] + r, m.Base() + k;
    SlashesOnly(k, g, r);
    hide PathMapper.KeyToHdfsPath, PathMapper.Base, PathMapper.Valid, Normalize, TrimSlashes;
    KeyLeads(m, long);
    KeyLeads(m, short);
    NormalizeSkips(x, g, r);
    SkipAssociates(k, g, r);
    SkipAssociates(x, g, r);
    JoinAssociates(m.Base(), k, [SLASH] + g + [SLASH] + r);
    JoinAssociates(m.Base(), k, [SLASH] + r);
    ConcatAssociates(k, [SLASH], r);
    ConcatAssociates(x, [SLASH], r);
  }

  lemma {:induction false} TrimIff(s: Bytes)
    ensures TrimSlashes(s) == [] <==> forall c | c in s :: c == SLASH
  {
    if s != [] {
      TrimIff(s[1..]);
      assert s[0] in s;
      assert forall c :: c in s <==> c == s[0] || c in s[1..];
    }
  }

  lemma SlashesOnly(k: Bytes, g: Bytes, r: Bytes)
    requires g == [] || g == [DOT]
    ensures TrimSlashes(k + [SLASH] + g + [SLASH] + r) == [] <==> g == [] && TrimSlashes(k + [SLASH] + r) == []
  {
    hide TrimSlashes;
    var long, short := k + [SLASH] + g + [SLASH] + r, k + [SLASH] + r;
    TrimIff(long);
    TrimIff(short);
    assert forall c :: c in long <==> c in k || c == SLASH || c in g || c in r;
    assert forall c :: c in short <==> c in k || c == SLASH || c in r;
    if g == [] {
      assert forall c :: c in long <==> c in short;
    } else {
      assert DOT in g && DOT in long;
    }
  }

  // ----- Where a listing starts

  /** A prefix whose first segment is `.` or `..` has no start; any other starts where the
      part up to its last slash leads, or at the root. */
  lemma ListStartIs(m: PathMapper, dir: Bytes, rest: Bytes)
    requires SLASH !in rest
    ensures m.ListStart(rest) == if rest == [DOT] || rest == [DOT, DOT] then None else Some(m.root)
    ensures m.ListStart(dir + [SLASH] + rest) ==
              if Split(dir)[0] == [DOT] || Split(dir)[0] == [DOT, DOT] then None
              else m.KeyToHdfsPath(dir + [SLASH])
  {
    hide Split, PathMapper.KeyToHdfsPath;
    var prefix := dir + [SLASH] + rest;
    SplitNoSlash(rest);
    SplitConcat(dir, rest);
    assert prefix[|dir| + 1..] == rest;
    LastSlashIs(prefix, |dir|);
    assert prefix[..|dir| + 1] == dir + [SLASH];
  }

  /** `sp` is the part of the prefix up to its last slash: nothing, or the output of a
      canonical directory. */
  ghost predicate StartsAt(sp: Bytes, prefix: Bytes) {
    && sp <= prefix
    && SLASH !in prefix[|sp|..]
    && (sp == [] || (sp[|sp| - 1] == SLASH && Canonical(sp[..|sp| - 1])))
  }

  /** The HDFS directory whose descendants' keys start with `sp`. */
  function StartPath(m: PathMapper, sp: Bytes): Bytes {
    if sp == [] then m.root else m.Base() + sp[..|sp| - 1]
  }

  /** A directory part is canonical as soon as one canonical key starts with it. */
  lemma DirPartCanonical(dir: Bytes, key: Bytes)
    requires DirOut(dir) <= key && Canonical(key)
    ensures Canonical(dir)
  {
    assert key == dir + [SLASH] + key[|dir| + 1..];
    CanonicalConcat(dir, key[|dir| + 1..]);
  }

  /** `list_start` on a prefix that has a canonical directory part. */
  lemma ListStartCanonical(m: PathMapper, prefix: Bytes, sp: Bytes)
    requires m.Valid() && StartsAt(sp, prefix)
    requires prefix != [DOT] && prefix != [DOT, DOT]
    ensures m.ListStart(prefix) == Some(StartPath(m, sp))
  {
    if sp == [] {
      assert prefix[0..] == prefix;
      SplitNoSlash(prefix);
    } else {
      var dir := sp[..|sp| - 1];
      assert sp == dir + [SLASH];
      var rest := prefix[|sp|..];
      assert prefix == dir + [SLASH] + rest;
      SplitConcat(dir, rest);
      assert Split(prefix)[0] == Split(dir)[0] && Split(dir)[0] in Split(dir);
      assert prefix[|dir| + 1..] == rest;
      LastSlashIs(prefix, |dir|);
      assert prefix[..|dir| + 1] == dir + [SLASH];
      KeyRoundTrip(m, dir);
    }
  }

  /** The directory part of a prefix that some canonical key starts with. */
  lemma MatchedPrefixStarts(prefix: Bytes, key: Bytes) returns (sp: Bytes)
    requires Canonical(key) && prefix <= key
    ensures StartsAt(sp, prefix)
  {
    match LastSlash(prefix)
    case None =>
      sp := [];
      assert prefix[0..] == prefix;
    case Some(i) =>
      sp := prefix[..i + 1];
      assert sp == DirOut(prefix[..i]);
      PrefixTransitive(sp, prefix, key);
      DirPartCanonical(prefix[..i], key);
      assert sp[..|sp| - 1] == prefix[..i];
  }

  /** Every canonical key that starts with the prefix lies below the start directory. */
  ghost predicate StartCovers(m: PathMapper, prefix: Bytes) {
    forall key | Canonical(key) && prefix <= key ::
      && m.ListStart(prefix).Some?
      && PathMapper(m.ListStart(prefix).value).Base() <= m.Base() + key
  }

  /** `list_start` loses no key, for every prefix except exactly `.` and `..`. */
  lemma ListStartLosslessIff(m: PathMapper, prefix: Bytes)
    requires m.Valid()
    ensures StartCovers(m, prefix) <==> prefix != [DOT] && prefix != [DOT, DOT]
  {
    hide Split, Join, Resolve, Render, Normalize, Canonical, PathMapper.ListStart, LastSlash, Named,
      TrimSlashes;
    if prefix == [DOT] || prefix == [DOT, DOT] {
      DotPrefixLosesKeys(m, prefix);
    } else {
      forall key | Canonical(key) && prefix <= key
        ensures m.ListStart(prefix).Some?
        ensures PathMapper(m.ListStart(prefix).value).Base() <= m.Base() + key
      {
        var sp := MatchedPrefixStarts(prefix, key);
        ListStartCanonical(m, prefix, sp);
        StartPathBase(m, sp);
        PrefixTransitive(sp, prefix, key);
        assert m.Base() + key == m.Base() + sp + key[|sp|..];
      }
    }
  }

  /** Everything strictly below the start directory starts with root and `sp`. */
  lemma StartPathBase(m: PathMapper, sp: Bytes)
    requires m.Valid() && (sp == [] || (sp[|sp| - 1] == SLASH && Canonical(sp[..|sp| - 1])))
    ensures PathMapper(StartPath(m, sp)).Base() == m.Base() + sp
  {
    if sp != [] {
      var dir := sp[..|sp| - 1];
      assert sp == dir + [SLASH];
      CanonicalShape(dir);
      assert |m.Base() + dir| > 1;
      assert m.Base() + dir + [SLASH] == m.Base() + sp;
    }
  }

  /** The slash-less prefix `.` (or `..`) starts the key `..hidden`, but gets no start. */
  lemma DotPrefixLosesKeys(m: PathMapper, prefix: Bytes)
    requires prefix == [DOT] || prefix == [DOT, DOT]
    ensures m.ListStart(prefix) == None
    ensures Canonical([DOT, DOT, 104]) && prefix <= [DOT, DOT, 104]
  {
    SplitNoSlash(prefix);
    SplitNoSlash([DOT, DOT, 104]);
  }

  /** The start directory is the root or below it. */
  lemma ListStartContained(m: PathMapper, prefix: Bytes)
    requires m.Valid()
    ensures m.ListStart(prefix).Some? ==>
              var p := m.ListStart(prefix).value;
              p == m.root || (m.Base() <= p && Canonical(p[|m.Base()|..]))
  {
    if m.ListStart(prefix).Some? && LastSlash(prefix).Some? {
      KeyPathContained(m, prefix[..LastSlash(prefix).value + 1]);
    }
  }
}
