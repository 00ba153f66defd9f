/** Byte strings under the lexicographic order of unsigned bytes, the order S3 keys are
    listed in and the order the standard library gives to byte slices. */
module ByteStrings {
  type byte = b: int | 0 <= b < 256

  type Bytes = seq<byte>

  /** The range of a `usize`. */
  const USIZE_MAX: nat := 0xFFFF_FFFF_FFFF_FFFF

  const SLASH: byte := 47
  const DOT: byte := 46

  datatype Ordering = Less | Equal | Greater {
    function Reverse(): Ordering {
      match this
      case Less => Greater
      case Equal => Equal
      case Greater => Less
    }
  }

  datatype Option<+T> = None | Some(value: T)

  /** `a` sorts before `b` because of position `k`: they agree before it, and there `a`
      has ended or holds the smaller byte. */
  predicate LtAt(a: Bytes, b: Bytes, k: nat) {
    && k <= |a|
    && k < |b|
    && a[..k] == b[..k]
    && (k == |a| || a[k] < b[k])
  }

  /** Strict lexicographic order. */
  predicate Lt(a: Bytes, b: Bytes) {
    exists k: nat | k <= |a| :: LtAt(a, b, k)
  }

  predicate Le(a: Bytes, b: Bytes) {
    a == b || Lt(a, b)
  }

  /** The three-way comparison of byte slices. */
  function Compare(a: Bytes, b: Bytes): Ordering {
    if a == b then Equal else if Lt(a, b) then Less else Greater
  }

  function CompareByte(a: byte, b: byte): Ordering {
    if a < b then Less else if a == b then Equal else Greater
  }

  /** The output of a directory: the string its keys start with. */
  function DirOut(dir: Bytes): Bytes {
    dir + [SLASH]
  }

  // ----- The order is a strict total order

  lemma LtIrreflexive(a: Bytes)
    ensures !Lt(a, a)
  {
  }

  lemma LtTransitive(a: Bytes, b: Bytes, c: Bytes)
    requires Lt(a, b) && Lt(b, c)
    ensures Lt(a, c)
  {
    var i: nat :| i <= |a| && LtAt(a, b, i);
    var j: nat :| j <= |b| && LtAt(b, c, j);
    var k := if i <= j then i else j;
    assert a[..k] == a[..i][..k] == b[..i][..k] == b[..k] by {
      if j < i { assert a[..k] == a[..i][..k]; }
    }
    assert b[..k] == b[..j][..k] == c[..j][..k] == c[..k];
    assert i < j ==> b[i] == b[..j][i] == c[i];
    assert j < i ==> a[j] == a[..i][j] == b[j];
    assert LtAt(a, c, k);
  }

  lemma LtAsymmetric(a: Bytes, b: Bytes)
    requires Lt(a, b)
    ensures !Lt(b, a) && a != b
  {
    LtIrreflexive(a);
    if Lt(b, a) {
      LtTransitive(a, b, a);
    }
  }

  lemma {:induction false} LtTotal(a: Bytes, b: Bytes)
    ensures a == b || Lt(a, b) || Lt(b, a)
    decreases |a|
  {
    if a == [] {
      if b != [] { assert LtAt(a, b, 0); }
    } else if b == [] {
      assert LtAt(b, a, 0);
    } else if a[0] == b[0] {
      LtTotal(a[1..], b[1..]);
      assert a == [a[0]] + a[1..] && b == [a[0]] + b[1..];
      LtPrepend([a[0]], a[1..], b[1..]);
      LtPrepend([a[0]], b[1..], a[1..]);
    } else {
      assert LtAt(a, b, 0) || LtAt(b, a, 0);
    }
  }

  lemma CompareMirrors(a: Bytes, b: Bytes)
    ensures Compare(b, a) == Compare(a, b).Reverse()
  {
    LtTotal(a, b);
    if Lt(a, b) { LtAsymmetric(a, b); }
    if Lt(b, a) { LtAsymmetric(b, a); }
  }

  lemma LeTransitive(a: Bytes, b: Bytes, c: Bytes)
    requires Le(a, b) && Le(b, c)
    ensures Le(a, c)
    ensures Lt(a, b) || Lt(b, c) ==> Lt(a, c)
  {
    if Lt(a, b) && Lt(b, c) { LtTransitive(a, b, c); }
  }

  lemma LtNotLe(a: Bytes, b: Bytes)
    ensures Lt(a, b) <==> !Le(b, a)
  {
    LtTotal(a, b);
    if Lt(a, b) { LtAsymmetric(a, b); }
  }

  // ----- Order and prefixes

  lemma LtPrepend(p: Bytes, a: Bytes, b: Bytes)
    ensures Lt(p + a, p + b) <==> Lt(a, b)
  {
    if Lt(a, b) {
      var k: nat :| k <= |a| && LtAt(a, b, k);
      assert (p + a)[..|p| + k] == p + a[..k] == p + b[..k] == (p + b)[..|p| + k];
      assert LtAt(p + a, p + b, |p| + k);
    }
    if Lt(p + a, p + b) {
      var k: nat :| k <= |p + a| && LtAt(p + a, p + b, k);
      assert |p| <= k;
      assert a[..k - |p|] == (p + a)[..k][|p|..] == (p + b)[..k][|p|..] == b[..k - |p|];
      assert LtAt(a, b, k - |p|);
    }
  }

  /** Nothing that starts with `p` sorts before `p`. */
  lemma PrefixLe(p: Bytes, a: Bytes)
    requires p <= a
    ensures Le(p, a)
    ensures p != a ==> Lt(p, a)
  {
    if p != a {
      assert LtAt(p, a, |p|);
    }
  }

  /** A string above `p` that does not start with `p` is above everything that does. */
  lemma AbovePrefixRange(p: Bytes, a: Bytes, b: Bytes)
    requires p <= a && !(p <= b) && Lt(p, b)
    ensures Lt(a, b)
  {
    var k: nat :| k <= |p| && LtAt(p, b, k);
    assert k < |p|;
    assert a[..k] == a[..|p|][..k] == p[..k] == b[..k];
    assert a[k] == p[k];
    assert LtAt(a, b, k);
  }

  /** A string below `p` is below everything that starts with `p`. */
  lemma BelowPrefixRange(p: Bytes, a: Bytes, b: Bytes)
    requires p <= a && Lt(b, p)
    ensures Lt(b, a)
  {
    PrefixLe(p, a);
    LeTransitive(b, p, a);
  }

  /** The strings that start with `p` form an interval. */
  lemma PrefixRangeConvex(p: Bytes, a: Bytes, b: Bytes, c: Bytes)
    requires p <= a && p <= c && Le(a, b) && Le(b, c)
    ensures p <= b
  {
    if !(p <= b) {
      PrefixLe(p, a);
      LeTransitive(p, a, b);
      AbovePrefixRange(p, c, b);
      LtNotLe(c, b);
    }
  }

  /** Of two prefixes of one string, one is a prefix of the other. */
  lemma PrefixesNest(p: Bytes, q: Bytes, a: Bytes)
    requires p <= a && q <= a && |p| <= |q|
    ensures p <= q
  {
    assert q == a[..|q|];
    assert q[..|p|] == a[..|p|];
  }

  lemma PrefixTransitive(p: Bytes, q: Bytes, a: Bytes)
    requires p <= q && q <= a
    ensures p <= a
  {
    assert a[..|p|] == a[..|q|][..|p|];
  }

  /** What a comparison that differs within a common part says about the whole. */
  lemma CompareWithin(a: Bytes, b: Bytes, k: nat)
    requires k <= |a| && k <= |b|
    ensures a[..k] != b[..k] ==> Compare(a, b) == Compare(a[..k], b[..k])
  {
    var x, y := a[..k], b[..k];
    if x != y {
      LtTotal(x, y);
      if Lt(x, y) { LtWithin(a, b, k); LtAsymmetric(a, b); }
      if Lt(y, x) { LtWithin(b, a, k); LtAsymmetric(b, a); LtAsymmetric(y, x); }
    }
  }

  lemma LtWithin(a: Bytes, b: Bytes, k: nat)
    requires k <= |a| && k <= |b| && Lt(a[..k], b[..k])
    ensures Lt(a, b)
  {
    var x, y := a[..k], b[..k];
    var i: nat :| i <= |x| && LtAt(x, y, i);
    assert a[..i] == x[..i] == y[..i] == b[..i];
    assert LtAt(a, b, i);
  }

  /** Comparing at the first position after a common part. */
  lemma CompareAt(a: Bytes, b: Bytes, k: nat)
    requires k <= |a| && k <= |b|
    ensures a[..k] == b[..k] ==>
              && (k < |a| && k < |b| && a[k] < b[k] ==> Compare(a, b) == Less)
              && (k < |a| && k < |b| && a[k] > b[k] ==> Compare(a, b) == Greater)
              && (k == |a| && k < |b| ==> Compare(a, b) == Less)
              && (k < |a| && k == |b| ==> Compare(a, b) == Greater)
  {
    if a[..k] == b[..k] {
      if k < |b| && (k == |a| || a[k] < b[k]) {
        assert LtAt(a, b, k);
        assert k == |a| ==> a != b;
      } else if k < |a| && (k == |b| || b[k] < a[k]) {
        assert LtAt(b, a, k);
        LtAsymmetric(b, a);
      }
    }
  }
}
