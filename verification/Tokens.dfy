/** Continuation tokens: base64 of the last key in the URL-safe alphabet without padding,
    read back in that form or in the older standard form. */
module Tokens {
  import opened ByteStrings
  import opened Sorting
  import opened Pagination

  // ----- UTF-8 (RFC 3629)

  predicate IsCont(b: byte) {
    128 <= b < 192
  }

  /** The length of the well-formed character that `s` starts with, or 0. */
  function CharLen(s: Bytes): (n: nat)
    ensures n <= |s| && n <= 4
    ensures n > 0 ==> !IsCont(s[0]) && forall i | 1 <= i < n :: IsCont(s[i])
  {
    if s == [] then 0
    else if s[0] < 128 then 1
    else if |s| >= 2 && 194 <= s[0] < 224 && IsCont(s[1]) then 2
    else if |s| >= 3 && IsCont(s[1]) && IsCont(s[2])
            && ((s[0] == 224 && s[1] >= 160) || 225 <= s[0] < 237 || (s[0] == 237 && s[1] < 160)
                || 238 <= s[0] < 240) then 3
    else if |s| >= 4 && IsCont(s[1]) && IsCont(s[2]) && IsCont(s[3])
            && ((s[0] == 240 && s[1] >= 144) || 241 <= s[0] < 244 || (s[0] == 244 && s[1] < 144)) then 4
    else 0
  }

  predicate ValidUtf8(s: Bytes) {
    s == [] || (CharLen(s) > 0 && ValidUtf8(s[CharLen(s)..]))
  }

  /** The code points that may be encoded: all but the surrogates. */
  type scalar = c: int | 0 <= c < 0xD800 || 0xE000 <= c < 0x11_0000

  ghost function Lead(tag: byte, x: nat): byte
    requires tag + x < 256
  {
    var b: int := tag + x;
    b
  }

  ghost function Trail(x: nat): byte {
    var b: int := 0x80 + x % 0x40;
    b
  }

  /** One character in one to four bytes (RFC 3629, section 3). */
  ghost function Utf8(c: scalar): Bytes {
    if c < 0x80 then [Lead(0, c)]
    else if c < 0x800 then [Lead(0xC0, c / 0x40), Trail(c)]
    else if c < 0x1_0000 then [Lead(0xE0, c / 0x1000), Trail(c / 0x40), Trail(c)]
    else [Lead(0xF0, c / 0x4_0000), Trail(c / 0x1000), Trail(c / 0x40), Trail(c)]
  }

  ghost function Utf8String(cs: seq<scalar>): Bytes {
    if cs == [] then [] else Utf8(cs[0]) + Utf8String(cs[1..])
  }

  /** The character a string starts with. */
  lemma CharOf(s: Bytes) returns (c: scalar)
    requires CharLen(s) > 0
    ensures Utf8(c) == s[..CharLen(s)]
  {
    var n := CharLen(s);
    if n == 1 {
      c := s[0];
    } else if n == 2 {
      c := TwoBytes(s[0], s[1]);
    } else if n == 3 {
      c := ThreeBytesOf(s[0], s[1], s[2]);
    } else {
      c := FourBytes(s[0], s[1], s[2], s[3]);
    }
  }

  lemma TwoBytes(x: byte, y: byte) returns (c: scalar)
    requires 194 <= x < 224 && IsCont(y)
    ensures Utf8(c) == [x, y]
  {
    var a: int, b: int := x, y;
    c := (a - 0xC0) * 0x40 + (b - 0x80);
    assert c / 0x40 == a - 0xC0 && c % 0x40 == b - 0x80;
  }

  lemma ThreeBytesOf(x: byte, y: byte, z: byte) returns (c: scalar)
    requires IsCont(y) && IsCont(z)
    requires (x == 224 && y >= 160) || 225 <= x < 237 || (x == 237 && y < 160) || 238 <= x < 240
    ensures Utf8(c) == [x, y, z]
  {
    var a: int, b: int, d: int := x, y, z;
    var high := (a - 0xE0) * 0x40 + (b - 0x80);
    assert high / 0x40 == a - 0xE0 && high % 0x40 == b - 0x80;
    c := high * 0x40 + (d - 0x80);
    assert c / 0x40 == high && c % 0x40 == d - 0x80 && c / 0x1000 == high / 0x40;
  }

  lemma FourBytes(x: byte, y: byte, z: byte, w: byte) returns (c: scalar)
    requires IsCont(y) && IsCont(z) && IsCont(w)
    requires (x == 240 && y >= 144) || 241 <= x < 244 || (x == 244 && y < 144)
    ensures Utf8(c) == [x, y, z, w]
  {
    var a: int, b: int, d: int, e: int := x, y, z, w;
    var top := (a - 0xF0) * 0x40 + (b - 0x80);
    assert top / 0x40 == a - 0xF0 && top % 0x40 == b - 0x80;
    var high := top * 0x40 + (d - 0x80);
    assert high / 0x40 == top && high % 0x40 == d - 0x80;
    c := high * 0x40 + (e - 0x80);
    assert c / 0x40 == high && c % 0x40 == e - 0x80 && c / 0x1000 == top && c / 0x4_0000 == top / 0x40;
  }

  lemma CharLenOf(c: scalar, rest: Bytes)
    ensures CharLen(Utf8(c) + rest) == |Utf8(c)|
  {
  }

  /** The valid strings are exactly the encodings of character strings. */
  lemma ValidUtf8Iff(s: Bytes)
    ensures ValidUtf8(s) <==> exists cs :: s == Utf8String(cs)
  {
    hide ValidUtf8, Utf8String;
    if ValidUtf8(s) {
      var cs := ValidIsEncoded(s);
    }
    if cs :| s == Utf8String(cs) {
      EncodedIsValid(cs);
    }
  }

  lemma {:induction false} ValidIsEncoded(s: Bytes) returns (cs: seq<scalar>)
    requires ValidUtf8(s)
    ensures s == Utf8String(cs)
    decreases |s|
  {
    hide CharLen, Utf8;
    if s == [] {
      cs := [];
    } else {
      var n := CharLen(s);
      var rest := ValidIsEncoded(s[n..]);
      var c := CharOf(s);
      StringCons(c, rest);
      cs := [c] + rest;
      assert s == s[..n] + s[n..];
    }
  }

  lemma StringCons(c: scalar, cs: seq<scalar>)
    ensures Utf8String([c] + cs) == Utf8(c) + Utf8String(cs)
  {
    assert ([c] + cs)[1..] == cs;
  }

  lemma {:induction false} EncodedIsValid(cs: seq<scalar>)
    ensures ValidUtf8(Utf8String(cs))
  {
    if cs != [] {
      var c, rest := Utf8(cs[0]), Utf8String(cs[1..]);
      EncodedIsValid(cs[1..]);
      CharLenOf(cs[0], rest);
      assert (c + rest)[|c|..] == rest;
    }
  }

  /** Cutting a valid string where no continuation byte stands leaves two valid strings. */
  lemma {:induction false} SplitAtBoundary(s: Bytes, i: nat)
    requires ValidUtf8(s) && i <= |s| && (i == |s| || !IsCont(s[i]))
    ensures ValidUtf8(s[..i]) && ValidUtf8(s[i..])
    decreases |s|
  {
    if i == 0 {
      assert s[..0] == [] && s[0..] == s;
    } else {
      var n := CharLen(s);
      var rest := s[n..];
      SplitAtBoundary(rest, i - n);
      assert rest[i - n..] == s[i..];
      assert s[..i][n..] == rest[..i - n];
      assert CharLen(s[..i]) == n;
    }
  }

  lemma {:induction false} ValidConcat(a: Bytes, b: Bytes)
    requires ValidUtf8(a) && ValidUtf8(b)
    ensures ValidUtf8(a + b)
    decreases |a|
  {
    if a == [] {
      assert a + b == b;
    } else {
      hide CharLen, ValidUtf8;
      ValidStep(a);
      ValidStep(a + b);
      var n := CharLen(a);
      ValidConcat(a[n..], b);
      DropConcat(a, b, n);
      CharLenExtends(a, b);
    }
  }

  lemma DropConcat(a: Bytes, b: Bytes, n: nat)
    requires n <= |a|
    ensures (a + b)[n..] == a[n..] + b
  {
  }

  lemma ValidStep(s: Bytes)
    requires s != []
    ensures ValidUtf8(s) <==> CharLen(s) > 0 && ValidUtf8(s[CharLen(s)..])
  {
  }

  lemma CharLenExtends(a: Bytes, b: Bytes)
    requires CharLen(a) > 0
    ensures CharLen(a + b) == CharLen(a)
  {
    assert forall i | 0 <= i < |a| :: (a + b)[i] == a[i];
  }

  lemma StartsWithChar(s: Bytes)
    requires ValidUtf8(s) && s != []
    ensures !IsCont(s[0])
  {
  }

  /** A common prefix of valid strings ends at a character boundary. */
  lemma CollapseIsValid(key: Bytes, prefix: Bytes, delimiter: Option<Bytes>)
    requires IsGrouped(key, prefix, delimiter)
    requires ValidUtf8(key) && ValidUtf8(delimiter.value)
    ensures ValidUtf8(Collapse(key, prefix, delimiter).value)
  {
    hide ValidUtf8, Find;
    var d := delimiter.value;
    var i := Find(key[|prefix|..], d).value;
    StartsWithChar(d);
    CutAfterDelimiter(key, prefix, d, i);
    SplitAtBoundary(key, |prefix| + i);
    ValidConcat(key[..|prefix| + i], d);
  }

  lemma CutAfterDelimiter(key: Bytes, prefix: Bytes, d: Bytes, i: nat)
    requires prefix <= key && d != [] && OccursAt(key[|prefix|..], d, i)
    ensures |prefix| + i < |key| && key[|prefix| + i] == d[0]
    ensures prefix + key[|prefix|..][..i + |d|] == key[..|prefix| + i] + d
  {
    var rest := key[|prefix|..];
    assert key == prefix + rest;
    assert rest[i] == rest[i..i + |d|][0];
    assert rest[..i + |d|] == rest[..i] + d;
    assert key[..|prefix| + i] == prefix + rest[..i];
  }

  lemma DirOutIsValid(dir: Bytes)
    requires ValidUtf8(dir)
    ensures ValidUtf8(DirOut(dir))
  {
    assert [SLASH][1..] == [] && CharLen([SLASH]) == 1;
    ValidConcat(dir, [SLASH]);
  }

  // ----- Base64 (RFC 4648, sections 4 and 5)

  type sextet = x: int | 0 <= x < 64

  const PAD: byte := 61

  datatype Alphabet = Standard | UrlSafe

  function Char(alphabet: Alphabet, x: sextet): byte {
    if x < 26 then 65 + x
    else if x < 52 then 71 + x
    else if x < 62 then x - 4
    else if x == 62 then (if alphabet == Standard then 43 else 45)
    else (if alphabet == Standard then 47 else 95)
  }

  /** The alphabets as RFC 4648 prints them, in tables 1 and 2. */
  const LETTERS := "ABCDEFGHIJKLMNOPQRSTUVWXYZ" + "abcdefghijklmnopqrstuvwxyz"
  const STANDARD := LETTERS + "0123456789+/"
  const URL_SAFE := LETTERS + "0123456789-_"

  lemma CharIs(x: sextet)
    ensures |STANDARD| == |URL_SAFE| == 64
    ensures Char(Standard, x) == STANDARD[x] as int && Char(UrlSafe, x) == URL_SAFE[x] as int
  {
    LetterIs(x);
    if x >= 52 {
      var digits, digits' := "0123456789+/", "0123456789-_";
      assert STANDARD[x] == digits[x - 52] && URL_SAFE[x] == digits'[x - 52];
    } else {
      assert STANDARD[x] == LETTERS[x] == URL_SAFE[x];
    }
  }

  lemma LetterIs(x: sextet)
    ensures |LETTERS| == 52 && (x < 52 ==> LETTERS[x] as int == Char(Standard, x) == Char(UrlSafe, x))
  {
    var upper, lower := "ABCDEFGHIJKLMNOPQRSTUVWXYZ", "abcdefghijklmnopqrstuvwxyz";
    assert x < 26 ==> LETTERS[x] == upper[x];
    assert 26 <= x < 52 ==> LETTERS[x] == lower[x - 26];
  }

  function Index(alphabet: Alphabet, c: byte): (r: Option<sextet>)
    ensures r.Some? ==> Char(alphabet, r.value) == c
  {
    if 65 <= c < 91 then Some(c - 65)
    else if 97 <= c < 123 then Some(c - 71)
    else if 48 <= c < 58 then Some(c + 4)
    else if c == Char(alphabet, 62) then Some(62)
    else if c == Char(alphabet, 63) then Some(63)
    else None
  }

  /** The groups that take bits of one, two or three neighbouring bytes. */
  function First(a: byte): sextet { var x: int := a / 4; x }
  function Second(a: byte, b: byte): sextet { var x: int := a % 4 * 16 + b / 16; x }
  function Third(b: byte, c: byte): sextet { var x: int := b % 16 * 4 + c / 64; x }
  function Fourth(c: byte): sextet { var x: int := c % 64; x }

  /** The bytes that take bits of two neighbouring groups. */
  function ByteA(x: sextet, y: sextet): byte { var a: int := x * 4 + y / 16; a }
  function ByteB(y: sextet, z: sextet): byte { var b: int := y % 16 * 16 + z / 4; b }
  function ByteC(z: sextet, w: sextet): byte { var c: int := z % 4 * 64 + w; c }

  /** Groups of six bits, the last group filled up with zero bits. */
  function Sextets(b: Bytes): seq<sextet> {
    if b == [] then []
    else if |b| == 1 then [First(b[0]), Second(b[0], 0)]
    else if |b| == 2 then [First(b[0]), Second(b[0], b[1]), Third(b[1], 0)]
    else [First(b[0]), Second(b[0], b[1]), Third(b[1], b[2]), Fourth(b[2])] + Sextets(b[3..])
  }

  /** The bytes of the groups; `None` for a lone group or filling bits that are not zero. */
  function Octets(s: seq<sextet>): Option<Bytes> {
    if s == [] then Some([])
    else if |s| == 1 then None
    else if |s| == 2 then (if s[1] % 16 != 0 then None else Some([ByteA(s[0], s[1])]))
    else if |s| == 3 then (if s[2] % 4 != 0 then None else Some([ByteA(s[0], s[1]), ByteB(s[1], s[2])]))
    else
      match Octets(s[4..])
      case None => None
      case Some(rest) => Some([ByteA(s[0], s[1]), ByteB(s[1], s[2]), ByteC(s[2], s[3])] + rest)
  }

  /** Packing and unpacking bits are inverse. */
  lemma BitsRoundTrip(a: byte, b: byte, c: byte)
    ensures ByteA(First(a), Second(a, b)) == a
    ensures ByteB(Second(a, b), Third(b, c)) == b
    ensures ByteC(Third(b, c), Fourth(c)) == c
    ensures Second(a, 0) % 16 == 0 && Third(b, 0) % 4 == 0
  {
  }

  lemma GroupsRoundTrip(x: sextet, y: sextet, z: sextet, w: sextet)
    ensures First(ByteA(x, y)) == x
    ensures Second(ByteA(x, y), ByteB(y, z)) == y && (y % 16 == 0 ==> Second(ByteA(x, y), 0) == y)
    ensures Third(ByteB(y, z), ByteC(z, w)) == z && (z % 4 == 0 ==> Third(ByteB(y, z), 0) == z)
    ensures Fourth(ByteC(z, w)) == w
  {
  }

  /** The lowest `n` bits, most significant first. */
  ghost function Bits(x: nat, n: nat): (r: seq<nat>)
    ensures |r| == n
  {
    if n == 0 then [] else Bits(x / 2, n - 1) + [x % 2]
  }

  ghost function Pow2(n: nat): nat {
    if n == 0 then 1 else 2 * Pow2(n - 1)
  }

  lemma Doubles(x: nat, p: nat)
    ensures x * (2 * p) == 2 * (x * p)
  {
  }

  /** Bits side by side. */
  lemma {:induction false} BitsJoin(x: nat, y: nat, m: nat, n: nat)
    requires y < Pow2(n)
    ensures Bits(x * Pow2(n) + y, m + n) == Bits(x, m) + Bits(y, n)
  {
    if n > 0 {
      var half := x * Pow2(n - 1);
      assert x * Pow2(n) == 2 * half by { Doubles(x, Pow2(n - 1)); }
      BitsJoin(x, y / 2, m, n - 1);
      assert (2 * half + y) / 2 == half + y / 2 && (2 * half + y) % 2 == y % 2;
      ConcatAssociates(Bits(x, m), Bits(y / 2, n - 1), [y % 2]);
    } else {
      assert Bits(x, m) + Bits(y, 0) == Bits(x, m);
    }
  }

  /** What the groups take from the bytes. */
  lemma BitsKept(a: byte, b: byte, c: byte)
    ensures Bits(a, 8) == Bits(First(a), 6) + Bits(a % 4, 2)
    ensures Bits(Second(a, b), 6) == Bits(a % 4, 2) + Bits(b / 16, 4)
    ensures Bits(b, 8) == Bits(b / 16, 4) + Bits(b % 16, 4)
    ensures Bits(Third(b, c), 6) == Bits(b % 16, 4) + Bits(c / 64, 2)
    ensures Bits(c, 8) == Bits(c / 64, 2) + Bits(Fourth(c), 6)
  {
    hide Bits;
    assert Pow2(1) == 2 && Pow2(2) == 4 && Pow2(3) == 8 && Pow2(4) == 16 && Pow2(5) == 32 && Pow2(6) == 64;
    BitsJoin(a / 4, a % 4, 6, 2);
    BitsJoin(a % 4, b / 16, 2, 4);
    BitsJoin(b / 16, b % 16, 4, 4);
    BitsJoin(b % 16, c / 64, 4, 2);
    BitsJoin(c / 64, c % 64, 2, 6);
  }

  lemma NoBits()
    ensures Bits(0, 2) == [0, 0] && Bits(0, 4) == [0, 0, 0, 0]
  {
    assert Bits(0, 1) == [0] && Bits(0, 3) == [0, 0, 0];
  }

  ghost function BitsOf(b: Bytes): (r: seq<nat>)
    ensures |r| == 8 * |b|
  {
    if b == [] then [] else Bits(b[0], 8) + BitsOf(b[1..])
  }

  ghost function GroupBits(s: seq<sextet>): (r: seq<nat>)
    ensures |r| == 6 * |s|
  {
    if s == [] then [] else Bits(s[0], 6) + GroupBits(s[1..])
  }

  ghost function Zeros(n: nat): seq<nat> {
    if n == 0 then [] else Zeros(n - 1) + [0]
  }

  lemma BitsOfCons(x: byte, b: Bytes)
    ensures BitsOf([x] + b) == Bits(x, 8) + BitsOf(b) && BitsOf([]) == []
  {
    assert ([x] + b)[1..] == b;
  }

  lemma GroupBitsCons(x: sextet, s: seq<sextet>)
    ensures GroupBits([x] + s) == Bits(x, 6) + GroupBits(s) && GroupBits([]) == []
  {
    assert ([x] + s)[1..] == s;
  }

  lemma ThreeBytes(a: byte, b: byte, c: byte, rest: Bytes)
    ensures BitsOf([a, b, c] + rest) == Bits(a, 8) + Bits(b, 8) + Bits(c, 8) + BitsOf(rest)
  {
    hide BitsOf, Bits;
    assert [a, b, c] + rest == [a] + ([b] + ([c] + rest));
    BitsOfCons(a, [b] + ([c] + rest));
    BitsOfCons(b, [c] + rest);
    BitsOfCons(c, rest);
  }

  lemma FourGroups(x: sextet, y: sextet, z: sextet, w: sextet, rest: seq<sextet>)
    ensures GroupBits([x, y, z, w] + rest) == Bits(x, 6) + Bits(y, 6) + Bits(z, 6) + Bits(w, 6) + GroupBits(rest)
  {
    hide GroupBits, Bits;
    assert [x, y, z, w] + rest == [x] + ([y] + ([z] + ([w] + rest)));
    GroupBitsCons(x, [y] + ([z] + ([w] + rest)));
    GroupBitsCons(y, [z] + ([w] + rest));
    GroupBitsCons(z, [w] + rest);
    GroupBitsCons(w, rest);
  }

  lemma Regroup(f: seq<nat>, a: seq<nat>, b: seq<nat>, c: seq<nat>, d: seq<nat>, g: seq<nat>, r: seq<nat>)
    ensures f + (a + b) + (c + d) + g + r == (f + a) + (b + c) + (d + g) + r
  {
  }

  /** The groups are the bits of the bytes in order, and as few zeros as fill the last. */
  lemma {:induction false} SextetsKeepBits(b: Bytes)
    ensures |Sextets(b)| == (4 * |b| + 2) / 3
    ensures GroupBits(Sextets(b)) == BitsOf(b) + Zeros(6 * |Sextets(b)| - 8 * |b|)
    decreases |b|
  {
    hide Bits, BitsOf, GroupBits, Zeros, First, Second, Third, Fourth;
    BitsOfCons(0, []);
    GroupBitsCons(0, []);
    NoBits();
    FewZeros();
    if |b| >= 3 {
      var rest := b[3..];
      SextetsKeepBits(rest);
      assert b == [b[0], b[1], b[2]] + rest;
      ThreeBytes(b[0], b[1], b[2], rest);
      FourGroups(First(b[0]), Second(b[0], b[1]), Third(b[1], b[2]), Fourth(b[2]), Sextets(rest));
      WholeGroup(b[0], b[1], b[2], GroupBits(Sextets(rest)));
      ConcatAssociates(Bits(b[0], 8) + Bits(b[1], 8) + Bits(b[2], 8), BitsOf(rest),
                       Zeros(6 * |Sextets(rest)| - 8 * |rest|));
    } else if |b| == 2 {
      TwoLeft(b[0], b[1]);
      assert b == [b[0], b[1]];
    } else if |b| == 1 {
      OneLeft(b[0]);
      assert b == [b[0]];
    } else {
      assert GroupBits([]) + Zeros(0) == [];
    }
  }

  lemma FewZeros()
    ensures Zeros(0) == [] && Zeros(2) == [0, 0] && Zeros(4) == [0, 0, 0, 0]
  {
    assert Zeros(1) == [0] && Zeros(3) == [0, 0, 0];
  }

  lemma WholeGroup(a: byte, b: byte, c: byte, s: seq<nat>)
    ensures Bits(First(a), 6) + Bits(Second(a, b), 6) + Bits(Third(b, c), 6) + Bits(Fourth(c), 6) + s
         == Bits(a, 8) + Bits(b, 8) + Bits(c, 8) + s
  {
    hide Bits, First, Second, Third, Fourth;
    BitsKept(a, b, c);
    Regroup(Bits(First(a), 6), Bits(a % 4, 2), Bits(b / 16, 4), Bits(b % 16, 4), Bits(c / 64, 2), Bits(Fourth(c), 6),
            s);
  }

  lemma TwoLeft(a: byte, b: byte)
    ensures GroupBits([First(a), Second(a, b), Third(b, 0)]) == BitsOf([a, b]) + [0, 0]
  {
    hide Bits, BitsOf, GroupBits, First, Second, Third;
    BitsKept(a, b, 0);
    NoBits();
    BitsOfCons(b, []);
    BitsOfCons(a, [b]);
    GroupBitsCons(Third(b, 0), []);
    GroupBitsCons(Second(a, b), [Third(b, 0)]);
    GroupBitsCons(First(a), [Second(a, b), Third(b, 0)]);
    assert [a] + [b] == [a, b] && [b] + [] == [b];
    assert [First(a)] + [Second(a, b), Third(b, 0)] == [First(a), Second(a, b), Third(b, 0)];
    assert [Second(a, b)] + [Third(b, 0)] == [Second(a, b), Third(b, 0)] && [Third(b, 0)] + [] == [Third(b, 0)];
    Regroup(Bits(First(a), 6), Bits(a % 4, 2), Bits(b / 16, 4), Bits(b % 16, 4), [0, 0], [], []);
  }

  lemma OneLeft(a: byte)
    ensures GroupBits([First(a), Second(a, 0)]) == BitsOf([a]) + [0, 0, 0, 0]
  {
    hide Bits, BitsOf, GroupBits, First, Second;
    BitsKept(a, 0, 0);
    NoBits();
    BitsOfCons(a, []);
    GroupBitsCons(Second(a, 0), []);
    GroupBitsCons(First(a), [Second(a, 0)]);
    assert [a] + [] == [a] && [Second(a, 0)] + [] == [Second(a, 0)];
    assert [First(a)] + [Second(a, 0)] == [First(a), Second(a, 0)];
    ConcatAssociates(Bits(First(a), 6), Bits(a % 4, 2), [0, 0, 0, 0]);
  }

  function Chars(alphabet: Alphabet, s: seq<sextet>): (r: Bytes)
    ensures |r| == |s| && forall i | 0 <= i < |r| :: r[i] == Char(alphabet, s[i])
  {
    seq(|s|, i requires 0 <= i < |s| => Char(alphabet, s[i]))
  }

  function Indices(alphabet: Alphabet, t: Bytes): (r: Option<seq<sextet>>)
    ensures r.None? <==> exists i | 0 <= i < |t| :: Index(alphabet, t[i]).None?
    ensures r.Some? ==> |r.value| == |t| && forall i | 0 <= i < |t| :: Index(alphabet, t[i]) == Some(r.value[i])
  {
    if t == [] then Some([]) else
      match (Indices(alphabet, t[..|t| - 1]), Index(alphabet, t[|t| - 1]))
      case (Some(s), Some(x)) => Some(s + [x])
      case _ => None
  }

  /** Padding to whole groups of four. */
  function Padding(n: nat): Bytes {
    if n % 4 == 2 then [PAD, PAD] else if n % 4 == 3 then [PAD] else []
  }

  function EncodeUrl(b: Bytes): Bytes {
    Chars(UrlSafe, Sextets(b))
  }

  function EncodeStandard(b: Bytes): Bytes {
    var chars := Chars(Standard, Sextets(b));
    chars + Padding(|chars|)
  }

  function DecodeChars(alphabet: Alphabet, t: Bytes): Option<Bytes> {
    match Indices(alphabet, t)
    case None => None
    case Some(s) => Octets(s)
  }

  /** The token without its trailing padding. */
  function Unpadded(t: Bytes): (r: Bytes)
    ensures r <= t
  {
    if t != [] && t[|t| - 1] == PAD then
      if |t| > 1 && t[|t| - 2] == PAD then t[..|t| - 2] else t[..|t| - 1]
    else t
  }

  function DecodeStandard(t: Bytes): Option<Bytes> {
    var chars := Unpadded(t);
    if t == chars + Padding(|chars|) then DecodeChars(Standard, chars) else None
  }

  /** `encode_token`. */
  function EncodeToken(key: Bytes): Bytes {
    EncodeUrl(key)
  }

  /** `decode_token`: the URL-safe form, else the standard form, of a UTF-8 string. */
  function DecodeToken(token: Bytes): Option<Bytes> {
    var bytes := match DecodeChars(UrlSafe, token)
                 case Some(b) => Some(b)
                 case None => DecodeStandard(token);
    if bytes.Some? && ValidUtf8(bytes.value) then bytes else None
  }

  /** A token is one URL-safe character for each group of six bits, without padding; the
      older form is the standard characters, padded to a multiple of four. */
  lemma TokenIs(key: Bytes)
    ensures |STANDARD| == |URL_SAFE| == 64
    ensures |EncodeToken(key)| == |Sextets(key)|
    ensures forall i | 0 <= i < |Sextets(key)| :: EncodeToken(key)[i] == URL_SAFE[Sextets(key)[i]] as int
    ensures var t, n := EncodeStandard(key), |Sextets(key)|;
            && |t| % 4 == 0 && n <= |t| < n + 4
            && (forall i | 0 <= i < n :: t[i] == STANDARD[Sextets(key)[i]] as int)
            && (forall c | c in t[n..] :: c == '=' as int)
  {
    hide STANDARD, URL_SAFE, Char, Sextets;
    SextetsKeepBits(key);
    CharIs(0);
    PaddingFills(|Sextets(key)|);
    var chars := Chars(Standard, Sextets(key));
    forall i | 0 <= i < |Sextets(key)|
      ensures chars[i] == STANDARD[Sextets(key)[i]] as int
      ensures EncodeToken(key)[i] == URL_SAFE[Sextets(key)[i]] as int
    {
      CharIs(Sextets(key)[i]);
    }
    hide Chars, Padding;
  }

  lemma PaddingFills(n: nat)
    requires n % 4 != 1
    ensures (n + |Padding(n)|) % 4 == 0 && |Padding(n)| <= 2 && forall c | c in Padding(n) :: c == '=' as int
  {
  }

  lemma IndexOfChar(alphabet: Alphabet, x: sextet)
    ensures Index(alphabet, Char(alphabet, x)) == Some(x)
  {
  }

  lemma {:induction false} OctetsOfSextets(b: Bytes)
    ensures Octets(Sextets(b)) == Some(b)
    decreases |b|
  {
    hide First, Second, Third, Fourth, ByteA, ByteB, ByteC;
    if |b| >= 3 {
      OctetsOfSextets(b[3..]);
      BitsRoundTrip(b[0], b[1], b[2]);
      assert Sextets(b)[4..] == Sextets(b[3..]);
      assert b == [b[0], b[1], b[2]] + b[3..];
    } else if |b| == 2 {
      BitsRoundTrip(b[0], b[1], 0);
      assert b == [b[0], b[1]];
    } else if |b| == 1 {
      BitsRoundTrip(b[0], 0, 0);
      assert b == [b[0]];
    }
  }

  lemma {:induction false} SextetsOfOctets(s: seq<sextet>)
    requires Octets(s).Some?
    ensures Sextets(Octets(s).value) == s
    decreases |s|
  {
    hide First, Second, Third, Fourth, ByteA, ByteB, ByteC;
    if |s| >= 4 {
      SextetsOfOctets(s[4..]);
      GroupsRoundTrip(s[0], s[1], s[2], s[3]);
      var b := Octets(s).value;
      assert b[3..] == Octets(s[4..]).value;
      assert s == [s[0], s[1], s[2], s[3]] + s[4..];
    } else if |s| == 3 {
      GroupsRoundTrip(s[0], s[1], s[2], 0);
      assert s == [s[0], s[1], s[2]];
    } else if |s| == 2 {
      GroupsRoundTrip(s[0], s[1], 0, 0);
      assert s == [s[0], s[1]];
    }
  }

  /** One alphabet's decoder inverts its encoder, and accepts nothing else. */
  lemma DecodeCharsIff(alphabet: Alphabet, t: Bytes, b: Bytes)
    ensures DecodeChars(alphabet, t) == Some(b) <==> t == Chars(alphabet, Sextets(b))
  {
    OctetsOfSextets(b);
    if t == Chars(alphabet, Sextets(b)) {
      forall i | 0 <= i < |t|
        ensures Index(alphabet, t[i]) == Some(Sextets(b)[i])
      {
        IndexOfChar(alphabet, Sextets(b)[i]);
      }
      assert Indices(alphabet, t).value == Sextets(b);
    }
    if DecodeChars(alphabet, t) == Some(b) {
      SextetsOfOctets(Indices(alphabet, t).value);
    }
  }

  lemma PaddingIsNoChar(b: Bytes)
    ensures PAD !in Chars(Standard, Sextets(b)) && PAD !in Chars(UrlSafe, Sextets(b))
  {
  }

  lemma DecodeStandardIff(t: Bytes, b: Bytes)
    ensures DecodeStandard(t) == Some(b) <==> t == EncodeStandard(b)
  {
    var chars := Chars(Standard, Sextets(b));
    PaddingIsNoChar(b);
    if t == EncodeStandard(b) {
      assert chars != [] ==> chars[|chars| - 1] in chars;
      assert Unpadded(t) == chars;
    }
    DecodeCharsIff(Standard, Unpadded(t), b);
  }

  lemma PaddingShows(b: Bytes)
    ensures PAD !in EncodeStandard(b) ==> EncodeStandard(b) == Chars(Standard, Sextets(b))
  {
    var t := EncodeStandard(b);
    var chars := Chars(Standard, Sextets(b));
    if Padding(|chars|) != [] {
      assert t[|t| - 1] == PAD;
    }
  }

  /** A standard token the URL-safe decoder also reads means the same. */
  lemma FormsAgree(t: Bytes, b: Bytes, c: Bytes)
    requires t == Chars(UrlSafe, Sextets(b)) && t == EncodeStandard(c)
    ensures b == c
  {
    var x, y := Sextets(b), Sextets(c);
    PaddingIsNoChar(b);
    PaddingShows(c);
    forall i | 0 <= i < |x|
      ensures x[i] == y[i]
    {
      assert Char(UrlSafe, x[i]) == t[i] == Char(Standard, y[i]);
    }
    assert x == y;
    OctetsOfSextets(b);
    OctetsOfSextets(c);
  }

  /** The decoder accepts exactly the two encodings of UTF-8 strings, and gives each back. */
  lemma DecodeTokenIff(t: Bytes, k: Bytes)
    ensures DecodeToken(t) == Some(k) <==> ValidUtf8(k) && (t == EncodeToken(k) || t == EncodeStandard(k))
  {
    DecodeCharsIff(UrlSafe, t, k);
    DecodeStandardIff(t, k);
    if DecodeChars(UrlSafe, t).Some? {
      var b := DecodeChars(UrlSafe, t).value;
      DecodeCharsIff(UrlSafe, t, b);
      if t == EncodeStandard(k) {
        FormsAgree(t, b, k);
      }
    }
  }
}
