/** Byte ranges and the exact-length body of a GET. */
module Ranges {
  import opened ByteStrings
  import opened Namespaces

  newtype u64 = x: int | 0 <= x < 0x1_0000_0000_0000_0000

  datatype ByteRange = From(first: u64) | Inclusive(first: u64, last: u64) | Suffix(length: u64)

  /** The byte positions a range asks for (section 14.1.2 of RFC 9110), cut to the file. */
  ghost predicate Requested(fileLen: int, range: ByteRange, i: int) {
    && 0 <= i < fileLen
    && match range
       case From(first) => first as int <= i
       case Inclusive(first, last) => first as int <= i <= last as int
       case Suffix(length) => fileLen - length as int <= i
  }

  /** `resolve_range`: the window of exactly the requested bytes; none if there are none. */
  function ResolveRange(fileLen: u64, range: ByteRange): (r: Option<(u64, u64)>)
    ensures r.Some? ==> r.value.0 < r.value.1 <= fileLen
    ensures r.Some? ==>
            forall i {:trigger Requested(fileLen as int, range, i)} ::
                Requested(fileLen as int, range, i) == (r.value.0 as int <= i < r.value.1 as int)
    ensures r.None? ==> forall i {:trigger Requested(fileLen as int, range, i)} :: !Requested(fileLen as int, range, i)
  {
    match range
    case From(first) =>
      if first >= fileLen then None else Some((first, fileLen))
    case Inclusive(first, last) =>
      if first >= fileLen then None else
        var cut := if last <= fileLen - 1 then last else fileLen - 1;
        if first > cut then None else Some((first, cut + 1))
    case Suffix(length) =>
      if length == 0 then None else
        var cut := if length <= fileLen then length else fileLen;
        if cut == 0 then None else Some((fileLen - cut, fileLen))
  }

  /** A window is unsatisfiable exactly when no byte is requested. */
  lemma ResolvesIffRequested(fileLen: u64, range: ByteRange)
    ensures ResolveRange(fileLen, range).Some? <==>
              exists i {:trigger Requested(fileLen as int, range, i)} :: Requested(fileLen as int, range, i)
  {
    var r := ResolveRange(fileLen, range);
    if r.Some? {
      assert Requested(fileLen as int, range, r.value.0 as int);
    }
  }

  datatype Window = Window(start: u64, end: u64, contentLength: u64, contentRange: Option<(u64, u64, u64)>)

  /** The window of a GET and its `Content-Range`: first byte, last byte, file length. */
  function WindowOf(fileLen: u64, range: Option<ByteRange>): (r: Option<Window>)
    ensures r.Some? ==> r.value.start <= r.value.end <= fileLen && r.value.contentLength == r.value.end - r.value.start
    ensures r.Some? ==> (r.value.contentRange.Some? <==> range.Some?)
    ensures range.None? ==> r.Some? && r.value.start == 0 && r.value.end == fileLen
    ensures range.Some? && r.Some? ==>
              var (first, last, size) := r.value.contentRange.value;
              && size == fileLen && first == r.value.start && Requested(fileLen as int, range.value, last as int)
              && forall i {:trigger Requested(fileLen as int, range.value, i)} ::
                   Requested(fileLen as int, range.value, i) == (first as int <= i <= last as int)
    ensures r.None? ==>
            range.Some? && forall i {:trigger Requested(fileLen as int, range.value, i)} ::
                !Requested(fileLen as int, range.value, i)
  {
    match range
    case None => Some(Window(0, fileLen, fileLen, None))
    case Some(asked) =>
      match ResolveRange(fileLen, asked)
      case None => None
      case Some((s, e)) => Some(Window(s, e, e - s, Some((s, e - 1, fileLen))))
  }

  // ----- The body

  /** What the upstream reader yields: bytes, or a failure. */
  datatype Chunk = Data(bytes: Bytes) | Failed(code: nat)

  datatype BodyError = Upstream(code: nat) | ShortRead(expected: nat, got: nat)

  type Item = Result<Bytes, BodyError>

  function Truncate(b: Bytes, n: nat): Bytes {
    if |b| > n then b[..n] else b
  }

  /** Everything the body yields, with `remaining` of `limit` bytes to go. */
  function Drain(upstream: seq<Chunk>, limit: nat, remaining: nat): seq<Item>
    requires remaining <= limit
    decreases |upstream|, remaining
  {
    if remaining == 0 then []
    else if upstream == [] then [Err(ShortRead(limit, limit - remaining))]
    else match upstream[0]
      case Data(b) =>
        [Ok(Truncate(b, remaining))] + Drain(upstream[1..], limit, remaining - |Truncate(b, remaining)|)
      case Failed(code) =>
        [Err(Upstream(code))] + Drain(upstream[1..], limit, remaining)
  }

  /** `bytes_stream`: enforces an exact content length on the upstream chunks. */
  class BytesStream {
    var upstream: seq<Chunk>
    const limit: nat
    var remaining: nat

    constructor (upstream: seq<Chunk>, contentLength: nat)
      ensures this.upstream == upstream && limit == contentLength && remaining == contentLength
    {
      this.upstream := upstream;
      this.limit := contentLength;
      this.remaining := contentLength;
    }

    /** One poll. What it yields comes first in what was still to come. */
    method Next() returns (r: Option<Item>)
      requires remaining <= limit
      modifies this
      ensures remaining <= limit
      ensures match r
              case None => Drain(old(upstream), limit, old(remaining)) == [] && remaining == 0
              case Some(item) =>
                Drain(old(upstream), limit, old(remaining)) == [item] + Drain(upstream, limit, remaining)
      ensures r.Some? ==> |upstream| < |old(upstream)| || (upstream == old(upstream) && remaining < old(remaining))
    {
      if remaining == 0 {
        return None;
      }
      if upstream == [] {
        var got := limit - remaining;
        remaining := 0;
        return Some(Err(ShortRead(limit, got)));
      }
      var next := upstream[0];
      upstream := upstream[1..];
      match next
      case Data(bytes) =>
        var kept := bytes;
        if |kept| > remaining {
          kept := kept[..remaining];
        }
        remaining := remaining - |kept|;
        r := Some(Ok(kept));
      case Failed(code) =>
        r := Some(Err(Upstream(code)));
    }
  }

  /** Polling until nothing comes yields the whole body. */
  method ReadAll(stream: BytesStream) returns (items: seq<Item>)
    requires stream.remaining <= stream.limit
    modifies stream
    ensures items == Drain(old(stream.upstream), stream.limit, old(stream.remaining))
  {
    items := [];
    var more := true;
    while more
      invariant stream.remaining <= stream.limit
      invariant items + (if more then Drain(stream.upstream, stream.limit, stream.remaining) else [])
             == Drain(old(stream.upstream), stream.limit, old(stream.remaining))
      decreases more, |stream.upstream|, stream.remaining
    {
      var item := stream.Next();
      if item.Some? {
        items := items + [item.value];
      } else {
        more := false;
      }
    }
  }

  // ----- What the body delivers

  function OkBytes(items: seq<Item>): Bytes {
    if items == [] then [] else (if items[0].Ok? then items[0].value else []) + OkBytes(items[1..])
  }

  function DataBytes(upstream: seq<Chunk>): Bytes {
    if upstream == [] then [] else (if upstream[0].Data? then upstream[0].bytes else []) + DataBytes(upstream[1..])
  }

  ghost predicate ErrorFree(items: seq<Item>) {
    forall i | 0 <= i < |items| :: items[i].Ok?
  }

  /** The delivered bytes are those of the upstream, in order, cut at the content length. */
  lemma {:induction false} DeliversUpstream(upstream: seq<Chunk>, limit: nat, remaining: nat)
    requires remaining <= limit
    ensures OkBytes(Drain(upstream, limit, remaining)) == Truncate(DataBytes(upstream), remaining)
    decreases |upstream|
  {
    if remaining > 0 && upstream != [] {
      var rest := upstream[1..];
      match upstream[0]
      case Data(b) =>
        var kept := Truncate(b, remaining);
        DeliversUpstream(rest, limit, remaining - |kept|);
        assert Drain(upstream, limit, remaining)[1..] == Drain(rest, limit, remaining - |kept|);
        assert Truncate(b + DataBytes(rest), remaining) == kept + Truncate(DataBytes(rest), remaining - |kept|);
      case Failed(code) =>
        DeliversUpstream(rest, limit, remaining);
        assert Drain(upstream, limit, remaining)[1..] == Drain(rest, limit, remaining);
    }
  }

  /** The body ends in `ShortRead`, with the number of bytes delivered, exactly when the
      upstream has fewer bytes than declared; upstream failures read on the way are passed
      on, and there is no other error. */
  lemma {:induction false} ShortReadIff(upstream: seq<Chunk>, limit: nat, remaining: nat)
    requires remaining <= limit
    ensures var items := Drain(upstream, limit, remaining);
            && (|DataBytes(upstream)| < remaining <==>
                  items != [] && items[|items| - 1] == Err(ShortRead(limit, limit - remaining + |DataBytes(upstream)|)))
            && (forall i | 0 <= i < |items| && items[i].Err? ::
                  items[i].error.Upstream? || (i == |items| - 1 && |DataBytes(upstream)| < remaining))
            && (forall i | 0 <= i < |items| && items[i].Err? && items[i].error.Upstream? ::
                Failed(items[i].error.code) in upstream)
    decreases |upstream|
  {
    if remaining > 0 && upstream != [] {
      var rest := upstream[1..];
      var left := LeftAfter(upstream[0], remaining);
      ShortReadIff(rest, limit, left);
      FirstItem(upstream, limit, remaining);
      hide Drain, DataBytes, LeftAfter;
      var items, tail := Drain(upstream, limit, remaining), Drain(rest, limit, left);
      assert forall i | 0 < i < |items| :: items[i] == tail[i - 1];
      assert forall c | c in rest :: c in upstream;
      assert upstream[0] in upstream;
    }
  }

  function LeftAfter(chunk: Chunk, remaining: nat): nat {
    match chunk
    case Data(b) => remaining - |Truncate(b, remaining)|
    case Failed(_) => remaining
  }

  /** What the first chunk yields, and what it leaves to come. */
  lemma FirstItem(upstream: seq<Chunk>, limit: nat, remaining: nat)
    requires 0 < remaining <= limit && upstream != []
    ensures var (rest, left) := (upstream[1..], LeftAfter(upstream[0], remaining));
            var items := Drain(upstream, limit, remaining);
            && items == [items[0]] + Drain(rest, limit, left)
            && (items[0].Err? ==> upstream[0].Failed? && items[0] == Err(Upstream(upstream[0].code)))
            && (|DataBytes(upstream)| < remaining <==> |DataBytes(rest)| < left)
            && (|DataBytes(upstream)| < remaining ==> |DataBytes(upstream)| - remaining == |DataBytes(rest)| - left)
  {
  }

  // ----- Which chunks are read, and what becomes of each

  lemma DataGrows(upstream: seq<Chunk>, k: nat)
    requires k < |upstream|
    ensures DataBytes(upstream[..k + 1])
              == (if upstream[0].Data? then upstream[0].bytes else []) + DataBytes(upstream[1..][..k])
  {
    assert upstream[..k + 1][1..] == upstream[1..][..k];
  }

  /** The body reads chunk after chunk until the declared bytes are there, and no more. */
  ghost predicate ReadsChunks(upstream: seq<Chunk>, remaining: nat, k: nat) {
    && k <= |upstream|
    && (forall j | 0 <= j < k :: |DataBytes(upstream[..j])| < remaining)
    && (k == |upstream| || |DataBytes(upstream[..k])| >= remaining)
  }

  /** What a chunk read at `j` becomes: bytes cut at what is still to come, or its failure. */
  ghost predicate Becomes(upstream: seq<Chunk>, remaining: nat, j: nat, item: Item)
    requires j < |upstream| && |DataBytes(upstream[..j])| <= remaining
  {
    match upstream[j]
    case Data(b) => item == Ok(Truncate(b, remaining - |DataBytes(upstream[..j])|))
    case Failed(code) => item == Err(Upstream(code))
  }

  /** A chunk becomes the same read from here as read from the next chunk on. */
  lemma ChunkOfTail(upstream: seq<Chunk>, remaining: nat, j: nat)
    requires j + 1 < |upstream| && |DataBytes(upstream[1..][..j])| < LeftAfter(upstream[0], remaining)
    ensures |DataBytes(upstream[..j + 1])| < remaining
    ensures forall item | Becomes(upstream[1..], LeftAfter(upstream[0], remaining), j, item) ::
              Becomes(upstream, remaining, j + 1, item)
  {
    DataGrows(upstream, j);
    assert upstream[1..][j] == upstream[j + 1];
  }

  lemma ReadToTail(upstream: seq<Chunk>, remaining: nat, k: nat)
    requires k < |upstream|
    ensures |DataBytes(upstream[1..][..k])| >= LeftAfter(upstream[0], remaining) ==>
              |DataBytes(upstream[..k + 1])| >= remaining
  {
    DataGrows(upstream, k);
  }

  lemma FirstBecomes(upstream: seq<Chunk>, limit: nat, remaining: nat)
    requires 0 < remaining <= limit && upstream != []
    ensures DataBytes(upstream[..0]) == [] && Becomes(upstream, remaining, 0, Drain(upstream, limit, remaining)[0])
  {
    assert upstream[..0] == [];
  }

  /** The items are, in order, what the chunks read become, and after them a short read if
      the upstream was too short: every failure met on the way is reported, in its place. */
  lemma {:induction false} ItemsAreChunks(upstream: seq<Chunk>, limit: nat, remaining: nat) returns (k: nat)
    requires remaining <= limit
    ensures ReadsChunks(upstream, remaining, k)
    ensures var items := Drain(upstream, limit, remaining);
            && |items| == k + (if |DataBytes(upstream)| < remaining then 1 else 0)
            && forall j | 0 <= j < k :: Becomes(upstream, remaining, j, items[j])
    decreases |upstream|
  {
    if remaining == 0 {
      k := 0;
    } else if upstream == [] {
      k := 0;
      assert upstream[..0] == [];
    } else {
      FirstItem(upstream, limit, remaining);
      FirstBecomes(upstream, limit, remaining);
      hide Drain, LeftAfter, Becomes, DataBytes;
      var rest, left := upstream[1..], LeftAfter(upstream[0], remaining);
      var k0 := ItemsAreChunks(rest, limit, left);
      k := k0 + 1;
      var items, tail := Drain(upstream, limit, remaining), Drain(rest, limit, left);
      forall j | 0 <= j < k
        ensures |DataBytes(upstream[..j])| < remaining && Becomes(upstream, remaining, j, items[j])
      {
        if j > 0 {
          ChunkOfTail(upstream, remaining, j - 1);
          assert items[j] == tail[j - 1];
        }
      }
      ReadToTail(upstream, remaining, k0);
    }
  }

  /** The first `k` chunks are sound and hold the declared bytes. */
  ghost predicate Suffices(upstream: seq<Chunk>, remaining: nat, k: nat) {
    k <= |upstream| && |DataBytes(upstream[..k])| >= remaining && forall j | 0 <= j < k :: upstream[j].Data?
  }

  /** A body ends without error exactly when the declared bytes are there before the first
      failure. */
  lemma ErrorFreeIff(upstream: seq<Chunk>, limit: nat, remaining: nat)
    requires remaining <= limit
    ensures ErrorFree(Drain(upstream, limit, remaining)) <==> exists k: nat :: Suffices(upstream, remaining, k)
  {
    var items := Drain(upstream, limit, remaining);
    var k := ItemsAreChunks(upstream, limit, remaining);
    assert upstream[..|upstream|] == upstream;
    ShortReadIff(upstream, limit, remaining);
    if ErrorFree(items) {
      forall j | 0 <= j < k
        ensures upstream[j].Data?
      {
        assert Becomes(upstream, remaining, j, items[j]);
      }
      assert Suffices(upstream, remaining, k);
    }
    if k': nat :| Suffices(upstream, remaining, k') {
      DataMonotone(upstream, k', |upstream|);
    }
  }

  lemma {:induction false} DataMonotone(upstream: seq<Chunk>, j: nat, k: nat)
    requires j <= k <= |upstream|
    ensures |DataBytes(upstream[..j])| <= |DataBytes(upstream[..k])|
  {
    if j > 0 {
      DataGrows(upstream, j - 1);
      DataGrows(upstream, k - 1);
      DataMonotone(upstream[1..], j - 1, k - 1);
    }
  }

  /** A GET body is exact: over any chunking of the content from the start of the window,
      with any failures in between, the body delivers a prefix of the window, the whole
      window when it ends without error, and so exactly when no chunk fails and the
      upstream is long enough. */
  lemma BodyIsSlice(content: Bytes, w: Window, upstream: seq<Chunk>)
    requires w.start as int <= w.end as int <= |content| && w.contentLength == w.end - w.start
    requires DataBytes(upstream) <= content[w.start..]
    ensures var n := w.contentLength as nat;
            var items := Drain(upstream, n, n);
            && OkBytes(items) <= content[w.start..w.end]
            && (ErrorFree(items) ==> OkBytes(items) == content[w.start..w.end])
            && ((forall c | c in upstream :: c.Data?) ==> (ErrorFree(items) <==> |DataBytes(upstream)| >= n))
  {
    var n := w.contentLength as nat;
    DeliversUpstream(upstream, n, n);
    ShortReadIff(upstream, n, n);
    assert content[w.start..w.end] == content[w.start..][..n];
    assert Truncate(DataBytes(upstream), n) <= content[w.start..w.end];
  }
}
