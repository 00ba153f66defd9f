/** The files of HDFS as histories: every state a path has been in, the last one current.
    External writers append to them; the gateway only reads the current state. */
module HdfsHistory {
  import opened ByteStrings
  import opened Namespaces
  import opened Ranges

  /** File contents have a 64-bit length. */
  type Content = b: Bytes | |b| < 0x1_0000_0000_0000_0000

  /** What an RPC on a path meets; `denied` is what opening a visible file fails with. */
  datatype PathState =
    | Missing
    | Failing(error: HdfsError)
    | Directory(mtime: nat)
    | File(content: Content, mtime: nat, denied: Option<HdfsError>)

  type History = seq<PathState>

  type Hdfs = map<Bytes, History>

  function HistoryOf(hdfs: Hdfs, path: Bytes): History {
    if path in hdfs then hdfs[path] else []
  }

  function Written(hdfs: Hdfs, path: Bytes, state: PathState): Hdfs {
    hdfs[path := HistoryOf(hdfs, path) + [state]]
  }

  /** A file's metadata; `version` marks the state it was read from, for the theorems only:
      no decision of the gateway looks at it. */
  datatype FileMeta = FileMeta(length: u64, isdir: bool, mtime: nat, version: nat)

  /** An open reader: the block map of one version of a file. */
  datatype Reader = Reader(length: u64, version: nat)

  function MetaAt(h: History, i: nat): Option<FileMeta>
    requires i < |h|
  {
    match h[i]
    case Missing => None
    case Failing(_) => None
    case Directory(t) => Some(FileMeta(0, true, t, i))
    case File(c, t, _) => Some(FileMeta(|c| as u64, false, t, i))
  }

  /** `get_file_info`. */
  function Stat(h: History): Result<FileMeta, HdfsError> {
    if h == [] then Err(FileNotFound) else
      match h[|h| - 1]
      case Missing => Err(FileNotFound)
      case Failing(e) => Err(e)
      case Directory(_) => Ok(MetaAt(h, |h| - 1).value)
      case File(_, _, _) => Ok(MetaAt(h, |h| - 1).value)
  }

  /** `read`: opens the current version and fetches its block map. */
  function Open(h: History): Result<Reader, HdfsError> {
    if h == [] then Err(FileNotFound) else
      match h[|h| - 1]
      case Missing => Err(FileNotFound)
      case Failing(e) => Err(e)
      case Directory(_) => Err(OtherError(0))
      case File(c, _, denied) => if denied.Some? then Err(denied.value) else Ok(Reader(|c| as u64, |h| - 1))
  }

  /** Version `i` is a file of this length and modification time. */
  ghost predicate Stamped(h: History, i: nat, length: u64, mtime: nat) {
    i < |h| && h[i].File? && |h[i].content| == length as int && h[i].mtime == mtime
  }

  /** Distinct versions of a file differ in length or modification time. */
  ghost predicate DistinctStamps(h: History) {
    forall i: nat, j: nat, length, mtime | Stamped(h, i, length, mtime) && Stamped(h, j, length, mtime) :: i == j
  }

  datatype Request = Head | Get(range: Option<ByteRange>)

  /** How a request ends. `Broken` is a GET whose body failed after its headers went out. */
  datatype Outcome =
    | NoSuchKey
    | StatFailed(error: HdfsError)
    | InvalidRange
    | Headers(meta: FileMeta)
    | OpenFailed(error: HdfsError)
    | Shrunk
    | Body(meta: FileMeta, window: Window, reader: Reader)
    | Broken(meta: FileMeta, window: Window, reader: Reader)

  /** The answer without any cache: two RPCs on the current state. */
  function Direct(h: History, request: Request): Outcome {
    match Stat(h)
    case Err(e) => if e.FileNotFound? then NoSuchKey else StatFailed(e)
    case Ok(meta) =>
      if meta.isdir then NoSuchKey else
        match request
        case Head => Headers(meta)
        case Get(range) =>
          match WindowOf(meta.length, range)
          case None => InvalidRange
          case Some(window) =>
            match Open(h)
            case Err(e) => OpenFailed(e)
            case Ok(reader) => Body(meta, window, reader)
  }

  /** The uncached answer in terms of the file: headers of the current content, and for a GET
      exactly the bytes asked for, unless there are none of them or opening is refused. */
  lemma DirectAnswers(h: History, state: PathState, request: Request)
    ensures Direct([], request) == NoSuchKey
    ensures var r := Direct(h + [state], request);
            match state
            case Missing => r == NoSuchKey
            case Failing(e) => r == if e == FileNotFound then NoSuchKey else StatFailed(e)
            case Directory(_) => r == NoSuchKey
            case File(content, mtime, denied) =>
              var meta := FileMeta(|content| as u64, false, mtime, |h|);
              match request
              case Head => r == Headers(meta)
              case Get(range) =>
                && (r == InvalidRange <==>
                      range.Some? && forall i {:trigger Requested(|content|, range.value, i)} ::
                        !Requested(|content|, range.value, i))
                && (r != InvalidRange && denied.Some? ==> r == OpenFailed(denied.value))
                && (r != InvalidRange && denied.None? ==>
                      && r.Body? && r.meta == meta && r.reader == Reader(|content| as u64, |h|)
                      && (range.None? ==> r.window.start == 0 && r.window.end as int == |content|)
                      && forall i {:trigger Requested(|content|, range.value, i)} | range.Some? ::
                           Requested(|content|, range.value, i) <==> r.window.start as int <= i < r.window.end as int)
  {
    assert (h + [state])[|h + [state]| - 1] == state;
  }
}
