/** The live log: an append-positioned file that grows by frames and is cut back on rollback and reset. */
module WalFile {
  import opened Wrappers
  import opened Bytes
  import opened Buffers
  import opened Records
  import opened WalLog
  import opened FileSystem
  import opened Storage
  import Checksum
  import RecordCodec

  /** Whether an append is followed by a sync; `due` is the outcome of the interval test. */
  function Syncs(policy: FsyncPolicy, due: bool): (syncs: bool)
    ensures syncs <==> policy == Always || (policy == Periodic && due)
  {
    match policy
    case Always => true
    case Never => false
    case Periodic => due
  }

  // ---- the states each operation goes through when no step fails ----

  function HeaderStates(fs: Fs): (t: seq<Fs>)
    requires fs.wal.Some?
    ensures t != [] && Last(t).wal.Some?
  {
    var written := WalWritten(fs, 0, Header());
    [written, WalSynced(written)]
  }

  function CreateStates(fs: Fs): (t: seq<Fs>)
    ensures t != [] && Last(t).wal.Some?
  {
    [WalTruncated(fs)] + HeaderStates(WalTruncated(fs))
  }

  /** An existing log is only opened; a missing one is created with a header. */
  function OpenStates(fs: Fs): (t: seq<Fs>)
    ensures t != [] && Last(t).wal.Some?
  {
    if fs.wal.Some? then [WalOpened(fs)] else [WalOpened(fs)] + HeaderStates(WalOpened(fs))
  }

  function ResetStates(fs: Fs): (t: seq<Fs>)
    requires fs.wal.Some?
    ensures t != [] && Last(t).wal.Some?
  {
    [WalResized(fs, 0)] + HeaderStates(WalResized(fs, 0))
  }

  function AppendStates(fs: Fs, pos: nat, body: bytes, sync: bool): (t: seq<Fs>)
    requires fs.wal.Some?
    ensures t != [] && Last(t).wal.Some?
  {
    var headed := WalWritten(fs, pos, FrameHead(body));
    var framed := WalWritten(headed, pos + FRAME_HEAD, body);
    if sync then [headed, framed, WalSynced(framed)] else [headed, framed]
  }

  function RollbackStates(fs: Fs, mark: nat): (t: seq<Fs>)
    requires fs.wal.Some?
    ensures t != [] && Last(t).wal.Some?
  {
    [WalResized(fs, mark), WalSynced(WalResized(fs, mark))]
  }

  // ---- what a failed step can leave ----

  /** Only the log differs between the two states. */
  ghost predicate OnlyLog(fs0: Fs, fs: Fs) {
    fs.wal.Some? && fs == fs0.(wal := fs.wal)
  }

  /** The log is as before with the first `k` bytes of `frame` added, or could come back with fewer of them. */
  ghost predicate LogPlus(fs0: Fs, fs: Fs, frame: bytes, k: nat) {
    && fs0.wal.Some? && OnlyLog(fs0, fs) && k <= |frame|
    && fs.wal.value.data == fs0.wal.value.data + frame[..k]
    && forall c :: c in fs.wal.value.images ==>
         c in fs0.wal.value.images || exists j: nat :: j <= |frame| && c == fs0.wal.value.data + frame[..j]
  }

  lemma AppendAtEnd(data: bytes, chunk: bytes)
    ensures Overwrite(data, |data|, chunk) == data + chunk
  {
    assert data[..|data|] == data;
  }

  /** Writing a piece of a frame at the end of a log that holds the pieces before it. */
  lemma PieceWritten(fs0: Fs, fs: Fs, frame: bytes, k: nat, chunk: bytes)
    requires LogPlus(fs0, fs, frame, k) && k + |chunk| <= |frame| && chunk == frame[k..k + |chunk|]
    ensures LogPlus(fs0, WalWritten(fs, |fs.wal.value.data|, chunk), frame, k + |chunk|)
  {
    var data := fs.wal.value.data;
    AppendAtEnd(data, chunk);
    assert frame[..k] + chunk == frame[..k + |chunk|];
    var after := WalWritten(fs, |data|, chunk);
    forall c | c in after.wal.value.images && c !in fs.wal.value.images
      ensures exists j: nat :: j <= |frame| && c == fs0.wal.value.data + frame[..j]
    {
      var m :| 0 <= m <= |chunk| && c == Overwrite(data, |data|, chunk[..m]);
      AppendAtEnd(data, chunk[..m]);
      assert frame[..k] + chunk[..m] == frame[..k + m];
    }
  }

  lemma NothingWritten(fs: Fs, frame: bytes)
    requires fs.wal.Some?
    ensures LogPlus(fs, fs, frame, 0)
  {
    assert fs.wal.value.data + frame[..0] == fs.wal.value.data;
  }

  /** An append that meets no failure adds exactly one frame, at the end. */
  lemma FrameAppended(fs: Fs, body: bytes, sync: bool)
    requires fs.wal.Some?
    ensures LogPlus(fs, Last(AppendStates(fs, |fs.wal.value.data|, body, sync)), Frame(body), |Frame(body)|)
    ensures Last(AppendStates(fs, |fs.wal.value.data|, body, sync)).wal.value.data == fs.wal.value.data + Frame(body)
    ensures sync ==> Durable(Last(AppendStates(fs, |fs.wal.value.data|, body, sync)).wal)
  {
    hide FrameHead, Written, LogPlus;
    var data := fs.wal.value.data;
    NothingWritten(fs, Frame(body));
    PieceWritten(fs, fs, Frame(body), 0, FrameHead(body));
    var headed := WalWritten(fs, |data|, FrameHead(body));
    LogPlusData(fs, headed, Frame(body), FRAME_HEAD);
    PieceWritten(fs, headed, Frame(body), FRAME_HEAD, body);
    var framed := WalWritten(headed, |data| + FRAME_HEAD, body);
    LogPlusData(fs, framed, Frame(body), |Frame(body)|);
    LogPlusSynced(fs, framed, Frame(body), |Frame(body)|);
  }

  lemma LogPlusData(fs0: Fs, fs: Fs, frame: bytes, k: nat)
    requires LogPlus(fs0, fs, frame, k)
    ensures fs.wal.value.data == fs0.wal.value.data + frame[..k]
    ensures k == |frame| ==> fs.wal.value.data == fs0.wal.value.data + frame
    ensures |fs.wal.value.data| == |fs0.wal.value.data| + k
  {
    assert k == |frame| ==> frame[..k] == frame;
  }

  lemma LogPlusSynced(fs0: Fs, fs: Fs, frame: bytes, k: nat)
    requires LogPlus(fs0, fs, frame, k)
    ensures LogPlus(fs0, WalSynced(fs), frame, k)
  {
  }

  /** Cutting the log back to where a frame began undoes the append. */
  lemma FrameCutBack(fs0: Fs, fs: Fs, frame: bytes)
    requires LogPlus(fs0, fs, frame, |frame|)
    ensures Resize(fs.wal.value.data, |fs0.wal.value.data|) == fs0.wal.value.data
    ensures LogPlus(fs0, WalResized(fs, |fs0.wal.value.data|), frame, 0)
  {
    var data := fs0.wal.value.data;
    assert (data + frame[..|frame|])[..|data|] == data;
    assert data + frame[..0] == data;
  }

  lemma ResetGivesHeader(fs: Fs)
    requires fs.wal.Some?
    ensures Last(ResetStates(fs)) == fs.(wal := Some(Inode(Header(), {Header()})))
  {
    hide Header;
    AppendAtEnd([], Header());
    assert [] + Header() == Header();
  }

  lemma CreateGivesHeader(fs: Fs)
    ensures Last(CreateStates(fs)) == fs.(wal := Some(Inode(Header(), {Header()})))
  {
    hide Header;
    AppendAtEnd([], Header());
    assert [] + Header() == Header();
  }

  /** What a reset that fails half way leaves: the old log, or a piece of a fresh header. */
  ghost predicate PartlyReset(fs0: Fs, fs: Fs) {
    && fs0.wal.Some? && OnlyLog(fs0, fs)
    && (fs.wal.value.data == fs0.wal.value.data
        || exists k: nat :: k <= HEADER_LEN && fs.wal.value.data == Header()[..k])
  }

  /** What a creation that fails half way leaves: the log as it was, or a piece of a fresh header. */
  ghost predicate PartlyCreated(fs0: Fs, fs: Fs) {
    && fs == fs0.(wal := fs.wal)
    && (fs.wal == fs0.wal
        || (fs.wal.Some? && exists k: nat :: k <= HEADER_LEN && fs.wal.value.data == Header()[..k]))
  }

  /** What opening for append leaves when it fails: an existing log is as it was. */
  ghost predicate NotOpened(fs0: Fs, fs: Fs) {
    PartlyCreated(fs0, fs) && (fs0.wal.Some? ==> fs == fs0)
  }

  /** The log writer. `scratch` is reused from append to append. */
  class Wal {
    const disk: Disk
    const policy: FsyncPolicy
    const scratch: ByteBuf
    var pos: nat

    ghost predicate Valid()
      reads this, disk
    {
      disk.fs.wal.Some?
    }

    /** Appends go to the end of the file. */
    ghost predicate AtEnd()
      reads this, disk
    {
      Valid() && pos == |disk.fs.wal.value.data|
    }

    constructor (disk: Disk, policy: FsyncPolicy, pos: nat)
      ensures this.disk == disk && this.policy == policy && this.pos == pos && fresh(scratch)
    {
      this.disk := disk;
      this.policy := policy;
      this.pos := pos;
      scratch := new ByteBuf();
    }

    /** Creates or truncates the log and writes its header. */
    static method Create(disk: Disk, policy: FsyncPolicy) returns (r: Result<Wal>)
      modifies disk
      ensures r.Success? ==>
        && disk.Through(CreateStates(old(disk.fs)))
        && fresh(r.value) && fresh(r.value.scratch) && r.value.disk == disk && r.value.policy == policy
        && r.value.AtEnd()
      ensures r.Failure? ==> r.error == Io && PartlyCreated(old(disk.fs), disk.fs)
      ensures disk.Honest(r.Failure?)
    {
      hide Header;
      var _ :- disk.OpenWal(true);
      assert disk.fs.wal.value.data == [] == Header()[..0];
      var wal := new Wal(disk, policy, 0);
      var _ :- wal.WriteHeader();
      var _ :- disk.SyncWal();
      r := Success(wal);
    }

    /** Opens the log with the position at its end; only a log that did not exist gets a header. */
    static method OpenForAppend(disk: Disk, policy: FsyncPolicy) returns (r: Result<Wal>)
      modifies disk
      ensures r.Success? ==>
        && disk.Through(OpenStates(old(disk.fs)))
        && fresh(r.value) && fresh(r.value.scratch) && r.value.disk == disk && r.value.policy == policy
        && r.value.AtEnd()
      ensures r.Failure? ==> r.error == Io && NotOpened(old(disk.fs), disk.fs)
      ensures disk.Honest(r.Failure?)
    {
      hide Header;
      var existed := disk.fs.wal.Some?;
      var _ :- disk.OpenWal(false);
      var wal := new Wal(disk, policy, |disk.fs.wal.value.data|);
      if !existed {
        var _ :- wal.WriteHeader();
        var _ :- disk.SyncWal();
      }
      r := Success(wal);
    }

    method WriteHeader() returns (r: Result<()>)
      requires Valid() && pos == 0 && disk.fs.wal.value.data == []
      modifies this`pos, disk
      ensures AtEnd()
      ensures r.Success? ==> disk.Through([WalWritten(old(disk.fs), 0, Header())])
      ensures r.Failure? ==> r.error == Io && OnlyLog(old(disk.fs), disk.fs)
      ensures disk.Honest(r.Failure?)
      ensures exists k: nat :: k <= HEADER_LEN && disk.fs.wal.value.data == Header()[..k]
    {
      hide Header;
      var n;
      r, n := disk.WriteWal(pos, Header());
      pos := pos + n;
      AppendAtEnd([], Header()[..n]);
      assert [] + Header()[..n] == Header()[..n];
      assert Header()[..HEADER_LEN] == Header();
    }

    /** Cuts the log back to a bare header. */
    method Reset() returns (r: Result<()>)
      requires AtEnd()
      modifies this`pos, disk
      ensures AtEnd()
      ensures r.Success? ==> disk.Through(ResetStates(old(disk.fs)))
      ensures r.Failure? ==> r.error == Io && PartlyReset(old(disk.fs), disk.fs)
      ensures disk.Honest(r.Failure?)
    {
      hide Header;
      var _ :- disk.ResizeWal(0);
      pos := 0;
      assert disk.fs.wal.value.data == [];
      var _ :- WriteHeader();
      var _ :- disk.SyncWal();
      r := Success(());
    }

    method Mark() returns (mark: nat)
      ensures mark == pos
    {
      mark := pos;
    }

    /** Cuts the log back to `mark`, forgetting what was appended since. */
    method Rollback(mark: nat) returns (r: Result<()>)
      requires AtEnd() && mark <= pos
      modifies this`pos, disk
      ensures AtEnd()
      ensures r.Success? ==> disk.Through(RollbackStates(old(disk.fs), mark)) && pos == mark
      ensures r.Failure? ==>
        && r.error == Io
        && (   (disk.fs == old(disk.fs) && pos == old(pos))
            || disk.fs == WalResized(old(disk.fs), mark))
      ensures disk.Honest(r.Failure?)
    {
      var _ :- disk.ResizeWal(mark);
      pos := mark;
      r := disk.SyncWal();
    }

    /** Writes the frame of the body in `scratch`, then syncs if the policy says so. */
    method CommitRecord(due: bool) returns (r: Result<()>)
      requires AtEnd()
      modifies this`pos, disk
      ensures AtEnd()
      ensures r.Success? ==>
        && |scratch.data| < U32_LIMIT
        && disk.Through(AppendStates(old(disk.fs), old(pos), scratch.data, Syncs(policy, due)))
      ensures r.Failure? ==>
        || (&& r.error == InvalidPayload(RecordTooLong) && |scratch.data| >= U32_LIMIT
            && disk.Through([]) && pos == old(pos))
        || (r.error == Io && exists k: nat :: LogPlus(old(disk.fs), disk.fs, Frame(scratch.data), k))
      ensures disk.Honest(r.Failure? && r.error == Io)
    {
      hide FrameHead, Written;
      var body := scratch.data;
      if |body| >= U32_LIMIT {
        return Failure(InvalidPayload(RecordTooLong));
      }
      ghost var frame := Frame(body);
      var crc := Checksum.Compute(body);
      var head := Le(|body|, 4) + Le4(crc);
      HeadOf(body, crc);
      NothingWritten(disk.fs, frame);
      r := WritePiece(head, 0, disk.fs, frame);
      if r.Failure? {
        return;
      }
      r := WritePiece(body, FRAME_HEAD, old(disk.fs), frame);
      if r.Failure? {
        return;
      }
      r := MaybeSync(due);
    }

    /** Syncs as the policy asks; `due` is whether the interval since the last sync has passed. */
    method MaybeSync(due: bool) returns (r: Result<()>)
      requires Valid()
      modifies disk
      ensures r.Success? && (policy == Always || (policy == Periodic && due)) ==>
        disk.Through([WalSynced(old(disk.fs))])
      ensures policy == Never || (policy == Periodic && !due) ==> r.Success? && disk.Through([])
      ensures r.Failure? ==> r.error == Io && disk.Through([])
      ensures disk.Honest(r.Failure?)
    {
      r := Success(());
      match policy {
        case Always =>
          r := disk.SyncWal();
        case Never =>
        case Periodic =>
          if due {
            r := disk.SyncWal();
          }
      }
    }

    lemma HeadOf(body: bytes, crc: u32)
      requires crc == Checksum.Compute(body)
      ensures Le(|body|, 4) + Le4(crc) == FrameHead(body)
    {
    }

    method WritePiece(chunk: bytes, k: nat, ghost fs0: Fs, ghost frame: bytes) returns (r: Result<()>)
      requires AtEnd() && LogPlus(fs0, disk.fs, frame, k)
      requires k + |chunk| <= |frame| && chunk == frame[k..k + |chunk|]
      modifies this`pos, disk
      ensures AtEnd()
      ensures r.Success? ==>
        && disk.Through([WalWritten(old(disk.fs), old(pos), chunk)]) && pos == old(pos) + |chunk|
        && LogPlus(fs0, disk.fs, frame, k + |chunk|)
      ensures r.Failure? ==> r.error == Io && exists j: nat :: LogPlus(fs0, disk.fs, frame, j)
      ensures disk.Honest(r.Failure?)
    {
      var n;
      r, n := disk.WriteWal(pos, chunk);
      pos := pos + n;
      assert chunk[..n] == frame[k..k + n];
      PieceWritten(fs0, old(disk.fs), frame, k, chunk[..n]);
      AppendAtEnd(old(disk.fs.wal.value.data), chunk[..n]);
      assert chunk[..|chunk|] == chunk;
    }

    /** How appending `rec` turned out: it is logged, or refused without effect, or cut short. */
    twostate predicate Appended(rec: Record, due: bool, new r: Result<()>)
      requires old(Valid())
      reads this, disk
    {
      && AtEnd() && disk.Honest(r.Failure? && r.error == Io)
      && (r.Success? ==>
            && Loggable(rec)
            && disk.Through(AppendStates(old(disk.fs), old(pos), Body(rec), Syncs(policy, due))))
      && (r.Failure? ==>
            || (r.error.InvalidPayload? && !Loggable(rec) && disk.Through([]) && pos == old(pos))
            || (r.error == Io && exists k: nat :: LogPlus(old(disk.fs), disk.fs, Frame(Body(rec)), k)))
    }

    method AppendInsert(id: VectorId, vector: seq<u32>, meta: Option<Metadata>, due: bool) returns (r: Result<()>)
      requires AtEnd()
      modifies this`pos, scratch, disk
      ensures Appended(Insert(id, vector, meta), due, r)
    {
      hide Body, Encodable, Frame, AppendStates;
      var _ :- RecordCodec.EncodeInsert(scratch, id, vector, meta);
      r := CommitRecord(due);
    }

    method AppendDelete(id: VectorId, due: bool) returns (r: Result<()>)
      requires AtEnd()
      modifies this`pos, scratch, disk
      ensures Appended(Delete(id), due, r)
    {
      hide Body, Frame, AppendStates;
      RecordCodec.EncodeDelete(scratch, id);
      r := CommitRecord(due);
    }
  }
}
