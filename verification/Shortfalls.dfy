/**
  Outside the conditions of the recovery contract: what the next load gives then, exactly, and
  that crashes and calls can lead there.
 */
module Shortfalls {
  import opened Wrappers
  import opened Bytes
  import opened Records
  import opened WalLog
  import opened WalTheorems
  import opened FileSystem
  import opened Storage
  import opened WalFile
  import opened Index
  import opened Protocol
  import opened Crashes
  import opened Runs
  import Checksum
  import Compression
  import Snapshot

  // ---- what an accepted mutation leaves ----

  /** The frame at the end of the log, the snapshot as it was, the index updated. */
  lemma AcceptedFiles<I>(env: Env<I>, db: Db<I>, rec: Record, due: bool)
    requires db.fs.wal.Some? && db.pos == |db.fs.wal.value.data| && Apply(env.ix, db.inner, rec).Some?
    ensures var next := MutateDb(env, db, rec, due);
            && next.fs == db.fs.(wal := next.fs.wal) && next.fs.wal.Some?
            && next.fs.wal.value.data == db.fs.wal.value.data + Frame(Body(rec))
            && next.pos == |next.fs.wal.value.data| && next.inner == Apply(env.ix, db.inner, rec).value
  {
    hide Body, Frame, AppendStates;
    var frame := Frame(Body(rec));
    FrameAppended(db.fs, Body(rec), Syncs(env.policy, due));
    LogPlusOnly(db.fs, Last(AppendStates(db.fs, db.pos, Body(rec), Syncs(env.policy, due))), frame, |frame|);
  }

  lemma LoadOfImage<I>(env: Env<I>, fs: Fs, base: I, recs: seq<Record>)
    requires ReadSnapshot(env, fs) == Success(base) && AllFit(recs)
    requires fs.wal.Some? && fs.wal.value.data == LogImage(recs)
    ensures LoadIndex(env, fs) == Replay(env.ix, base, recs)
  {
    hide Encodable, Body, LogImage, Parse, Replay, Snapshot.DecodeSnapshot;
    LogRoundTrip(recs);
  }

  // ---- an append behind a torn frame ----

  /** Loading when the log's bytes behind what was loaded already are read as frames. */
  function ReplayFrames<I>(env: Env<I>, i: I, b: bytes): Result<I> {
    ReplayRead(env, i, ParseFrames(b))
  }

  function ReplayRead<I>(env: Env<I>, i: I, read: Result<seq<Record>>): Result<I> {
    var recs :- read;
    Replay(env.ix, i, recs)
  }

  /**
    A mutation appended behind a torn tail. The next load reads the tail and the new frame as one
    stretch of bytes; while that stretch does not begin with a whole frame, the mutation is lost.
   */
  lemma AppendBehindTail<I>(env: Env<I>, db: Db<I>, recs: seq<Record>, tail: bytes, rec: Record, due: bool)
    requires db.fs.wal.Some? && db.pos == |db.fs.wal.value.data| && LoadIndex(env, db.fs) == Success(db.inner)
    requires AllFit(recs) && FrontBody(tail).None? && db.fs.wal.value.data == LogImage(recs) + tail
    requires Apply(env.ix, db.inner, rec).Some?
    ensures MutateDb(env, db, rec, due).inner == Apply(env.ix, db.inner, rec).value
    ensures var behind, load := tail + Frame(Body(rec)), LoadIndex(env, MutateDb(env, db, rec, due).fs);
            && load == ReplayFrames(env, db.inner, behind)
            && (FrontBody(behind).None? ==> load == Success(db.inner))
  {
    hide Fits, Body, Frame, FrontBody, LogImage, Parse, Replay, MutateDb, Snapshot.DecodeSnapshot;
    AcceptedFiles(env, db, rec, due);
    var behind, base := tail + Frame(Body(rec)), ReadSnapshot(env, db.fs).value;
    assert LogImage(recs) + tail + Frame(Body(rec)) == LogImage(recs) + behind;
    HistoryPreserved(recs, tail);
    HistoryPreserved(recs, behind);
    assert recs + [] == recs;
    if ParseFrames(behind).Success? {
      ReplayAppend(env.ix, base, recs, ParseFrames(behind).value);
    }
    ReplayNothing(env.ix, db.inner);
  }

  /** The log is `recs` and then the first `k` bytes of a frame that claims at least `room` more. */
  ghost predicate TornLog(log: bytes, recs: seq<Record>, torn: Record, k: nat, room: nat) {
    && AllFit(recs) && Fits(torn)
    && 4 <= k && k + room < |Frame(Body(torn))|
    && log == LogImage(recs) + Frame(Body(torn))[..k]
  }

  /**
    That is so behind a torn frame that still claims more bytes: a mutation is acknowledged, and
    the next load gives the index without it. The torn frame may come from a crash, or from an
    append that failed in the same handle.
   */
  lemma TornTailLosesAcknowledged<I>(env: Env<I>, db: Db<I>, recs: seq<Record>, torn: Record, k: nat,
                                     rec: Record, due: bool)
    requires db.fs.wal.Some? && db.pos == |db.fs.wal.value.data| && LoadIndex(env, db.fs) == Success(db.inner)
    requires TornLog(db.fs.wal.value.data, recs, torn, k, |Frame(Body(rec))|)
    requires Apply(env.ix, db.inner, rec).Some?
    ensures MutateDb(env, db, rec, due).inner == Apply(env.ix, db.inner, rec).value
    ensures LoadIndex(env, MutateDb(env, db, rec, due).fs) == Success(db.inner)
  {
    hide Body, Frame, FrontBody, LogImage, LoadIndex, MutateDb, Encodable, ReplayFrames;
    CutFrameExtended(Body(torn), k, []);
    CutFrameExtended(Body(torn), k, Frame(Body(rec)));
    assert Frame(Body(torn))[..k] + [] == Frame(Body(torn))[..k];
    AppendBehindTail(env, db, recs, Frame(Body(torn))[..k], rec, due);
  }

  /**
    Behind a frame that lacks at most four bytes there are just two cases: the new frame begins
    with those bytes and the torn record comes back, or both are lost.
   */
  lemma BehindNearlyWholeFrame<I>(env: Env<I>, db: Db<I>, recs: seq<Record>, torn: Record, k: nat,
                                  rec: Record, due: bool)
    requires db.fs.wal.Some? && db.pos == |db.fs.wal.value.data| && LoadIndex(env, db.fs) == Success(db.inner)
    requires AllFit(recs) && Fits(torn) && k < |Frame(Body(torn))| <= k + 4
    requires db.fs.wal.value.data == LogImage(recs) + Frame(Body(torn))[..k]
    requires Apply(env.ix, db.inner, rec).Some?
    ensures |Frame(Body(torn))| - k <= |Frame(Body(rec))|
    ensures var f, g := Frame(Body(torn)), Frame(Body(rec));
              LoadIndex(env, MutateDb(env, db, rec, due).fs)
              == if g[..|f| - k] == f[k..] then ReplayRead(env, db.inner, Prepend([torn], ParseFrames(g[|f| - k..])))
                 else Success(db.inner)
  {
    hide Body, Frame, FrontBody, LogImage, LoadIndex, MutateDb, Encodable, ParseFrames;
    CutFrame(Body(torn), k);
    SmallestFrame(rec);
    AppendBehindTail(env, db, recs, Frame(Body(torn))[..k], rec, due);
    NearlyWholeFrame(torn, k, Frame(Body(rec)));
    ReplayNothing(env.ix, db.inner);
  }

  /** A crash inside a mutation can leave any part of its frame at the end of the log. */
  lemma TornTailArises<I>(env: Env<I>, db: Db<I>, rec: Record, due: bool, k: nat) returns (at: nat, after: Fs)
    requires db.fs.wal.Some? && db.pos == |db.fs.wal.value.data| && Durable(db.fs.target)
    requires k <= |Frame(Body(rec))|
    ensures at < |MutateStates(env, db, rec, due)| && CrashesTo(MutateStates(env, db, rec, due)[at], after)
    ensures Content(after.target) == Content(db.fs.target)
    ensures Content(after.wal) == Some(db.fs.wal.value.data + Frame(Body(rec))[..k])
  {
    hide Body, FrameHead, Written;
    var data, body := db.fs.wal.value.data, Body(rec);
    var log := data + Frame(body)[..k];
    after := Fs(None, db.fs.target, {}, Some(Inode(log, {log})));
    if k <= FRAME_HEAD {
      at := 0;
      assert Frame(body)[..k] == FrameHead(body)[..k];
      PieceCanLand(db.fs.wal.value, FrameHead(body), k);
    } else {
      at := 1;
      var headed := Written(db.fs.wal.value, |data|, FrameHead(body));
      PieceCanLand(db.fs.wal.value, FrameHead(body), FRAME_HEAD);
      PieceCanLand(headed, body, k - FRAME_HEAD);
      assert log == data + FrameHead(body) + body[..k - FRAME_HEAD];
    }
  }

  // ---- a log cut inside its header ----

  /** Whether `f` begins with what is missing of a header of which `k` bytes are there. */
  predicate Completes(k: nat, f: bytes)
    requires k < HEADER_LEN <= k + |f|
  {
    f[..HEADER_LEN - k] == Header()[k..]
  }

  /** Bytes behind a cut header are read as the rest of it: they complete it, or the file is refused. */
  lemma BehindCutHeader(k: nat, f: bytes)
    requires k < HEADER_LEN <= k + |f|
    ensures Completes(k, f) ==> Parse(Header()[..k] + f) == ParseFrames(f[HEADER_LEN - k..])
    ensures !Completes(k, f) ==>
      && Parse(Header()[..k] + f).Failure?
      && (Parse(Header()[..k] + f).error.BadMagic? || Parse(Header()[..k] + f).error.UnsupportedVersion?)
  {
    hide ParseFrames, FromLe4, Le4, Parse;
    var b := Header()[..k] + f;
    var start := f[..HEADER_LEN - k];
    assert b[..HEADER_LEN] == Header()[..k] + start;
    assert Header() == Header()[..k] + Header()[k..];
    assert b == b[..HEADER_LEN] + f[HEADER_LEN - k..];
    assert start == b[..HEADER_LEN][k..];
    if Completes(k, f) {
      ParseAfterHeader(f[HEADER_LEN - k..]);
    } else {
      RefusedHeader(b);
    }
  }

  lemma RefusedHeader(b: bytes)
    requires |b| >= HEADER_LEN && b[..HEADER_LEN] != Header()
    ensures Parse(b).Failure? && (Parse(b).error.BadMagic? || Parse(b).error.UnsupportedVersion?)
  {
    hide ParseFrames, FromLe4, Le4;
    Le4RoundTrip(WAL_VERSION);
    assert b[..HEADER_LEN] == b[..8] + b[8..12];
    if FromLe4(b[8..12]) == WAL_VERSION {
      FromLe4Injective(b[8..12], Le4(WAL_VERSION));
    }
  }

  /**
    A reset cut short leaves part of a header, or none of it. Loading accepts that and does not
    complete it. The first mutation acknowledged after that makes the next load fail, unless its
    frame happens to begin with the missing bytes; then the rest of that frame is taken for frames.
   */
  lemma HeaderlessLogBreaks<I>(env: Env<I>, db: Db<I>, k: nat, rec: Record, due: bool)
    requires db.fs.wal.Some? && k < HEADER_LEN && db.fs.wal.value.data == Header()[..k] && db.pos == k
    requires LoadIndex(env, db.fs) == Success(db.inner) && Apply(env.ix, db.inner, rec).Some?
    ensures |Frame(Body(rec))| >= HEADER_LEN
    ensures var f, load := Frame(Body(rec)), LoadIndex(env, MutateDb(env, db, rec, due).fs);
            if Completes(k, f) then load == ReplayFrames(env, db.inner, f[HEADER_LEN - k..])
            else load.Failure? && (load.error.BadMagic? || load.error.UnsupportedVersion?)
  {
    hide Frame, Body, Header, Parse, ParseFrames, Replay, MutateDb, Snapshot.DecodeSnapshot, Completes;
    AcceptedFiles(env, db, rec, due);
    SmallestFrame(rec);
    BehindCutHeader(k, Frame(Body(rec)));
    EmptyLog(k);
    ReplayNothing(env.ix, ReadSnapshot(env, db.fs).value);
  }

  /**
    While the rest of the magic starts within its first four bytes, or only the version is missing,
    no frame that the parser would read can complete the header, for its length field would be wrong.
   */
  lemma NeverCompletes(k: nat, rec: Record)
    requires Fits(rec) && (k <= 3 || k == 8)
    ensures |Frame(Body(rec))| >= HEADER_LEN && !Completes(k, Frame(Body(rec)))
  {
    hide Encodable, Body, Checksum.Compute, FromLe4, Le4;
    SmallestFrame(rec);
    var body := Body(rec);
    LengthRoundTrip(|body|);
    MissingLength(k);
    assert Header()[k..k + 4] == Header()[k..][..4];
    assert Frame(body)[..HEADER_LEN - k][..4] == Frame(body)[..4] == Le(|body|, 4);
  }

  /** The bytes missing after the first `k`, read as the length of a frame. */
  lemma MissingLength(k: nat)
    requires k <= 3 || k == 8
    ensures FromLe4(Header()[k..k + 4]) > MAX_RECORD_LEN || FromLe4(Header()[k..k + 4]) == 1
  {
    hide Le4, FromLe4;
    var len := Header()[k..k + 4];
    if k == 8 {
      assert len == Le4(1);
      Le4RoundTrip(1);
    } else {
      assert len[3] == WAL_MAGIC[k + 3] > 0x10;
      TopByte(len);
    }
  }

  lemma TopByte(b: bytes)
    requires |b| == 4 && b[3] > 0x10
    ensures FromLe4(b) > MAX_RECORD_LEN
  {
    assert b[1..][1..][1..] == [b[3]];
    assert FromLe([b[3]]) == b[3];
    assert FromLe(b[1..][1..]) >= 0x100 * FromLe([b[3]]);
    assert FromLe(b[1..]) >= 0x100 * FromLe(b[1..][1..]);
  }

  /** A crash inside a checkpoint can leave any part of a header, beside the new snapshot. */
  lemma HeaderlessLogArises<I>(env: Env<I>, db: Db<I>, payload: bytes, k: nat) returns (at: nat, after: Fs)
    requires env.policy != Never && db.fs.wal.Some? && k <= HEADER_LEN
    ensures at < |CheckpointStates(env, db, payload)| && CrashesTo(CheckpointStates(env, db, payload)[at], after)
    ensures Content(after.target) == Some(payload) && Content(after.wal) == Some(Header()[..k])
  {
    hide AtomicTrace, Header, Written;
    AtomicIsDurable(db.fs, payload, env.policy);
    var replacing := AtomicTrace(db.fs, payload, env.policy);
    var cut := WalResized(Last(replacing), 0);
    at := |replacing| + 1;
    assert CheckpointStates(env, db, payload)[at] == ResetStates(Last(replacing))[1] == WalWritten(cut, 0, Header());
    assert cut.wal.value.data == [];
    PieceCanLand(cut.wal.value, Header(), k);
    assert [] + Header()[..k] == Header()[..k];
    after := Fs(None, Some(Inode(payload, {payload})), {}, Some(Inode(Header()[..k], {Header()[..k]})));
  }

  // ---- an append that failed after writing its whole frame ----

  /**
    A mutation that reported an I/O error may have its whole frame in the log, for instance when
    only the sync failed. The handle lives on without its effect; after the next acknowledged
    mutation a load applies both.
   */
  lemma FailedAppendIsReplayed<I>(env: Env<I>, db: Db<I>, lost: Record, fs: Fs, rec: Record, due: bool)
    requires db.fs.wal.Some? && Clean(db.fs.wal.value.data) && LoadIndex(env, db.fs) == Success(db.inner)
    requires Fits(lost) && Fits(rec) && LogPlus(db.fs, fs, Frame(Body(lost)), |Frame(Body(lost))|)
    requires Apply(env.ix, db.inner, rec).Some?
    ensures var next := MutateDb(env, Db(fs, |fs.wal.value.data|, db.inner), rec, due);
            LoadIndex(env, next.fs) == Replay(env.ix, db.inner, [lost, rec])
  {
    hide Fits, Body, Frame, LogImage, Parse, Replay, LogPlus, MutateDb, Snapshot.DecodeSnapshot;
    var recs, base := Parse(db.fs.wal.value.data).value, ReadSnapshot(env, db.fs).value;
    var frame := Frame(Body(lost));
    LogPlusOnly(db.fs, fs, frame, |frame|);
    LogPlusData(db.fs, fs, frame, |frame|);
    AcceptedFiles(env, Db(fs, |fs.wal.value.data|, db.inner), rec, due);
    ImageSnoc(recs, lost);
    ImageSnoc(recs + [lost], rec);
    assert recs + [lost] + [rec] == recs + [lost, rec];
    LoadOfImage(env, MutateDb(env, Db(fs, |fs.wal.value.data|, db.inner), rec, due).fs, base, recs + [lost, rec]);
    ReplayAppend(env.ix, base, recs, [lost, rec]);
  }

  // ---- vectors of another dimension ----

  /**
    The live path leaves the dimension check to the index, and replay does not. An accepted
    mutation of a clean log is there after a load exactly when its vector, if it has one, has the
    dimension of the index before it; otherwise every load from then on is an error.
   */
  lemma DimensionDecides<I(!new)>(env: Env<I>, db: Db<I>, rec: Record, due: bool)
    requires db.fs.wal.Some? && db.pos == |db.fs.wal.value.data| && Clean(db.fs.wal.value.data)
    requires LoadIndex(env, db.fs) == Success(db.inner) && Fits(rec) && Apply(env.ix, db.inner, rec).Some?
    ensures var load := LoadIndex(env, MutateDb(env, db, rec, due).fs);
            if rec.Insert? && |rec.vector| != env.ix.dim(db.inner) then load == Failure(InvalidPayload(WalDimDisagrees))
            else load == Success(Apply(env.ix, db.inner, rec).value)
  {
    hide Fits, Body, Frame, LoadIndex, Clean, MutateDb;
    AcceptedFiles(env, db, rec, due);
    var frame := Frame(Body(rec));
    assert frame[..|frame|] == frame;
    LoadWithFrame(env, db, rec, MutateDb(env, db, rec, due).fs, |frame|);
  }

  // ---- a new snapshot beside an old log ----

  /**
    After a bare save, loading replays the log over the state it already led to: the index in
    memory comes back exactly when the log repeats.
   */
  lemma SaveThenLoad<I(!new)>(env: Env<I>, db: Db<I>)
    requires Sound(env) && Saveable(env, db.inner)
    ensures var fs := Last(AtomicTrace(db.fs, Encoded(env, db.inner).value, env.policy));
            && LoadIndex(env, fs) == ReplayLog(env, db.inner, Content(db.fs.wal))
            && (LoadIndex(env, fs) == Success(db.inner) <==> LogRepeats(env, db))
  {
    hide Encoded, Reloadable, Sound, LoadIndex, ReplayLog, AtomicTrace;
    var payload := Encoded(env, db.inner).value;
    AtomicPayload(db.fs, payload, env.policy);
    AtomicKeepsLog(db.fs, payload, env.policy);
    LoadOverSaved(env, db.inner, Last(AtomicTrace(db.fs, payload, env.policy)));
  }

  lemma AtomicPayload(fs: Fs, payload: bytes, policy: FsyncPolicy)
    ensures Content(Last(AtomicTrace(fs, payload, policy)).target) == Some(payload)
  {
    WrittenPayload(fs, payload);
  }

  // ---- mutations over a new snapshot and an old log ----

  /** The handle after a sequence of mutations, each with the outcome of the interval test it meets. */
  function Mutated<I>(env: Env<I>, db: Db<I>, ms: seq<(Record, bool)>): Db<I>
    requires db.fs.wal.Some?
    decreases ms
  {
    if ms == [] then db else Mutated(env, MutateDb(env, db, ms[0].0, ms[0].1), ms[1..])
  }

  /** Those among them that the index accepts. */
  function Accepted<I>(ix: IndexOps<I>, i: I, ms: seq<(Record, bool)>): seq<Record>
    decreases ms
  {
    if ms == [] then []
    else
      match Apply(ix, i, ms[0].0)
      case Some(j) => [ms[0].0] + Accepted(ix, j, ms[1..])
      case None => Accepted(ix, i, ms[1..])
  }

  ghost predicate AllReadable(ms: seq<(Record, bool)>) {
    forall k :: 0 <= k < |ms| ==> Fits(ms[k].0)
  }

  /** Mutations leave the snapshot alone, add the accepted frames to the log, and keep memory up to date. */
  lemma {:induction false} MutatedFiles<I(!new)>(env: Env<I>, db: Db<I>, ms: seq<(Record, bool)>)
    requires Lawful(env.ix) && db.fs.wal.Some? && db.pos == |db.fs.wal.value.data|
    ensures var next, more := Mutated(env, db, ms), Accepted(env.ix, db.inner, ms);
            && next.fs.target == db.fs.target && next.fs.wal.Some?
            && next.fs.wal.value.data == db.fs.wal.value.data + Frames(more)
            && Replay(env.ix, db.inner, more) == Success(next.inner)
    decreases ms
  {
    hide Frame, Body, MutateDb, Lawful, ReplayOne, Frames;
    var data := db.fs.wal.value.data;
    if ms == [] {
      NoFrames();
      assert data + [] == data;
      ReplayNothing(env.ix, db.inner);
    } else {
      var (rec, due) := ms[0];
      var next := MutateDb(env, db, rec, due);
      match Apply(env.ix, db.inner, rec) {
        case Some(j) =>
          AcceptedFiles(env, db, rec, due);
          MutatedFiles(env, next, ms[1..]);
          var more := Accepted(env.ix, j, ms[1..]);
          FramesCons(rec, more);
          assert data + Frame(Body(rec)) + Frames(more) == data + (Frame(Body(rec)) + Frames(more));
          AcceptedReplays(env, db.inner, rec);
          ReplayCons(env.ix, db.inner, rec, more);
        case None =>
          RejectedIsInvisible(env, db, rec, due);
          MutatedFiles(env, next, ms[1..]);
      }
    }
  }

  lemma ReplayCons<I>(ix: IndexOps<I>, i: I, rec: Record, more: seq<Record>)
    requires ReplayOne(ix, i, rec).Success?
    ensures Replay(ix, i, [rec] + more) == Replay(ix, ReplayOne(ix, i, rec).value, more)
  {
    hide ReplayOne;
    assert ([rec] + more)[1..] == more;
  }

  lemma {:induction false} AcceptedFit<I>(ix: IndexOps<I>, i: I, ms: seq<(Record, bool)>)
    requires AllReadable(ms)
    ensures AllFit(Accepted(ix, i, ms))
    decreases ms
  {
    hide Fits;
    if ms != [] {
      assert forall k :: 0 <= k < |ms[1..]| ==> ms[1..][k] == ms[k + 1];
      match Apply(ix, i, ms[0].0) {
        case Some(j) => AcceptedFit(ix, j, ms[1..]);
        case None => AcceptedFit(ix, i, ms[1..]);
      }
    }
  }

  /**
    A handle whose snapshot is new and whose log was not emptied, after a bare save or a checkpoint
    that reported an error in between: whatever is mutated from then on, a load replays old log
    and new mutations over the state saved. It gives the index in memory when the old log repeats.
   */
  lemma NewSnapshotOldLog<I(!new)>(env: Env<I>, db: Db<I>, recs: seq<Record>, ms: seq<(Record, bool)>)
    requires Sound(env) && Saveable(env, db.inner) && Content(db.fs.target) == Some(Encoded(env, db.inner).value)
    requires db.fs.wal.Some? && db.pos == |db.fs.wal.value.data|
    requires AllFit(recs) && db.fs.wal.value.data == LogImage(recs) && AllReadable(ms)
    ensures var next, more := Mutated(env, db, ms), Accepted(env.ix, db.inner, ms);
            && LoadIndex(env, next.fs) == Replay(env.ix, db.inner, recs + more)
            && (LogRepeats(env, db) ==> LoadIndex(env, next.fs) == Success(next.inner))
  {
    hide Encoded, Reloadable, Compression.Inverse, Lawful, LoadIndex, Fits, LogImage, Frames, Mutated, Parse,
      Replay;
    var next, more := Mutated(env, db, ms), Accepted(env.ix, db.inner, ms);
    MutatedFiles(env, db, ms);
    AcceptedFit(env.ix, db.inner, ms);
    ImageConcat(recs, more);
    FitsReadBack(recs);
    FitsReadBack(recs + more);
    LoadOverSaved(env, db.inner, next.fs);
    ReplayAppend(env.ix, db.inner, recs, more);
  }

  lemma FitsReadBack(recs: seq<Record>)
    requires AllFit(recs)
    ensures Parse(LogImage(recs)) == Success(recs)
  {
    hide LogImage, Parse, Encodable, Body;
    LogRoundTrip(recs);
  }

  /**
    A checkpoint that reported an I/O error leaves the files in one of three situations: as they
    were; the new snapshot beside the old log; or the new snapshot beside part of a header.
   */
  lemma CheckpointErrorLeaves<I(!new)>(env: Env<I>, db: Db<I>, fs: Fs) returns (w: Window)
    requires Sound(env) && Saveable(env, db.inner) && db.fs.wal.Some?
    requires var payload := Encoded(env, db.inner).value;
             || NotReplaced(db.fs, payload, env.policy, fs)
             || PartlyReset(Last(AtomicTrace(db.fs, payload, env.policy)), fs)
    ensures fs.wal.Some?
    ensures match w
            case BeforeReplace => Content(fs.target) == Content(db.fs.target) && Content(fs.wal) == Content(db.fs.wal)
            case BeforeReset =>
              && Content(fs.target) == Some(Encoded(env, db.inner).value) && Content(fs.wal) == Content(db.fs.wal)
              && LoadIndex(env, fs) == ReplayLog(env, db.inner, Content(db.fs.wal))
            case InReset(k) =>
              && Content(fs.target) == Some(Encoded(env, db.inner).value)
              && k <= HEADER_LEN && Content(fs.wal) == Some(Header()[..k])
              && LoadIndex(env, fs) == Success(db.inner)
  {
    hide Encoded, Reloadable, Sound, LoadIndex, AtomicTrace, Header, Parse, Replay;
    var payload := Encoded(env, db.inner).value;
    AtomicPayload(db.fs, payload, env.policy);
    AtomicKeepsLog(db.fs, payload, env.policy);
    if Untouched(db.fs, fs) {
      w := BeforeReplace;
    } else {
      LoadOverSaved(env, db.inner, fs);
      if fs.wal.value.data == db.fs.wal.value.data {
        w := BeforeReset;
      } else {
        var k: nat :| k <= HEADER_LEN && fs.wal.value.data == Header()[..k];
        w := InReset(k);
        EmptyLog(k);
        ReplayNothing(env.ix, db.inner);
      }
    }
  }

  // ---- crashes that leave a new snapshot beside an old log ----

  /** A crash inside a checkpoint can leave the new snapshot beside whatever the old log could be cut to. */
  lemma WindowArises<I>(env: Env<I>, db: Db<I>, payload: bytes, c: bytes) returns (at: nat, after: Fs)
    requires env.policy != Never && db.fs.wal.Some? && c in db.fs.wal.value.images
    ensures at < |CheckpointStates(env, db, payload)| && CrashesTo(CheckpointStates(env, db, payload)[at], after)
    ensures Content(after.target) == Some(payload) && Content(after.wal) == Some(c)
  {
    hide AtomicTrace, ResetStates;
    var replacing := AtomicTrace(db.fs, payload, env.policy);
    AtomicIsDurable(db.fs, payload, env.policy);
    at := |replacing| - 1;
    assert CheckpointStates(env, db, payload)[at] == Last(replacing);
    after := Fs(None, Some(Inode(payload, {payload})), {}, Some(Inode(c, {c})));
  }

  /** So for every log that does not repeat there is an unlucky crash, after which a load gives something else. */
  lemma UnluckyWindow<I(!new)>(env: Env<I>, start: I, s: State<I>) returns (ev: Event)
    requires env.policy != Never && Sound(env) && Inv(env, start, s) && Saveable(env, s.db.inner)
    requires !LogRepeats(env, s.db)
    ensures ev.Crash? && ev.call.Checkpointing? && Possible(env, s.db, ev) && Unlucky(env, s.db, ev)
    ensures LoadIndex(env, ev.after) == ReplayLog(env, s.db.inner, Content(s.db.fs.wal)) != Success(s.db.inner)
  {
    hide Encoded, Reloadable, Sound, LoadIndex, ReplayLog, Replay, CheckpointStates;
    var payload := Encoded(env, s.db.inner).value;
    var at, after := WindowArises(env, s.db, payload, s.db.fs.wal.value.data);
    ev := Crash(Checkpointing, at + 1, after);
    LoadOverSaved(env, s.db.inner, after);
  }

  /** And for every mutation the index rejects, one that leaves its whole frame, after which no load succeeds. */
  lemma UnluckyRejection<I(!new)>(env: Env<I>, start: I, s: State<I>, rec: Record, due: bool) returns (ev: Event)
    requires Sound(env) && Inv(env, start, s) && Clean(s.db.fs.wal.value.data)
    requires Fits(rec) && Apply(env.ix, s.db.inner, rec).None?
    ensures ev.Crash? && ev.call == Mutating(rec, due) && Possible(env, s.db, ev) && Unlucky(env, s.db, ev)
    ensures LoadIndex(env, ev.after).Failure?
  {
    hide Sound, LoadIndex, Replay, Clean, MutateStates, Body, Frame, Encodable;
    var frame := Frame(Body(rec));
    var at, after := TornTailArises(env, s.db, rec, due, |frame|);
    ev := Crash(Mutating(rec, due), at + 1, after);
    assert frame[..|frame|] == frame;
    CrashInMutation(env, start, s, rec, due, at, after);
  }

  /** A crash inside opening can leave the base snapshot beside whatever the previous log could be cut to, or none. */
  lemma OldLogArises(fs: Fs, payload: bytes, policy: FsyncPolicy, log: Option<bytes>) returns (at: nat, after: Fs)
    requires policy != Never && log in Images(fs.wal)
    ensures at < |CreationStates(fs, payload, policy)| && CrashesTo(CreationStates(fs, payload, policy)[at], after)
    ensures Content(after.target) == Some(payload) && Content(after.wal) == log
  {
    hide AtomicTrace, CreateStates;
    var replacing := AtomicTrace(fs, payload, policy);
    AtomicIsDurable(fs, payload, policy);
    at := |replacing| - 1;
    assert CreationStates(fs, payload, policy)[at] == Last(replacing);
    var wal := match log case Some(c) => Some(Inode(c, {c})) case None => None;
    after := Fs(None, Some(Inode(payload, {payload})), {}, wal);
  }

  /** What a crash inside opening leaves: the files that were there, or the base snapshot and some log. */
  datatype OpenWindow = NothingNew | OldLog | InHeader(k: nat)

  ghost predicate InOpenWindow(fs: Fs, payload: bytes, after: Fs, w: OpenWindow) {
    match w
    case NothingNew => Content(after.target) in TargetImages(fs) && Content(after.wal) in Images(fs.wal)
    case OldLog => Content(after.target) == Some(payload) && Content(after.wal) in Images(fs.wal)
    case InHeader(k) =>
      k <= HEADER_LEN && Content(after.target) == Some(payload) && Content(after.wal) == Some(Header()[..k])
  }

  /**
    A crash inside opening over existing files. Between the base snapshot and the truncated log,
    the next load replays the log of the previous owner onto the new start.
   */
  lemma CrashInOpen<I(!new)>(env: Env<I>, fs: Fs, start: I, at: nat, after: Fs) returns (w: OpenWindow)
    requires env.policy != Never && Sound(env) && Saveable(env, start)
    requires at < |CreationStates(fs, Encoded(env, start).value, env.policy)|
    requires CrashesTo(CreationStates(fs, Encoded(env, start).value, env.policy)[at], after)
    ensures InOpenWindow(fs, Encoded(env, start).value, after, w)
    ensures w.OldLog? ==> LoadIndex(env, after) == ReplayLog(env, start, Content(after.wal))
    ensures w.InHeader? ==> LoadIndex(env, after) == Success(start)
  {
    hide CreationStates, Encoded, Reloadable, Sound, LoadIndex, Parse, Replay, Header, TargetImages, Images;
    var payload := Encoded(env, start).value;
    w := CreationCrash(fs, payload, env.policy, at, after);
    if !w.NothingNew? {
      LoadOverSaved(env, start, after);
    }
    if w.InHeader? {
      EmptyLog(w.k);
      ReplayNothing(env.ix, start);
    }
  }

  lemma CreationCrash(fs: Fs, payload: bytes, policy: FsyncPolicy, at: nat, after: Fs) returns (w: OpenWindow)
    requires policy != Never && at < |CreationStates(fs, payload, policy)|
    requires CrashesTo(CreationStates(fs, payload, policy)[at], after)
    ensures InOpenWindow(fs, payload, after, w)
  {
    hide AtomicTrace, CreateStates, Header;
    var replacing := AtomicTrace(fs, payload, policy);
    if at < |replacing| {
      assert CreationStates(fs, payload, policy)[at] == replacing[at];
      ReplacementStates(fs, payload, policy, at);
      w := if Content(after.target) == Some(payload) then OldLog else NothingNew;
    } else {
      AtomicIsDurable(fs, payload, policy);
      assert CreationStates(fs, payload, policy)[at] == CreateStates(Last(replacing))[at - |replacing|];
      CreateKeepsTarget(Last(replacing), at - |replacing|);
      w := CreateImages(Last(replacing), at - |replacing|, after.wal.value.data);
    }
  }

  lemma CreateKeepsTarget(fs: Fs, at: nat)
    requires at < |CreateStates(fs)|
    ensures OnlyLog(fs, CreateStates(fs)[at])
  {
  }

  /** Images of the log while it is being created. */
  lemma CreateImages(fs: Fs, at: nat, c: bytes) returns (w: OpenWindow)
    requires at < |CreateStates(fs)| && c in CreateStates(fs)[at].wal.value.images
    ensures w.OldLog? ==> Some(c) in Images(fs.wal)
    ensures w.InHeader? ==> w.k <= HEADER_LEN && c == Header()[..w.k]
    ensures !w.NothingNew?
  {
    hide Header;
    var cut := WalTruncated(fs);
    assert cut.wal.value.data == [] == Header()[..0];
    AppendAtEnd([], Header());
    assert [] + Header() == Header() == Header()[..HEADER_LEN];
    if fs.wal.Some? && c in fs.wal.value.images {
      w := OldLog;
    } else if c == [] {
      w := InHeader(0);
    } else if c == Header() {
      w := InHeader(HEADER_LEN);
    } else {
      var k :| 0 <= k <= HEADER_LEN && c == Overwrite([], 0, Header()[..k]);
      AppendAtEnd([], Header()[..k]);
      assert [] + Header()[..k] == Header()[..k];
      w := InHeader(k);
    }
  }
}
