/**
  One call, or a crash in or between calls, and the load after it: what that gives back, and the
  invariant that relates the files to the index in memory.
 */
module Crashes {
  import opened Wrappers
  import opened Bytes
  import opened Records
  import opened WalLog
  import opened WalTheorems
  import opened FileSystem
  import opened Storage
  import opened WalFile
  import opened Index
  import opened Protocol
  import Compression
  import Snapshot

  /** A live handle and the mutations whose effect must be recoverable. */
  datatype State<I> = State(db: Db<I>, ops: seq<Record>)

  // ---- conditions ----

  /** The log holds intact frames and nothing else. */
  predicate Clean(log: bytes) {
    && Parse(log).Success?
    && AllFit(Parse(log).value)
    && log == LogImage(Parse(log).value)
  }

  function Encoded<I>(env: Env<I>, i: I): Result<bytes> {
    Snapshot.EncodeSnapshot(env.ix, env.codecs, env.scheme, i)
  }

  /** The snapshot about to be written is one the reader accepts. */
  predicate Reloadable<I>(env: Env<I>, i: I) {
    Encoded(env, i).Success? ==> Snapshot.WithinLimits(env.ix, env.codecs, env.scheme, i)
  }

  /** The state can be written as a snapshot, and the reader accepts what is written. */
  predicate Saveable<I>(env: Env<I>, i: I) {
    Encoded(env, i).Success? && Reloadable(env, i)
  }

  /** Replaying the log onto the current index changes nothing. */
  ghost predicate LogRepeats<I>(env: Env<I>, db: Db<I>) {
    ReplayLog(env, db.inner, Content(db.fs.wal)) == Success(db.inner)
  }

  /** The whole frame of `rec` is in the log that the crash left. */
  predicate FrameLanded<I>(db: Db<I>, rec: Record, after: Fs)
    requires db.fs.wal.Some?
  {
    Content(after.wal) == Some(db.fs.wal.value.data + Frame(Body(rec)))
  }

  // ---- the invariant ----

  /** The index and the codecs obey their laws. */
  ghost predicate Sound<I(!new)>(env: Env<I>) {
    Lawful(env.ix) && Compression.Inverse(env.codecs)
  }

  ghost predicate Trusted<I(!new)>(env: Env<I>) {
    env.policy == Always && Sound(env)
  }

  /** Both files exist, and a crash now would leave exactly what a read returns now. */
  predicate Settled(fs: Fs) {
    fs.target.Some? && fs.wal.Some? && fs.stale == {} && Durable(fs.target) && Durable(fs.wal)
  }

  /** Loading the files would give the index in memory, which is the recoverable mutations applied. */
  ghost predicate Inv<I>(env: Env<I>, start: I, s: State<I>) {
    && Settled(s.db.fs)
    && s.db.pos == |s.db.fs.wal.value.data|
    && LoadIndex(env, s.db.fs) == Success(s.db.inner)
    && Replay(env.ix, start, s.ops) == Success(s.db.inner)
  }

  // ---- crashes ----

  /** What a crash leaves is settled, and loading it keeps the files as they are. */
  lemma LoadedAfterCrash<I>(env: Env<I>, fs: Fs, after: Fs)
    requires CrashesTo(fs, after) && after.target.Some? && after.wal.Some?
    ensures Settled(after)
    ensures LoadDb(env, after).Success? <==> LoadIndex(env, after).Success?
    ensures LoadIndex(env, after).Success? ==>
      LoadDb(env, after) == Success(Db(after, |after.wal.value.data|, LoadIndex(env, after).value))
  {
    hide LoadIndex;
    assert WalOpened(after) == after;
  }

  /** Loading depends only on what the two files contain. */
  lemma LoadByContent<I>(env: Env<I>, fs: Fs, after: Fs)
    requires Content(fs.target) == Content(after.target) && Content(fs.wal) == Content(after.wal)
    ensures LoadIndex(env, after) == LoadIndex(env, fs)
  {
    hide Parse, Replay, Snapshot.DecodeSnapshot;
  }

  lemma SettledCrash(fs: Fs, after: Fs)
    requires Settled(fs) && CrashesTo(fs, after)
    ensures Content(after.target) == Content(fs.target) && Content(after.wal) == Content(fs.wal)
  {
  }

  /** After a crash in a settled state, loading gives back the index that was in memory. */
  lemma CrashBetweenCalls<I>(env: Env<I>, start: I, s: State<I>, after: Fs)
    requires Inv(env, start, s) && CrashesTo(s.db.fs, after)
    ensures LoadIndex(env, after) == Success(s.db.inner)
    ensures LoadDb(env, after).Success? && Inv(env, start, State(LoadDb(env, after).value, s.ops))
  {
    hide LoadIndex, LoadDb;
    SettledCrash(s.db.fs, after);
    LoadByContent(env, s.db.fs, after);
    LoadedAfterCrash(env, s.db.fs, after);
  }

  // ---- a snapshot without a log ----

  /**
    Loading a snapshot that has no log beside it, for instance one saved with the log disabled:
    the handle is that of the snapshot, over a durable log with a header and nothing else.
   */
  lemma LoadWithoutLog<I>(env: Env<I>, fs: Fs, i: I)
    requires fs.wal.None? && fs.target.Some? && Durable(fs.target) && fs.stale == {}
    requires ReadSnapshot(env, fs) == Success(i)
    ensures LoadDb(env, fs) == Success(Db(fs.(wal := Some(Inode(Header(), {Header()}))), HEADER_LEN, i))
    ensures Inv(env, i, State(LoadDb(env, fs).value, [])) && Clean(Header())
  {
    hide Header, Parse, Replay, Clean, Snapshot.DecodeSnapshot;
    AppendAtEnd([], Header());
    assert [] + Header() == Header();
    HeaderIsClean();
    ReplayNothing(env.ix, i);
  }

  /** What is then logged is loaded back. */
  lemma FirstMutationLoads<I(!new)>(env: Env<I>, fs: Fs, i: I, rec: Record, due: bool, after: Fs)
    requires Trusted(env) && fs.wal.None? && fs.target.Some? && Durable(fs.target) && fs.stale == {}
    requires ReadSnapshot(env, fs) == Success(i) && Fits(rec) && Apply(env.ix, i, rec).Some?
    requires LoadDb(env, fs).Success? && LoadDb(env, fs).value.fs.wal.Some?
    requires CrashesTo(MutateDb(env, LoadDb(env, fs).value, rec, due).fs, after)
    ensures LoadIndex(env, after) == Success(Apply(env.ix, i, rec).value)
  {
    hide Header, LoadDb, LoadIndex, ReadSnapshot, Replay, Clean, Sound, Fits, MutateDb;
    LoadWithoutLog(env, fs, i);
    var db := LoadDb(env, fs).value;
    MutateKeeps(env, i, State(db, []), rec, due);
    CrashBetweenCalls(env, i, State(MutateDb(env, db, rec, due), [] + [rec]), after);
    MutatedInner(env, db, rec, due);
  }

  lemma MutatedInner<I>(env: Env<I>, db: Db<I>, rec: Record, due: bool)
    requires db.fs.wal.Some? && Apply(env.ix, db.inner, rec).Some?
    ensures MutateDb(env, db, rec, due).inner == Apply(env.ix, db.inner, rec).value
  {
    hide MutateStates;
  }

  // ---- mutations ----

  /** Every state of a mutation leaves the snapshot alone and the log with some part of the frame. */
  lemma MutationState<I>(env: Env<I>, db: Db<I>, rec: Record, due: bool, at: nat) returns (k: nat)
    requires db.fs.wal.Some? && db.pos == |db.fs.wal.value.data| && at < |MutateStates(env, db, rec, due)|
    ensures LogPlus(db.fs, MutateStates(env, db, rec, due)[at], Frame(Body(rec)), k)
  {
    hide LogPlus, Body, Frame;
    var body := Body(rec);
    var sync := Syncs(env.policy, due);
    var logged := AppendStates(db.fs, db.pos, body, sync);
    if at < |logged| {
      k := AppendPiece(db.fs, body, sync, at);
      assert MutateStates(env, db, rec, due)[at] == logged[at];
    } else {
      k := 0;
      FrameAppended(db.fs, body, sync);
      FrameCutBack(db.fs, Last(logged), Frame(body));
      LogPlusSynced(db.fs, WalResized(Last(logged), db.pos), Frame(body), 0);
      assert MutateStates(env, db, rec, due)[at] == RollbackStates(Last(logged), db.pos)[at - |logged|];
    }
  }

  lemma AppendPiece(fs: Fs, body: bytes, sync: bool, at: nat) returns (k: nat)
    requires fs.wal.Some? && at < |AppendStates(fs, |fs.wal.value.data|, body, sync)|
    ensures LogPlus(fs, AppendStates(fs, |fs.wal.value.data|, body, sync)[at], Frame(body), k)
  {
    hide LogPlus, FrameHead, Written;
    var data := fs.wal.value.data;
    NothingWritten(fs, Frame(body));
    PieceWritten(fs, fs, Frame(body), 0, FrameHead(body));
    var headed := WalWritten(fs, |data|, FrameHead(body));
    k := FRAME_HEAD;
    if at > 0 {
      LogPlusData(fs, headed, Frame(body), FRAME_HEAD);
      PieceWritten(fs, headed, Frame(body), FRAME_HEAD, body);
      LogPlusSynced(fs, WalWritten(headed, |data| + FRAME_HEAD, body), Frame(body), |Frame(body)|);
      k := |Frame(body)|;
    }
  }

  /** A crash in a state that holds part of a frame finds the old snapshot, and the old log with part of the frame. */
  lemma PartialFrameCrash<I>(db: Db<I>, rec: Record, fs: Fs, n: nat, after: Fs) returns (k: nat)
    requires Settled(db.fs) && LogPlus(db.fs, fs, Frame(Body(rec)), n) && CrashesTo(fs, after)
    ensures Content(after.target) == Content(db.fs.target)
    ensures k <= |Frame(Body(rec))| && Content(after.wal) == Some(db.fs.wal.value.data + Frame(Body(rec))[..k])
  {
    hide Body, Frame;
    var frame := Frame(Body(rec));
    assert db.fs.wal.value.data == db.fs.wal.value.data + frame[..0];
    var c := after.wal.value.data;
    assert c in fs.wal.value.images;
    k :| k <= |frame| && c == db.fs.wal.value.data + frame[..k];
  }

  /** Loading a clean log that carries part of one more frame. */
  lemma LoadWithFrame<I(!new)>(env: Env<I>, db: Db<I>, rec: Record, after: Fs, k: nat)
    requires db.fs.wal.Some? && LoadIndex(env, db.fs) == Success(db.inner)
    requires Clean(db.fs.wal.value.data) && Fits(rec) && k <= |Frame(Body(rec))|
    requires Content(after.target) == Content(db.fs.target)
    requires Content(after.wal) == Some(db.fs.wal.value.data + Frame(Body(rec))[..k])
    ensures LoadIndex(env, after)
         == if k < |Frame(Body(rec))| then Success(db.inner) else ReplayOne(env.ix, db.inner, rec)
  {
    hide Parse, Replay, ReplayOne, Snapshot.DecodeSnapshot, Body, Frame, Fits, LogImage;
    var recs := Parse(db.fs.wal.value.data).value;
    TornAppend(recs, rec, k);
    var base := ReadSnapshot(env, db.fs).value;
    if k == |Frame(Body(rec))| {
      ReplaySnoc(env.ix, base, recs, rec);
    }
  }

  /** A mutation that returned keeps the invariant, accepted or rejected. */
  lemma MutateKeeps<I(!new)>(env: Env<I>, start: I, s: State<I>, rec: Record, due: bool)
    requires Trusted(env) && Inv(env, start, s) && Fits(rec) && Clean(s.db.fs.wal.value.data)
    ensures Inv(env, start, State(MutateDb(env, s.db, rec, due),
                                  s.ops + if Apply(env.ix, s.db.inner, rec).Some? then [rec] else []))
  {
    hide LoadIndex, Replay, Clean, Fits, Body, Frame, AppendStates, ReplayOne, Lawful, Compression.Inverse;
    var db := s.db;
    var data := db.fs.wal.value.data;
    var frame := Frame(Body(rec));
    var logged := Last(AppendStates(db.fs, db.pos, Body(rec), Syncs(env.policy, due)));
    FrameAppended(db.fs, Body(rec), Syncs(env.policy, due));
    var next := MutateDb(env, db, rec, due);
    LogPlusOnly(db.fs, logged, frame, |frame|);
    match Apply(env.ix, db.inner, rec) {
      case Some(j) =>
        assert frame[..|frame|] == frame;
        assert next.fs == logged;
        LoadWithFrame(env, db, rec, next.fs, |frame|);
        AcceptedReplays(env, db.inner, rec);
        ReplaySnoc(env.ix, start, s.ops, rec);
      case None =>
        FrameCutBack(db.fs, logged, frame);
        assert next.fs == WalSynced(WalResized(logged, db.pos));
        LoadByContent(env, db.fs, next.fs);
        assert s.ops + [] == s.ops;
    }
  }

  /**
    A rejected mutation cannot be seen afterwards, whatever the log held and whatever the policy:
    index, position and both files are as before, and the log is synced.
   */
  lemma RejectedIsInvisible<I>(env: Env<I>, db: Db<I>, rec: Record, due: bool)
    requires db.fs.wal.Some? && db.pos == |db.fs.wal.value.data| && Apply(env.ix, db.inner, rec).None?
    ensures MutateDb(env, db, rec, due)
         == Db(db.fs.(wal := Some(Inode(db.fs.wal.value.data, {db.fs.wal.value.data}))), db.pos, db.inner)
  {
    hide Body, Frame, AppendStates, LogPlus;
    var logged := Last(AppendStates(db.fs, db.pos, Body(rec), Syncs(env.policy, due)));
    FrameAppended(db.fs, Body(rec), Syncs(env.policy, due));
    LogPlusOnly(db.fs, logged, Frame(Body(rec)), |Frame(Body(rec))|);
    FrameCutBack(db.fs, logged, Frame(Body(rec)));
    assert MutateDb(env, db, rec, due).fs == WalSynced(WalResized(logged, db.pos));
  }

  lemma LogPlusOnly(fs0: Fs, fs: Fs, frame: bytes, k: nat)
    requires LogPlus(fs0, fs, frame, k)
    ensures fs == fs0.(wal := fs.wal) && fs.wal.Some?
  {
  }

  lemma AcceptedReplays<I(!new)>(env: Env<I>, i: I, rec: Record)
    requires Lawful(env.ix) && Apply(env.ix, i, rec).Some?
    ensures ReplayOne(env.ix, i, rec) == Success(Apply(env.ix, i, rec).value)
  {
    ReplayOfAccepted(env.ix, i, rec);
  }

  /** How loading turns out for a log that may carry some or all of the frame of `rec`. */
  ghost predicate MutationOutcome<I>(env: Env<I>, db: Db<I>, rec: Record, after: Fs)
    requires db.fs.wal.Some?
  {
    if !FrameLanded(db, rec, after) then LoadIndex(env, after) == Success(db.inner)
    else
      match Apply(env.ix, db.inner, rec)
      case Some(j) => LoadIndex(env, after) == Success(j)
      case None => LoadIndex(env, after).Failure?
  }

  /**
    A crash with some part of a frame in the log. Unless the frame is whole, loading gives the
    index from before. If it is, an accepted mutation is recovered, and a rejected one makes the
    load fail. This is also what a mutation that reported an I/O error leads to.
   */
  lemma CrashWithPartialFrame<I(!new)>(env: Env<I>, start: I, s: State<I>, rec: Record, fs: Fs, n: nat, after: Fs)
    requires Sound(env) && Inv(env, start, s) && Fits(rec) && Clean(s.db.fs.wal.value.data)
    requires LogPlus(s.db.fs, fs, Frame(Body(rec)), n) && CrashesTo(fs, after)
    ensures Settled(after) && MutationOutcome(env, s.db, rec, after)
  {
    hide LoadIndex, Replay, Clean, Fits, Body, Frame, ReplayOne, Lawful, Compression.Inverse, LogPlus;
    var k := PartialFrameCrash(s.db, rec, fs, n, after);
    var frame := Frame(Body(rec));
    LoadWithFrame(env, s.db, rec, after, k);
    LandedIffWhole(s.db.fs.wal.value.data, frame, k);
    if Apply(env.ix, s.db.inner, rec).Some? {
      AcceptedReplays(env, s.db.inner, rec);
    } else {
      ReplayOfRejected(env.ix, s.db.inner, rec);
    }
  }

  /** The same, for a crash anywhere inside a mutation that meets no I/O error. */
  lemma CrashInMutation<I(!new)>(env: Env<I>, start: I, s: State<I>, rec: Record, due: bool, at: nat, after: Fs)
    requires Sound(env) && Inv(env, start, s) && Fits(rec) && Clean(s.db.fs.wal.value.data)
    requires at < |MutateStates(env, s.db, rec, due)| && CrashesTo(MutateStates(env, s.db, rec, due)[at], after)
    ensures Settled(after) && MutationOutcome(env, s.db, rec, after)
  {
    hide LoadIndex, MutateStates, Replay, Clean, Fits, Body, Frame, MutationOutcome, Sound, LogPlus;
    var n := MutationState(env, s.db, rec, due, at);
    CrashWithPartialFrame(env, start, s, rec, MutateStates(env, s.db, rec, due)[at], n, after);
  }

  lemma LandedIffWhole(data: bytes, frame: bytes, k: nat)
    requires k <= |frame|
    ensures data + frame[..k] == data + frame <==> k == |frame|
  {
    if k < |frame| {
      assert |data + frame[..k]| < |data + frame|;
    } else {
      assert frame[..k] == frame;
    }
  }

  lemma NotLanded<I>(db: Db<I>, rec: Record, after: Fs)
    requires Settled(db.fs) && CrashesTo(db.fs, after)
    ensures !FrameLanded(db, rec, after)
  {
    hide Frame, Body;
    SettledCrash(db.fs, after);
    FrameNotEmpty(Body(rec));
    assert |db.fs.wal.value.data + Frame(Body(rec))| > |db.fs.wal.value.data|;
  }

  lemma FrameNotEmpty(body: bytes)
    ensures |Frame(body)| > 0
  {
  }

  lemma LiveReplay<I(!new)>(env: Env<I>, start: I, s: State<I>, rec: Record)
    requires Sound(env) && Inv(env, start, s) && Apply(env.ix, s.db.inner, rec).Some?
    ensures Replay(env.ix, start, s.ops + [rec]) == Success(Apply(env.ix, s.db.inner, rec).value)
  {
    hide LoadIndex, Lawful, ReplayOne;
    AcceptedReplays(env, s.db.inner, rec);
    ReplaySnoc(env.ix, start, s.ops, rec);
  }

  /** A mutation that returned leaves a clean log clean. */
  lemma MutateKeepsClean<I(!new)>(env: Env<I>, db: Db<I>, rec: Record, due: bool)
    requires db.fs.wal.Some? && db.pos == |db.fs.wal.value.data| && Fits(rec) && Clean(db.fs.wal.value.data)
    ensures Clean(MutateDb(env, db, rec, due).fs.wal.value.data)
  {
    hide LoadIndex, Replay, Fits, Body, Frame, AppendStates, LogImage, Parse;
    var recs := Parse(db.fs.wal.value.data).value;
    var logged := Last(AppendStates(db.fs, db.pos, Body(rec), Syncs(env.policy, due)));
    FrameAppended(db.fs, Body(rec), Syncs(env.policy, due));
    match Apply(env.ix, db.inner, rec) {
      case Some(_) =>
        TornAppend(recs, rec, |Frame(Body(rec))|);
        ImageSnoc(recs, rec);
        assert Frame(Body(rec))[..|Frame(Body(rec))|] == Frame(Body(rec));
        assert logged.wal.value.data == LogImage(recs + [rec]);
      case None =>
        FrameCutBack(db.fs, logged, Frame(Body(rec)));
        assert MutateDb(env, db, rec, due).fs == WalSynced(WalResized(logged, db.pos));
    }
  }

  /** A crash inside a mutation leaves the log clean exactly when it left none or all of the frame. */
  lemma CleanAfterMutationCrash<I(!new)>(env: Env<I>, db: Db<I>, rec: Record, due: bool, at: nat, after: Fs)
    requires Settled(db.fs) && db.pos == |db.fs.wal.value.data| && Fits(rec) && Clean(db.fs.wal.value.data)
    requires at < |MutateStates(env, db, rec, due)| && CrashesTo(MutateStates(env, db, rec, due)[at], after)
    ensures after.wal.Some?
    ensures Clean(after.wal.value.data) <==> Content(after.wal) == Content(db.fs.wal) || FrameLanded(db, rec, after)
  {
    hide MutateStates, Fits, Body, Frame, LogImage, Parse;
    var n := MutationState(env, db, rec, due, at);
    var k := PartialFrameCrash(db, rec, MutateStates(env, db, rec, due)[at], n, after);
    var data, frame := db.fs.wal.value.data, Frame(Body(rec));
    var recs := Parse(data).value;
    TornAppend(recs, rec, k);
    ImageSnoc(recs, rec);
    LandedIffWhole(data, frame, k);
    if k == 0 {
      assert data + frame[..0] == data;
    } else if k < |frame| {
      assert |data + frame[..k]| > |data|;
    }
  }

  /**
    An accepted mutation is on the device when it returns if the policy is to sync always, or
    periodically and the interval has passed. Otherwise everything a crash could have left of the
    log before is still possible.
   */
  lemma DurableWhenDue<I>(env: Env<I>, db: Db<I>, rec: Record, due: bool)
    requires db.fs.wal.Some? && db.pos == |db.fs.wal.value.data| && Apply(env.ix, db.inner, rec).Some?
    ensures var log := MutateDb(env, db, rec, due).fs.wal;
            && log.Some?
            && (if env.policy == Always || (env.policy == Periodic && due) then Durable(log)
                else db.fs.wal.value.images <= log.value.images && log.value.data in log.value.images)
  {
    hide Body, FrameHead, Written;
    var n, body := db.fs.wal.value, Body(rec);
    var headed := Written(n, |n.data|, FrameHead(body));
    WrittenKeeps(n, |n.data|, FrameHead(body));
    WrittenKeeps(headed, |headed.data|, body);
    PieceCanLand(n, FrameHead(body), FRAME_HEAD);
    PieceCanLand(headed, body, |body|);
    assert body[..|body|] == body;
  }

  lemma WrittenKeeps(n: Inode, pos: nat, chunk: bytes)
    ensures n.images <= Written(n, pos, chunk).images
  {
  }

  /** Any part of a chunk written at the end of a file can be what reaches the device. */
  lemma PieceCanLand(n: Inode, chunk: bytes, k: nat)
    requires k <= |chunk|
    ensures Written(n, |n.data|, chunk).data == n.data + chunk
    ensures n.data + chunk[..k] in Written(n, |n.data|, chunk).images
  {
    AppendAtEnd(n.data, chunk);
    AppendAtEnd(n.data, chunk[..k]);
    assert Overwrite(n.data, |n.data|, chunk[..k]) in Written(n, |n.data|, chunk).images;
  }

  // ---- checkpoints ----

  /** The three situations a crash inside a checkpoint can leave. */
  datatype Window = BeforeReplace | BeforeReset | InReset(k: nat)

  ghost predicate InWindow<I>(db: Db<I>, payload: bytes, after: Fs, w: Window)
    requires db.fs.wal.Some?
  {
    match w
    case BeforeReplace => Content(after.target) == Content(db.fs.target) && Content(after.wal) in Images(db.fs.wal)
    case BeforeReset => Content(after.target) == Some(payload) && Content(after.wal) in Images(db.fs.wal)
    case InReset(k) =>
      k <= HEADER_LEN && Content(after.target) == Some(payload) && Content(after.wal) == Some(Header()[..k])
  }

  /** Images of the log while it is being reset. */
  lemma ResetImages(fs: Fs, at: nat, c: bytes)
    requires fs.wal.Some? && at < |ResetStates(fs)| && c in ResetStates(fs)[at].wal.value.images
    ensures c in fs.wal.value.images || exists k: nat :: k <= HEADER_LEN && c == Header()[..k]
  {
    hide Header;
    var cut := WalResized(fs, 0);
    assert cut.wal.value.data == [] == Header()[..0];
    AppendAtEnd([], Header());
    assert [] + Header() == Header() == Header()[..HEADER_LEN];
    if c !in cut.wal.value.images && c != Header() {
      var k :| 0 <= k <= HEADER_LEN && c == Overwrite([], 0, Header()[..k]);
      AppendAtEnd([], Header()[..k]);
      assert [] + Header()[..k] == Header()[..k];
    }
  }

  /** During the replacement the snapshot is old or new, and the log is untouched. */
  lemma ReplacementStates(fs: Fs, payload: bytes, policy: FsyncPolicy, at: nat)
    requires policy != Never && at < |AtomicTrace(fs, payload, policy)|
    ensures OldOrNew(fs, payload, AtomicTrace(fs, payload, policy)[at])
  {
    WrittenPayload(fs, payload);
    SyncedImages(payload);
  }

  lemma CheckpointCrash<I>(env: Env<I>, db: Db<I>, payload: bytes, at: nat, after: Fs) returns (w: Window)
    requires env.policy != Never && TargetImages(db.fs) == {Content(db.fs.target)} && db.fs.wal.Some?
    requires at < |CheckpointStates(env, db, payload)| && CrashesTo(CheckpointStates(env, db, payload)[at], after)
    ensures InWindow(db, payload, after, w)
  {
    hide AtomicTrace, ResetStates, Header;
    var replacing := AtomicTrace(db.fs, payload, env.policy);
    AtomicIsDurable(db.fs, payload, env.policy);
    if at < |replacing| {
      assert CheckpointStates(env, db, payload)[at] == replacing[at];
      ReplacementStates(db.fs, payload, env.policy, at);
      assert Content(after.target) in TargetImages(db.fs) + {Some(payload)};
      w := if Content(after.target) == Content(db.fs.target) then BeforeReplace else BeforeReset;
    } else {
      var fs := ResetStates(Last(replacing))[at - |replacing|];
      assert CheckpointStates(env, db, payload)[at] == fs;
      ResetKeepsTarget(Last(replacing), at - |replacing|);
      var c := after.wal.value.data;
      ResetImages(Last(replacing), at - |replacing|, c);
      if c in db.fs.wal.value.images {
        w := BeforeReset;
      } else {
        var k: nat :| k <= HEADER_LEN && c == Header()[..k];
        w := InReset(k);
      }
    }
  }

  lemma SettledTarget(fs: Fs)
    requires Settled(fs)
    ensures TargetImages(fs) == {Content(fs.target)}
  {
  }

  lemma ResetKeepsTarget(fs: Fs, at: nat)
    requires fs.wal.Some? && at < |ResetStates(fs)|
    ensures OnlyLog(fs, ResetStates(fs)[at])
  {
  }

  /** The snapshot being written stands for the index in memory. */
  lemma PayloadDecodes<I(!new)>(env: Env<I>, i: I)
    requires Sound(env) && Saveable(env, i)
    ensures Snapshot.DecodeSnapshot(env.ix, env.codecs, Encoded(env, i).value) == Success(i)
  {
    hide Snapshot.DecodeSnapshot, Snapshot.EncodeSnapshot, Snapshot.WithinLimits, Compression.Inverse;
    Snapshot.SnapshotRoundTrip(env.ix, env.codecs, env.scheme, i);
  }

  /** With the new snapshot in place, loading replays whatever log is there onto the index saved. */
  lemma LoadOverSaved<I(!new)>(env: Env<I>, i: I, fs: Fs)
    requires Sound(env) && Saveable(env, i) && Content(fs.target) == Some(Encoded(env, i).value)
    ensures LoadIndex(env, fs) == ReplayLog(env, i, Content(fs.wal))
  {
    hide Sound, Reloadable, Encoded, ReplayLog, Snapshot.DecodeSnapshot;
    PayloadDecodes(env, i);
  }

  /** A header, or part of one, is an empty log. */
  lemma EmptyLog(k: nat)
    requires k <= HEADER_LEN
    ensures Parse(Header()[..k]) == Success([])
  {
    hide Header, Parse, ParseFrames;
    EveryTruncation([], k);
    assert LogImage([]) == Header();
  }

  /**
    A crash anywhere inside a checkpoint. Only between the new snapshot and the emptied log does
    recovery depend on anything: there it gives the same index exactly when the log repeats.
   */
  lemma CrashInCheckpoint<I(!new)>(env: Env<I>, start: I, s: State<I>, at: nat, after: Fs)
    requires env.policy != Never && Sound(env) && Inv(env, start, s) && Saveable(env, s.db.inner)
    requires at < |CheckpointStates(env, s.db, Encoded(env, s.db.inner).value)|
    requires CrashesTo(CheckpointStates(env, s.db, Encoded(env, s.db.inner).value)[at], after)
    ensures Settled(after)
    ensures LoadIndex(env, after) == Success(s.db.inner)
       <==> (&& Content(after.target) == Some(Encoded(env, s.db.inner).value)
             && Content(after.wal) == Content(s.db.fs.wal)
             ==> LogRepeats(env, s.db))
  {
    hide CheckpointStates, Parse, Replay, LoadIndex, Encoded, Sound, Reloadable, Header;
    var payload := Encoded(env, s.db.inner).value;
    SettledTarget(s.db.fs);
    var w := CheckpointCrash(env, s.db, payload, at, after);
    if Content(after.target) == Some(payload) {
      LoadOverSaved(env, s.db.inner, after);
    }
    match w {
      case BeforeReplace =>
        LoadByContent(env, s.db.fs, after);
      case BeforeReset =>
      case InReset(k) =>
        EmptyLog(k);
        ReplayNothing(env.ix, s.db.inner);
    }
  }

  /** A checkpoint that returned leaves a durable snapshot of the index, and an empty log. */
  lemma CheckpointGives<I(!new)>(env: Env<I>, db: Db<I>)
    requires env.policy != Never && Sound(env) && db.fs.wal.Some? && Saveable(env, db.inner)
    ensures var payload := Encoded(env, db.inner).value;
            CheckpointDb(env, db, payload) == FreshDb(payload, db.inner)
    ensures ReadSnapshot(env, FreshDb(Encoded(env, db.inner).value, db.inner).fs) == Success(db.inner)
  {
    hide AtomicTrace, Snapshot.DecodeSnapshot, Encoded, Reloadable, Sound, Header, ResetStates;
    var payload := Encoded(env, db.inner).value;
    PayloadDecodes(env, db.inner);
    AtomicIsDurable(db.fs, payload, env.policy);
    var replaced := Last(AtomicTrace(db.fs, payload, env.policy));
    ResetGivesHeader(replaced);
    assert CheckpointDb(env, db, payload).fs == Last(ResetStates(replaced));
  }

  /** A handle over a durable snapshot and a durable log that is only a header. */
  function FreshDb<I>(payload: bytes, i: I): Db<I> {
    Db(Fs(None, Some(Inode(payload, {payload})), {}, Some(Inode(Header(), {Header()}))), HEADER_LEN, i)
  }

  lemma FreshLoads<I>(env: Env<I>, payload: bytes, i: I)
    requires ReadSnapshot(env, FreshDb(payload, i).fs) == Success(i)
    ensures Settled(FreshDb(payload, i).fs) && Clean(Header()) && LoadIndex(env, FreshDb(payload, i).fs) == Success(i)
  {
    hide Header, Parse, Replay, Snapshot.DecodeSnapshot, Clean;
    HeaderIsClean();
    ReplayNothing(env.ix, i);
  }

  /**
    A checkpoint that returned establishes the invariant and leaves a clean log, whatever the files
    held before, for instance after a crash or an I/O error had torn the log.
   */
  lemma CheckpointKeeps<I(!new)>(env: Env<I>, start: I, s: State<I>)
    requires env.policy != Never && Sound(env) && Saveable(env, s.db.inner)
    requires s.db.fs.wal.Some? && Replay(env.ix, start, s.ops) == Success(s.db.inner)
    ensures var next := CheckpointDb(env, s.db, Encoded(env, s.db.inner).value);
            Inv(env, start, State(next, s.ops)) && Clean(next.fs.wal.value.data)
  {
    hide CheckpointDb, LoadIndex, ReadSnapshot, Sound, Reloadable, Encoded, Replay, Header, Clean;
    CheckpointGives(env, s.db);
    FreshLoads(env, Encoded(env, s.db.inner).value, s.db.inner);
  }

  lemma HeaderIsClean()
    ensures Clean(Header()) && Parse(Header()) == Success([])
  {
    hide Header, Parse;
    EmptyLog(HEADER_LEN);
    assert Header()[..HEADER_LEN] == Header();
    assert LogImage([]) == Header();
  }

  /** An index that replaying a log twice leaves as replaying it once. */
  ghost predicate Idempotent<I(!new)>(ix: IndexOps<I>) {
    forall i, recs {:trigger Replay(ix, i, recs)} ::
      Replay(ix, i, recs).Success? ==> Replay(ix, Replay(ix, i, recs).value, recs) == Replay(ix, i, recs)
  }

  /** For an idempotent index the checkpoint window is always safe. */
  lemma IdempotentRepeats<I(!new)>(env: Env<I>, start: I, s: State<I>)
    requires Idempotent(env.ix) && Inv(env, start, s)
    ensures LogRepeats(env, s.db)
  {
    hide Parse, Replay, Snapshot.DecodeSnapshot;
    var base := ReadSnapshot(env, s.db.fs).value;
    var recs := Parse(s.db.fs.wal.value.data).value;
    assert Replay(env.ix, base, recs) == Success(s.db.inner);
  }

  // ---- opening ----

  /** A handle just opened over `fs`, with nothing to recover yet. */
  function Opened<I>(env: Env<I>, fs: Fs, start: I): State<I>
    requires Saveable(env, start)
  {
    State(OpenedDb(env, fs, Encoded(env, start).value, start), [])
  }

  lemma OpenGives<I(!new)>(env: Env<I>, fs: Fs, start: I)
    requires env.policy != Never && Sound(env) && Saveable(env, start)
    ensures OpenedDb(env, fs, Encoded(env, start).value, start) == FreshDb(Encoded(env, start).value, start)
    ensures ReadSnapshot(env, FreshDb(Encoded(env, start).value, start).fs) == Success(start)
  {
    hide AtomicTrace, CreateStates, Snapshot.DecodeSnapshot, Encoded, Reloadable, Sound, Header;
    var payload := Encoded(env, start).value;
    PayloadDecodes(env, start);
    AtomicIsDurable(fs, payload, env.policy);
    CreateGivesHeader(Last(AtomicTrace(fs, payload, env.policy)));
  }

  /** A freshly opened handle satisfies the invariant and has a clean log, unless the policy never syncs. */
  lemma OpenEstablishes<I(!new)>(env: Env<I>, fs: Fs, start: I)
    requires env.policy != Never && Sound(env) && Saveable(env, start)
    ensures var db := OpenedDb(env, fs, Encoded(env, start).value, start);
            Inv(env, start, State(db, [])) && Clean(db.fs.wal.value.data)
  {
    hide OpenedDb, LoadIndex, ReadSnapshot, Sound, Reloadable, Encoded, Header, Clean;
    OpenGives(env, fs, start);
    FreshLoads(env, Encoded(env, start).value, start);
    ReplayNothing(env.ix, start);
  }
}
