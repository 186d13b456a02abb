/**
  Mutations and checkpoints under any sync policy: with writes left unsynced, a crash recovers the
  state after some prefix of the accepted mutations, no shorter than what was last synced.
 */
module WeakSync {
  import opened Wrappers
  import opened Bytes
  import opened Records
  import opened WalLog
  import opened WalTheorems
  import opened FileSystem
  import opened Storage
  import opened WalFile
  import opened Index
  import opened Protocol
  import opened Crashes
  import Compression
  import Snapshot

  /**
    A handle and all the mutations accepted since the start. The first `folded` of them are in the
    snapshot and the others in the log; the first `synced` are known to be on the device.
   */
  datatype Session<I> = Session(db: Db<I>, ops: seq<Record>, folded: nat, synced: nat)

  /** A call, a mutation with the outcome of the interval test it meets. */
  datatype Call = Mutation(rec: Record, due: bool) | Checkpoint

  /** A crash can only shorten the log, and not below the synced records. */
  ghost predicate Prefixes(log: Inode, recs: seq<Record>, synced: nat) {
    && synced <= |recs|
    && forall c :: c in log.images ==> CutOf(log.data, c, |LogImage(recs[..synced])|)
  }

  /** `c` is `data` cut somewhere at or after `from`. */
  ghost predicate CutOf(data: bytes, c: bytes, from: nat) {
    exists t: nat :: from <= t <= |data| && c == data[..t]
  }

  /** The snapshot is durable and holds the folded mutations applied to `start`. */
  ghost predicate SnapshotHolds<I>(env: Env<I>, start: I, fs: Fs, folded: seq<Record>) {
    && fs.target.Some? && fs.stale == {} && Durable(fs.target)
    && ReadSnapshot(env, fs).Success? && ReadSnapshot(env, fs) == Replay(env.ix, start, folded)
  }

  /** The log holds exactly `recs`, and a crash leaves at least the first `synced`. */
  ghost predicate LogHolds(log: Option<Inode>, recs: seq<Record>, synced: nat) {
    log.Some? && log.value.data == LogImage(recs) && AllFit(recs) && Prefixes(log.value, recs, synced)
  }

  /** Snapshot and log hold the mutations between them, and their replay is the index in memory. */
  ghost predicate Holds<I>(env: Env<I>, start: I, s: Session<I>) {
    && s.folded <= s.synced <= |s.ops|
    && SnapshotHolds(env, start, s.db.fs, s.ops[..s.folded])
    && LogHolds(s.db.fs.wal, s.ops[s.folded..], s.synced - s.folded)
    && s.db.pos == |s.db.fs.wal.value.data|
    && Replay(env.ix, start, s.ops) == Success(s.db.inner)
  }

  /**
    Accepted mutations extend the log; a rollback syncs, whatever the policy. A checkpoint folds
    everything into the snapshot.
   */
  function Next<I>(env: Env<I>, s: Session<I>, c: Call): Session<I>
    requires s.db.fs.wal.Some?
  {
    match c
    case Mutation(rec, due) =>
      (var db := MutateDb(env, s.db, rec, due);
       match Apply(env.ix, s.db.inner, rec)
       case Some(_) => Session(db, s.ops + [rec], s.folded, if Syncs(env.policy, due) then |s.ops| + 1 else s.synced)
       case None => Session(db, s.ops, s.folded, |s.ops|))
    case Checkpoint =>
      match Encoded(env, s.db.inner)
      case Success(payload) => Session(CheckpointDb(env, s.db, payload), s.ops, |s.ops|, |s.ops|)
      case Failure(_) => s
  }

  function After<I>(env: Env<I>, s: Session<I>, calls: seq<Call>): Session<I>
    decreases calls
  {
    if calls == [] || s.db.fs.wal.None? then s else After(env, Next(env, s, calls[0]), calls[1..])
  }

  /** The parser reads the record back; a checkpoint writes a snapshot the reader accepts, and syncs it. */
  predicate Allowed<I>(env: Env<I>, s: Session<I>, c: Call) {
    match c
    case Mutation(rec, _) => Fits(rec)
    case Checkpoint => env.policy != Never && Reloadable(env, s.db.inner)
  }

  predicate AllAllowed<I>(env: Env<I>, s: Session<I>, calls: seq<Call>)
    decreases calls
  {
    calls == [] || s.db.fs.wal.None? ||
    (Allowed(env, s, calls[0]) && AllAllowed(env, Next(env, s, calls[0]), calls[1..]))
  }

  // ---- handles the theorems apply to ----

  /** A handle just opened, under a policy that syncs. */
  lemma OpenHolds<I(!new)>(env: Env<I>, fs: Fs, start: I)
    requires env.policy != Never && Sound(env) && Saveable(env, start)
    ensures Holds(env, start, Session(Opened(env, fs, start).db, [], 0, 0))
  {
    hide OpenedDb, Encoded, Reloadable, Sound, ReadSnapshot, Header, Prefixes, LogImage;
    OpenGives(env, fs, start);
    FreshHolds(env, start, Encoded(env, start).value, start, []);
  }

  /** A fresh log beside a snapshot that has everything. */
  lemma FreshHolds<I>(env: Env<I>, start: I, payload: bytes, i: I, ops: seq<Record>)
    requires ReadSnapshot(env, FreshDb(payload, i).fs) == Success(i) == Replay(env.ix, start, ops)
    ensures Holds(env, start, Session(FreshDb(payload, i), ops, |ops|, |ops|))
  {
    hide ReadSnapshot, Replay, LogHolds, Header;
    FreshLog();
    assert ops[..|ops|] == ops && ops[|ops|..] == [];
  }

  lemma FreshLog()
    ensures LogHolds(Some(Inode(Header(), {Header()})), [], 0)
  {
    hide Prefixes, LogImage, Header;
    EmptyImage();
    SyncedPrefixes(Inode(Header(), {Header()}), []);
  }

  /** A handle just loaded from what a crash left, under any policy, when the log is clean. */
  lemma LoadHolds<I>(env: Env<I>, fs: Fs, base: I)
    requires Settled(fs) && Clean(fs.wal.value.data) && ReadSnapshot(env, fs) == Success(base)
    requires LoadDb(env, fs).Success?
    ensures var recs := Parse(fs.wal.value.data).value;
            Holds(env, base, Session(LoadDb(env, fs).value, recs, 0, |recs|))
  {
    hide Replay, Prefixes, LogImage, Snapshot.DecodeSnapshot, Parse;
    var recs := Parse(fs.wal.value.data).value;
    assert recs[..0] == [] && recs[0..] == recs;
    ReplayNothing(env.ix, base);
    SyncedPrefixes(fs.wal.value, recs);
    assert WalOpened(fs) == fs;
  }

  // ---- the log after one mutation ----

  lemma {:induction false} ImageGrows(recs: seq<Record>, n: nat)
    requires n <= |recs|
    ensures |LogImage(recs[..n])| <= |LogImage(recs)|
  {
    hide Frames, Header;
    FramesConcat(recs[..n], recs[n..]);
    assert recs == recs[..n] + recs[n..];
  }

  /** Whatever part of one more frame reached the log, a crash leaves a cut of the log with that frame. */
  lemma CutsOfExtended(fs: Fs, after: Fs, recs: seq<Record>, synced: nat, rec: Record, k: nat, c: bytes)
    requires LogHolds(fs.wal, recs, synced) && LogPlus(fs, after, Frame(Body(rec)), k)
    requires c in after.wal.value.images
    ensures CutOf(LogImage(recs + [rec]), c, |LogImage(recs[..synced])|)
  {
    hide Frame, Body, LogImage, AllFit;
    var frame := Frame(Body(rec));
    var data := fs.wal.value.data;
    ImageSnoc(recs, rec);
    ImageGrows(recs, synced);
    var whole := LogImage(recs + [rec]);
    if c in fs.wal.value.images {
      var t: nat :| |LogImage(recs[..synced])| <= t <= |data| && c == data[..t];
      assert c == whole[..t];
    } else {
      var j: nat :| j <= |frame| && c == data + frame[..j];
      assert c == whole[..|data| + j];
    }
  }

  /** Images of the log extended by one unsynced frame. */
  lemma ExtendedPrefixes(fs: Fs, after: Fs, recs: seq<Record>, synced: nat, rec: Record)
    requires LogHolds(fs.wal, recs, synced) && Fits(rec)
    requires LogPlus(fs, after, Frame(Body(rec)), |Frame(Body(rec))|)
    ensures LogHolds(after.wal, recs + [rec], synced)
  {
    hide Frame, Body, LogImage, Fits;
    var frame := Frame(Body(rec));
    ImageSnoc(recs, rec);
    LogPlusData(fs, after, frame, |frame|);
    assert (recs + [rec])[..synced] == recs[..synced];
    forall c | c in after.wal.value.images
      ensures CutOf(after.wal.value.data, c, |LogImage(recs[..synced])|)
    {
      CutsOfExtended(fs, after, recs, synced, rec, |frame|, c);
    }
  }

  /** After a sync only the log itself can be found. */
  lemma SyncedPrefixes(log: Inode, recs: seq<Record>)
    requires log.data == LogImage(recs) && log.images == {log.data}
    ensures Prefixes(log, recs, |recs|)
  {
    hide LogImage;
    assert recs[..|recs|] == recs;
    assert log.data == log.data[..|log.data|];
  }

  /** Every call keeps snapshot and log the exact images of the mutations accepted. */
  lemma NextHolds<I(!new)>(env: Env<I>, start: I, s: Session<I>, c: Call)
    requires Sound(env) && Holds(env, start, s) && Allowed(env, s, c)
    ensures Holds(env, start, Next(env, s, c)) && Next(env, s, c).synced >= s.synced
  {
    hide Holds, MutateDb, CheckpointDb, Encoded, Reloadable, Lawful, Compression.Inverse, Fits;
    HoldsLog(env, start, s);
    match c {
      case Mutation(rec, due) =>
        MutationHolds(env, start, s, rec, due);
      case Checkpoint =>
        if Encoded(env, s.db.inner).Success? {
          CheckpointHolds(env, start, s);
        }
    }
  }

  lemma HoldsLog<I>(env: Env<I>, start: I, s: Session<I>)
    requires Holds(env, start, s)
    ensures s.db.fs.wal.Some? && s.folded <= s.synced <= |s.ops| && Replay(env.ix, start, s.ops) == Success(s.db.inner)
  {
    hide LogImage, Replay, Prefixes, SnapshotHolds, AllFit;
  }

  /** A checkpoint folds and syncs everything, whatever the files held before. */
  lemma CheckpointHolds<I(!new)>(env: Env<I>, start: I, s: Session<I>)
    requires env.policy != Never && Sound(env) && Saveable(env, s.db.inner)
    requires s.db.fs.wal.Some? && Replay(env.ix, start, s.ops) == Success(s.db.inner)
    ensures Holds(env, start, Next(env, s, Checkpoint)) && Next(env, s, Checkpoint).synced == |s.ops|
  {
    hide Holds, Encoded, Reloadable, Sound, CheckpointDb, ReadSnapshot, Replay, FreshDb;
    CheckpointGives(env, s.db);
    FreshHolds(env, start, Encoded(env, s.db.inner).value, s.db.inner, s.ops);
  }

  lemma MutationHolds<I(!new)>(env: Env<I>, start: I, s: Session<I>, rec: Record, due: bool)
    requires Lawful(env.ix) && Holds(env, start, s) && Fits(rec)
    ensures Holds(env, start, Next(env, s, Mutation(rec, due)))
  {
    hide Fits, Body, Frame, AppendStates, LogImage, Replay, ReplayOne, Prefixes, Snapshot.DecodeSnapshot,
      Lawful, LogPlus, SnapshotHolds, ReadSnapshot;
    var db, sync := s.db, Syncs(env.policy, due);
    var frame, recs := Frame(Body(rec)), s.ops[s.folded..];
    var logged := Last(AppendStates(db.fs, db.pos, Body(rec), sync));
    FrameAppended(db.fs, Body(rec), sync);
    LogPlusOnly(db.fs, logged, frame, |frame|);
    match Apply(env.ix, db.inner, rec) {
      case Some(j) =>
        assert (s.ops + [rec])[s.folded..] == recs + [rec] && (s.ops + [rec])[..s.folded] == s.ops[..s.folded];
        ExtendedPrefixes(db.fs, logged, recs, s.synced - s.folded, rec);
        if sync {
          SyncedPrefixes(logged.wal.value, recs + [rec]);
        }
        AcceptedReplays(env, db.inner, rec);
        ReplaySnoc(env.ix, start, s.ops, rec);
        SameSnapshot(env, start, db.fs, logged, s.ops[..s.folded]);
      case None =>
        FrameCutBack(db.fs, logged, frame);
        var cut := WalSynced(WalResized(logged, db.pos));
        assert Next(env, s, Mutation(rec, due)).db.fs == cut;
        SyncedPrefixes(cut.wal.value, recs);
        SameSnapshot(env, start, db.fs, cut, s.ops[..s.folded]);
    }
  }

  lemma SameSnapshot<I>(env: Env<I>, start: I, fs: Fs, after: Fs, folded: seq<Record>)
    requires SnapshotHolds(env, start, fs, folded) && after.target == fs.target && after.stale == fs.stale
    ensures SnapshotHolds(env, start, after, folded)
  {
    hide Replay, Snapshot.DecodeSnapshot;
  }

  lemma {:induction false} AfterHolds<I(!new)>(env: Env<I>, start: I, s: Session<I>, calls: seq<Call>)
    requires Sound(env) && Holds(env, start, s) && AllAllowed(env, s, calls)
    ensures Holds(env, start, After(env, s, calls))
    ensures After(env, s, calls).synced >= s.synced
    decreases calls
  {
    hide Holds, Next, Allowed, Sound;
    if calls != [] && s.db.fs.wal.Some? {
      NextHolds(env, start, s, calls[0]);
      AfterHolds(env, start, Next(env, s, calls[0]), calls[1..]);
    }
  }

  // ---- crashes ----

  lemma {:induction false} WholeFramesAtLeast(recs: seq<Record>, m: nat, t: nat)
    requires m <= |recs| && |Frames(recs[..m])| <= t
    ensures WholeFrames(recs, t) >= m
    decreases recs
  {
    hide Frame, Body;
    if m > 0 {
      var size := |Frame(Body(recs[0]))|;
      assert recs[..m] == [recs[0]] + recs[1..][..m - 1];
      FramesConcat([recs[0]], recs[1..][..m - 1]);
      assert Frames([recs[0]]) == Frame(Body(recs[0])) + Frames([]);
      WholeFramesAtLeast(recs[1..], m - 1, t - size);
    }
  }

  /** A log cut at or after the synced records parses to a prefix that includes them. */
  lemma CutParsesToPrefix(recs: seq<Record>, synced: nat, c: bytes) returns (j: nat)
    requires AllFit(recs) && synced <= |recs| && CutOf(LogImage(recs), c, |LogImage(recs[..synced])|)
    ensures synced <= j <= |recs| && Parse(c) == Success(recs[..j])
    ensures j == |recs| > synced ==> c == LogImage(recs)
  {
    hide Frames, Parse, AllFit, WholeFrames, Header;
    var t: nat :| |LogImage(recs[..synced])| <= t <= |LogImage(recs)| && c == LogImage(recs)[..t];
    EveryTruncation(recs, t);
    WholeFramesAtLeast(recs, synced, t - HEADER_LEN);
    j := WholeFrames(recs, t - HEADER_LEN);
    WholeFramesMeaning(recs, t - HEADER_LEN);
    assert recs[..|recs|] == recs && LogImage(recs)[..|LogImage(recs)|] == LogImage(recs);
  }

  lemma PrefixReplays<I>(env: Env<I>, start: I, ops: seq<Record>, j: nat)
    requires Replay(env.ix, start, ops).Success? && j <= |ops|
    ensures Replay(env.ix, start, ops[..j]).Success?
  {
    hide Replay;
    ReplayAppend(env.ix, start, ops[..j], ops[j..]);
    assert ops == ops[..j] + ops[j..];
  }

  /** Loading after the crash gives the index after the first `j` accepted mutations. */
  ghost predicate RecoversPrefix<I>(env: Env<I>, start: I, s: Session<I>, after: Fs, j: nat) {
    && s.synced <= j <= |s.ops|
    && Replay(env.ix, start, s.ops[..j]).Success?
    && LoadIndex(env, after) == Replay(env.ix, start, s.ops[..j])
  }

  /** A snapshot of the folded mutations, and a log cut behind the synced ones. */
  lemma CutLoadsPrefix<I>(env: Env<I>, start: I, ops: seq<Record>, folded: nat, synced: nat, after: Fs) returns (j: nat)
    requires folded <= synced <= |ops| && SnapshotHolds(env, start, after, ops[..folded]) && AllFit(ops[folded..])
    requires after.wal.Some?
    requires CutOf(LogImage(ops[folded..]), after.wal.value.data, |LogImage(ops[folded..][..synced - folded])|)
    ensures synced <= j <= |ops| && LoadIndex(env, after) == Replay(env.ix, start, ops[..j])
    ensures j == |ops| > synced ==> after.wal.value.data == LogImage(ops[folded..])
  {
    hide Parse, Replay, Snapshot.DecodeSnapshot, AllFit, LogImage, CutOf;
    var recs := ops[folded..];
    var n := CutParsesToPrefix(recs, synced - folded, after.wal.value.data);
    j := folded + n;
    ReplayAppend(env.ix, start, ops[..folded], recs[..n]);
    assert ops[..j] == ops[..folded] + recs[..n];
  }

  lemma CrashRecoversPrefix<I>(env: Env<I>, start: I, s: Session<I>, after: Fs)
    requires Holds(env, start, s) && CrashesTo(s.db.fs, after)
    ensures exists j: nat :: RecoversPrefix(env, start, s, after, j)
  {
    hide Parse, Replay, Snapshot.DecodeSnapshot, AllFit, LogImage, CutOf, LoadIndex;
    assert Content(after.target) == Content(s.db.fs.target);
    SnapshotSurvives(env, start, s.db.fs, after, s.ops[..s.folded]);
    var j := CutLoadsPrefix(env, start, s.ops, s.folded, s.synced, after);
    PrefixReplays(env, start, s.ops, j);
    assert RecoversPrefix(env, start, s, after, j);
  }

  lemma SnapshotSurvives<I>(env: Env<I>, start: I, fs: Fs, after: Fs, folded: seq<Record>)
    requires SnapshotHolds(env, start, fs, folded)
    requires after.target.Some? && Durable(after.target) && after.stale == {}
    requires Content(after.target) == Content(fs.target)
    ensures SnapshotHolds(env, start, after, folded)
  {
    hide Replay, Snapshot.DecodeSnapshot;
  }

  /**
    Whatever the policy: after any calls from a session that holds, a crash recovers the index
    after some prefix of the accepted mutations, at least the synced ones.
   */
  lemma PrefixRecovery<I(!new)>(env: Env<I>, start: I, s: Session<I>, calls: seq<Call>, after: Fs)
    requires Sound(env) && Holds(env, start, s) && AllAllowed(env, s, calls)
    requires CrashesTo(After(env, s, calls).db.fs, after)
    ensures exists j: nat :: RecoversPrefix(env, start, After(env, s, calls), after, j)
  {
    hide Holds, After, Sound, RecoversPrefix, AllAllowed;
    AfterHolds(env, start, s, calls);
    CrashRecoversPrefix(env, start, After(env, s, calls), after);
  }

  /** From a handle just opened, under a policy that syncs at all, for any calls. */
  lemma OpenedPrefixRecovery<I(!new)>(env: Env<I>, fs: Fs, start: I, calls: seq<Call>, after: Fs)
    requires env.policy != Never && Sound(env) && Saveable(env, start)
    requires AllAllowed(env, Session(Opened(env, fs, start).db, [], 0, 0), calls)
    requires CrashesTo(After(env, Session(Opened(env, fs, start).db, [], 0, 0), calls).db.fs, after)
    ensures exists j: nat ::
      RecoversPrefix(env, start, After(env, Session(Opened(env, fs, start).db, [], 0, 0), calls), after, j)
  {
    hide Holds, After, Sound, Saveable, Opened, RecoversPrefix, AllAllowed;
    OpenHolds(env, fs, start);
    PrefixRecovery(env, start, Session(Opened(env, fs, start).db, [], 0, 0), calls, after);
  }

  /**
    A crash inside a mutation, or after one that reported an I/O error: the mutation in flight may
    be the last one of the prefix. If the index rejects it and its whole frame landed, the load
    fails as the replay does.
   */
  lemma CrashInMutationPrefix<I>(env: Env<I>, start: I, s: Session<I>, rec: Record, fs: Fs, k: nat, after: Fs)
      returns (j: nat)
    requires Holds(env, start, s) && Fits(rec)
    requires LogPlus(s.db.fs, fs, Frame(Body(rec)), k) && CrashesTo(fs, after)
    ensures s.synced <= j <= |s.ops| + 1
    ensures LoadIndex(env, after) == Replay(env.ix, start, (s.ops + [rec])[..j])
    ensures j == |s.ops| + 1 ==> FrameLanded(s.db, rec, after)
    ensures Settled(after)
  {
    hide Fits, Frame, Body, LogImage, LogPlus, Replay, LoadIndex, Prefixes, CutOf, Snapshot.DecodeSnapshot;
    var recs, ops := s.ops[s.folded..], s.ops + [rec];
    LogPlusOnly(s.db.fs, fs, Frame(Body(rec)), k);
    assert ops[s.folded..] == recs + [rec] && ops[..s.folded] == s.ops[..s.folded];
    assert ops[s.folded..][..s.synced - s.folded] == recs[..s.synced - s.folded];
    CutsOfExtended(s.db.fs, fs, recs, s.synced - s.folded, rec, k, after.wal.value.data);
    SnapshotSurvives(env, start, s.db.fs, after, ops[..s.folded]);
    j := CutLoadsPrefix(env, start, ops, s.folded, s.synced, after);
    ImageSnoc(recs, rec);
  }

  /**
    A crash inside a checkpoint. Until the new snapshot is in place a prefix is recovered, and
    once the log has been cut nothing is lost. In between, what reached the device of the old
    log is replayed over the state it had led to.
   */
  lemma CrashInCheckpointPrefix<I(!new)>(env: Env<I>, start: I, s: Session<I>, at: nat, after: Fs)
    requires env.policy != Never && Sound(env) && Holds(env, start, s) && Saveable(env, s.db.inner)
    requires at < |CheckpointStates(env, s.db, Encoded(env, s.db.inner).value)|
    requires CrashesTo(CheckpointStates(env, s.db, Encoded(env, s.db.inner).value)[at], after)
    ensures Settled(after)
    ensures || (exists j: nat :: RecoversPrefix(env, start, s, after, j))
            || LoadIndex(env, after) == Success(s.db.inner)
            || (&& Content(after.target) == Some(Encoded(env, s.db.inner).value)
                && Content(after.wal) in Images(s.db.fs.wal)
                && exists n: nat :: s.synced - s.folded <= n <= |s.ops| - s.folded
                     && LoadIndex(env, after) == Replay(env.ix, s.db.inner, s.ops[s.folded..][..n]))
  {
    hide CheckpointStates, Encoded, Reloadable, Sound, LoadIndex, Replay, RecoversPrefix, Header, LogImage,
      AllFit, Snapshot.DecodeSnapshot, CutOf, Parse;
    var payload := Encoded(env, s.db.inner).value;
    var w := CheckpointCrash(env, s.db, payload, at, after);
    if Content(after.target) == Some(payload) {
      LoadOverSaved(env, s.db.inner, after);
    }
    match w {
      case BeforeReplace =>
        CrashRecoversPrefix(env, start, s, after);
      case BeforeReset =>
        var n := CutParsesToPrefix(s.ops[s.folded..], s.synced - s.folded, after.wal.value.data);
      case InReset(k) =>
        EmptyLog(k);
        ReplayNothing(env.ix, s.db.inner);
    }
  }

  /** When the last call was synced, a mutation rolled back, or a checkpoint that returned, nothing is lost. */
  lemma SyncedLosesNothing<I(!new)>(env: Env<I>, start: I, s: Session<I>, c: Call, after: Fs)
    requires Sound(env) && Holds(env, start, s) && Allowed(env, s, c)
    requires match c
             case Mutation(rec, due) =>
               env.policy == Always || (env.policy == Periodic && due) || Apply(env.ix, s.db.inner, rec).None?
             case Checkpoint => Encoded(env, s.db.inner).Success?
    requires CrashesTo(Next(env, s, c).db.fs, after)
    ensures LoadIndex(env, after) == Success(Next(env, s, c).db.inner)
  {
    hide Holds, MutateDb, CheckpointDb, LoadIndex, Replay, Sound, Encoded, Allowed;
    HoldsLog(env, start, s);
    NextHolds(env, start, s, c);
    var next := Next(env, s, c);
    HoldsLog(env, start, next);
    CrashRecoversPrefix(env, start, next, after);
    var j: nat :| RecoversPrefix(env, start, next, after, j);
    assert next.ops[..|next.ops|] == next.ops;
  }
}
