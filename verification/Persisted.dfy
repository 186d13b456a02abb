/** The snapshot lifecycle wrapper: an index in memory, kept in step with its files. */
module Persisted {
  import opened Wrappers
  import opened Bytes
  import opened Records
  import opened WalLog
  import opened FileSystem
  import opened Storage
  import opened WalFile
  import opened Index
  import opened Protocol
  import Compression
  import Snapshot

  /** Whether the build supports the configured compression. */
  function ValidateConfig(codecs: Compression.Codecs, scheme: Compression.Scheme): (r: Result<()>)
    ensures r.Success? ==> forall raw :: Compression.Encode(codecs, scheme, raw) != Failure(Unsupported)
    ensures r.Failure? ==> r.error == Unsupported
    ensures r.Failure? <==> Compression.Refused(codecs, scheme)
  {
    var any: bytes := [];
    assert Compression.Refused(codecs, scheme) ==> Compression.Encode(codecs, scheme, any) == Failure(Unsupported);
    match scheme
    case NoCompression => Success(())
    case Zstd(_) => if codecs.zstdBuilt then Success(()) else Failure(Unsupported)
    case Lz4 => if codecs.lz4Built then Success(()) else Failure(Unsupported)
  }

  /** What opening leaves when it fails: no new snapshot, or one beside a log that was not quite created. */
  ghost predicate NotEstablished<I>(env: Env<I>, inner: I, fs0: Fs, error: PersistError, fs: Fs) {
    match Snapshot.EncodeSnapshot(env.ix, env.codecs, env.scheme, inner)
    case Failure(e) => error == e && fs == fs0
    case Success(payload) =>
      && error == Io
      && (|| NotReplaced(fs0, payload, env.policy, fs)
          || PartlyCreated(Last(AtomicTrace(fs0, payload, env.policy)), fs))
  }

  class PersistedIndex<I(!new)> {
    const env: Env<I>
    const disk: Disk
    const walEnabled: bool
    var inner: I
    var wal: Wal?

    ghost predicate Valid()
      reads this, wal, disk
    {
      && (walEnabled <==> wal != null)
      && (wal != null ==> wal.disk == disk && wal.policy == env.policy && wal.AtEnd())
    }

    /** The handle as a value. */
    ghost function View(): Db<I>
      reads this, wal, disk
    {
      Db(disk.fs, if wal != null then wal.pos else 0, inner)
    }

    /** The handle is `db`, and the files went through `states` on the way to it. */
    twostate predicate Became(db: Db<I>, states: seq<Fs>)
      reads this, wal, disk
    {
      View() == db && disk.Through(states)
    }

    constructor Raw(env: Env<I>, disk: Disk, inner: I, walEnabled: bool, wal: Wal?)
      ensures this.env == env && this.disk == disk && this.walEnabled == walEnabled
      ensures this.inner == inner && this.wal == wal
    {
      this.env := env;
      this.disk := disk;
      this.walEnabled := walEnabled;
      this.inner := inner;
      this.wal := wal;
    }

    /** Serializes the index and replaces the snapshot file. */
    static method WriteSnapshot(env: Env<I>, disk: Disk, inner: I) returns (r: Result<()>)
      modifies disk
      ensures var s := Snapshot.EncodeSnapshot(env.ix, env.codecs, env.scheme, inner);
              && (s.Failure? ==> r == Failure(s.error) && disk.Through([]))
              && (s.Success? && r.Success? ==> disk.Through(AtomicTrace(old(disk.fs), s.value, env.policy)))
              && (s.Success? && r.Failure? ==>
                    && r.error == Io
                    && NotReplaced(old(disk.fs), s.value, env.policy, disk.fs))
              && disk.Honest(s.Success? && r.Failure?)
    {
      hide AtomicTrace;
      var full :- Snapshot.BuildSnapshot(env.ix, env.codecs, env.scheme, inner);
      r := Storage.WriteAtomic(disk, full, env.policy);
    }

    /** Wraps `inner`. With the log enabled, writes a base snapshot and starts an empty log. */
    static method OpenWith(env: Env<I>, disk: Disk, inner: I, walEnabled: bool) returns (r: Result<PersistedIndex<I>>)
      modifies disk
      ensures r.Success? ==>
        && fresh(r.value) && r.value.Valid() && r.value.walEnabled == walEnabled
        && r.value.env == env && r.value.disk == disk && r.value.inner == inner
      ensures r.Success? && walEnabled ==>
        && Snapshot.EncodeSnapshot(env.ix, env.codecs, env.scheme, inner).Success?
        && var payload := Snapshot.EncodeSnapshot(env.ix, env.codecs, env.scheme, inner).value;
           && disk.Through(CreationStates(old(disk.fs), payload, env.policy))
           && r.value.View() == OpenedDb(env, old(disk.fs), payload, inner)
      ensures !walEnabled ==> disk.Through([])
      ensures Compression.Refused(env.codecs, env.scheme) ==> r == Failure(Unsupported) && disk.Through([])
      ensures r.Failure? && !Compression.Refused(env.codecs, env.scheme) ==>
        walEnabled && NotEstablished(env, inner, old(disk.fs), r.error, disk.fs)
      ensures disk.Honest(&& r.Failure? && !Compression.Refused(env.codecs, env.scheme)
                          && Snapshot.EncodeSnapshot(env.ix, env.codecs, env.scheme, inner).Success?)
    {
      hide CreationStates, Snapshot.EncodeSnapshot, NotEstablished;
      var _ :- ValidateConfig(env.codecs, env.scheme);
      if !walEnabled {
        var plain := new PersistedIndex<I>.Raw(env, disk, inner, walEnabled, null);
        return Success(plain);
      }
      var wal :- Establish(env, disk, inner);
      var db := new PersistedIndex<I>.Raw(env, disk, inner, walEnabled, wal);
      r := Success(db);
    }

    /** A base snapshot, and a fresh log beside it. */
    static method Establish(env: Env<I>, disk: Disk, inner: I) returns (r: Result<Wal>)
      modifies disk
      ensures r.Success? ==>
        && Snapshot.EncodeSnapshot(env.ix, env.codecs, env.scheme, inner).Success?
        && var payload := Snapshot.EncodeSnapshot(env.ix, env.codecs, env.scheme, inner).value;
           disk.Through(CreationStates(old(disk.fs), payload, env.policy))
      ensures r.Success? ==>
        && fresh(r.value) && fresh(r.value.scratch)
        && r.value.disk == disk && r.value.policy == env.policy && r.value.AtEnd()
      ensures r.Failure? ==> NotEstablished(env, inner, old(disk.fs), r.error, disk.fs)
      ensures disk.Honest(r.Failure? && Snapshot.EncodeSnapshot(env.ix, env.codecs, env.scheme, inner).Success?)
    {
      hide AtomicTrace, CreateStates, NotReplaced, PartlyCreated, Snapshot.EncodeSnapshot;
      var _ :- WriteSnapshot(env, disk, inner);
      r := Wal.Create(disk, env.policy);
    }

    /** Reads the snapshot, replays the log onto it, and opens the log for more appends. */
    static method Load(env: Env<I>, disk: Disk, walEnabled: bool) returns (r: Result<PersistedIndex<I>>)
      modifies disk
      ensures r.Success? ==>
        && fresh(r.value) && r.value.Valid() && r.value.walEnabled == walEnabled
        && r.value.env == env && r.value.disk == disk
      ensures r.Success? && walEnabled ==>
        && LoadDb(env, old(disk.fs)) == Success(r.value.View()) && disk.Through(OpenStates(old(disk.fs)))
      ensures r.Success? && !walEnabled ==>
        ReadSnapshot(env, old(disk.fs)) == Success(r.value.inner) && disk.Through([])
      ensures Compression.Refused(env.codecs, env.scheme) ==> r == Failure(Unsupported) && disk.Through([])
      ensures disk.failures >= old(disk.failures) && (disk.failures > old(disk.failures) ==> r == Failure(Io))
      ensures disk.failures == old(disk.failures) && !Compression.Refused(env.codecs, env.scheme) ==>
        var loaded := if walEnabled then LoadIndex(env, old(disk.fs)) else ReadSnapshot(env, old(disk.fs));
        (r.Success? <==> loaded.Success?) && (r.Failure? ==> r.error == loaded.error)
      ensures r.Failure? ==> NotOpened(old(disk.fs), disk.fs)
    {
      hide OpenStates, Parse, Replay, Snapshot.DecodeSnapshot;
      var _ :- ValidateConfig(env.codecs, env.scheme);
      var b :- disk.ReadTarget();
      var inner :- Snapshot.LoadSnapshot(env.ix, env.codecs, b);
      var db := new PersistedIndex<I>.Raw(env, disk, inner, walEnabled, null);
      if walEnabled {
        var log :- disk.ReadWal();
        if log.Some? {
          var records :- WalLog.ParseRecords(log.value);
          var replayed :- ReplayRecords(env.ix, inner, records);
          inner := replayed.0;
        }
        var wal :- Wal.OpenForAppend(disk, env.policy);
        db := new PersistedIndex<I>.Raw(env, disk, inner, walEnabled, wal);
      }
      r := Success(db);
    }

    /**
      How a logged mutation turned out. Accepted: logged and applied. Rejected: the index is as
      it was and the frame is cut off again. Not loggable: nothing happened. An I/O error leaves
      the index as it was and at most part of the frame, possibly all of it, in the log.
     */
    twostate predicate Mutated(rec: Record, due: bool, new r: Result<()>)
      requires old(Valid()) && walEnabled
      reads this, wal, disk
    {
      && disk.Honest(r == Failure(Io))
      && (disk.failures == old(disk.failures) ==>
            (r.Success? <==> Loggable(rec) && Apply(env.ix, old(inner), rec).Some?))
      && (r.Success? ==>
            && Loggable(rec) && Apply(env.ix, old(inner), rec).Some?
            && Became(MutateDb(env, old(View()), rec, due), MutateStates(env, old(View()), rec, due)))
      && (r.Failure? ==>
            || (r.error.InvalidPayload? && !Loggable(rec) && Became(old(View()), []))
            || (&& r.error == IndexBuild && Loggable(rec) && Apply(env.ix, old(inner), rec).None?
                && Became(MutateDb(env, old(View()), rec, due), MutateStates(env, old(View()), rec, due)))
            || (&& r.error == Io && inner == old(inner)
                && exists k: nat :: LogPlus(old(disk.fs), disk.fs, Frame(Body(rec)), k)))
    }

    /** Applies a logged mutation the index accepted, or cuts its frame off again. */
    method Conclude(mark: nat, outcome: Option<I>) returns (r: Result<()>)
      requires Valid() && wal != null && mark <= wal.pos
      modifies this`inner, wal`pos, disk
      ensures Valid()
      ensures outcome.Some? ==>
        r == Success(()) && inner == outcome.value && disk.Through([]) && wal.pos == old(wal.pos)
      ensures outcome.None? ==> inner == old(inner) && r.Failure?
      ensures disk.Honest(r == Failure(Io))
      ensures outcome.None? ==>
        || (r.error == IndexBuild && disk.Through(RollbackStates(old(disk.fs), mark)) && wal.pos == mark)
        || (r.error == Io && (disk.fs == old(disk.fs) || disk.fs == WalResized(old(disk.fs), mark)))
    {
      match outcome {
        case Some(j) =>
          inner := j;
          r := Success(());
        case None =>
          var _ :- wal.Rollback(mark);
          r := Failure(IndexBuild);
      }
    }

    method Insert(id: VectorId, vector: seq<u32>, meta: Option<Metadata>, due: bool) returns (r: Result<()>)
      requires Valid()
      modifies this`inner, wal, if wal == null then {} else {wal.scratch}, disk
      ensures Valid()
      ensures walEnabled ==> Mutated(Records.Insert(id, vector, meta), due, r)
      ensures !walEnabled ==> Unlogged(Records.Insert(id, vector, meta), r)
    {
      hide AppendStates, RollbackStates, Frame, Body, Loggable, LogPlus, WalResized, MutateStates, MutateDb, Syncs;
      ghost var rec := Records.Insert(id, vector, meta);
      if wal != null {
        var mark := wal.Mark();
        LoggedFrame(rec, due);
        var _ :- wal.AppendInsert(id, vector, meta, due);
        r := Conclude(mark, env.ix.insert(inner, id, vector, meta));
      } else {
        match env.ix.insert(inner, id, vector, meta) {
          case Some(j) =>
            inner := j;
            r := Success(());
          case None =>
            r := Failure(IndexBuild);
        }
      }
    }

    /** Without a log a mutation only changes memory. */
    twostate predicate Unlogged(rec: Record, new r: Result<()>)
      reads this, disk
    {
      && disk.Through([]) && disk.Honest(false)
      && (match Apply(env.ix, old(inner), rec)
          case Some(j) => r == Success(()) && inner == j
          case None => r == Failure(IndexBuild) && inner == old(inner))
    }

    /** What appending the frame of `rec` at the end of the log leaves, and how cutting it back undoes that. */
    lemma LoggedFrame(rec: Record, due: bool)
      requires Valid() && walEnabled
      ensures var after := Last(AppendStates(disk.fs, wal.pos, Body(rec), Syncs(env.policy, due)));
              && LogPlus(disk.fs, after, Frame(Body(rec)), |Frame(Body(rec))|)
              && |after.wal.value.data| == wal.pos + |Frame(Body(rec))|
              && LogPlus(disk.fs, WalResized(after, wal.pos), Frame(Body(rec)), 0)
              && match Apply(env.ix, inner, rec)
                 case Some(j) =>
                   && MutateStates(env, View(), rec, due)
                      == AppendStates(disk.fs, wal.pos, Body(rec), Syncs(env.policy, due))
                   && MutateDb(env, View(), rec, due) == Db(after, wal.pos + |Frame(Body(rec))|, j)
                 case None =>
                   && MutateStates(env, View(), rec, due)
                      == AppendStates(disk.fs, wal.pos, Body(rec), Syncs(env.policy, due))
                         + RollbackStates(after, wal.pos)
                   && MutateDb(env, View(), rec, due) == Db(Last(RollbackStates(after, wal.pos)), wal.pos, inner)
    {
      hide AppendStates, Frame, Body, LogPlus;
      FrameAppended(disk.fs, Body(rec), Syncs(env.policy, due));
      FrameCutBack(disk.fs, Last(AppendStates(disk.fs, wal.pos, Body(rec), Syncs(env.policy, due))), Frame(Body(rec)));
    }

    method Delete(id: VectorId, due: bool) returns (r: Result<()>)
      requires Valid()
      modifies this`inner, wal, if wal == null then {} else {wal.scratch}, disk
      ensures Valid()
      ensures walEnabled ==> Mutated(Records.Delete(id), due, r)
      ensures !walEnabled ==> Unlogged(Records.Delete(id), r)
    {
      hide AppendStates, RollbackStates, Frame, Body, Loggable, LogPlus, WalResized, MutateStates, MutateDb, Syncs;
      ghost var rec := Records.Delete(id);
      if wal != null {
        var mark := wal.Mark();
        LoggedFrame(rec, due);
        var _ :- wal.AppendDelete(id, due);
        r := Conclude(mark, env.ix.delete(inner, id));
      } else {
        match env.ix.delete(inner, id) {
          case Some(j) =>
            inner := j;
            r := Success(());
          case None =>
            r := Failure(IndexBuild);
        }
      }
    }

    /** Replaces the snapshot by the current state. The log is left alone. */
    method Save() returns (r: Result<()>)
      requires Valid()
      modifies disk
      ensures Valid()
      ensures var s := Snapshot.EncodeSnapshot(env.ix, env.codecs, env.scheme, inner);
              && (s.Failure? ==> r == Failure(s.error) && disk.Through([]))
              && (s.Success? && r.Success? ==> disk.Through(AtomicTrace(old(disk.fs), s.value, env.policy)))
              && (s.Success? && r.Failure? ==>
                    && r.error == Io
                    && NotReplaced(old(disk.fs), s.value, env.policy, disk.fs))
              && disk.Honest(s.Success? && r.Failure?)
    {
      hide AtomicTrace, Snapshot.EncodeSnapshot;
      ghost var s := Snapshot.EncodeSnapshot(env.ix, env.codecs, env.scheme, inner);
      if s.Success? {
        AtomicKeepsLog(disk.fs, s.value, env.policy);
      }
      r := WriteSnapshot(env, disk, inner);
    }

    /** Replaces the snapshot, then empties the log. */
    method Checkpoint() returns (r: Result<()>)
      requires Valid()
      modifies this, wal, disk
      ensures Valid() && inner == old(inner) && wal == old(wal)
      ensures var s := Snapshot.EncodeSnapshot(env.ix, env.codecs, env.scheme, inner);
              && (s.Failure? ==> r == Failure(s.error) && disk.Through([]))
              && (s.Success? && r.Success? && walEnabled ==>
                    Became(CheckpointDb(env, old(View()), s.value), CheckpointStates(env, old(View()), s.value)))
              && (s.Success? && r.Success? && !walEnabled ==>
                    disk.Through(AtomicTrace(old(disk.fs), s.value, env.policy)))
              && (s.Success? && r.Failure? ==>
                    && r.error == Io
                    && (|| NotReplaced(old(disk.fs), s.value, env.policy, disk.fs)
                        || (walEnabled && PartlyReset(Last(AtomicTrace(old(disk.fs), s.value, env.policy)), disk.fs))))
              && disk.Honest(s.Success? && r.Failure?)
    {
      hide AtomicTrace, ResetStates, Snapshot.EncodeSnapshot, NotReplaced, PartlyReset;
      ghost var s := Snapshot.EncodeSnapshot(env.ix, env.codecs, env.scheme, inner);
      if s.Success? {
        AtomicKeepsLog(disk.fs, s.value, env.policy);
      }
      var _ :- Save();
      if wal != null {
        r := wal.Reset();
        ResetGivesHeader(Last(AtomicTrace(old(disk.fs), s.value, env.policy)));
      } else {
        r := Success(());
      }
    }
  }
}
