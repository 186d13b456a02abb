/**
  The durability protocol as functions on values: the states each call takes the files through,
  the handle it leaves, and what loading makes of the files.
 */
module Protocol {
  import opened Wrappers
  import opened Bytes
  import opened Records
  import opened WalLog
  import opened FileSystem
  import opened Storage
  import opened WalFile
  import opened Index
  import Compression
  import Snapshot

  /** The index implementation, the codec libraries and the configuration. */
  datatype Env<!I> = Env(
    ix: IndexOps<I>,
    codecs: Compression.Codecs,
    scheme: Compression.Scheme,
    policy: FsyncPolicy)

  /** A live handle with its log: the files, the append position and the index in memory. */
  datatype Db<I> = Db(fs: Fs, pos: nat, inner: I)

  // ---- load ----

  function ReplayLog<I>(env: Env<I>, i: I, log: Option<bytes>): Result<I> {
    match log
    case None => Success(i)
    case Some(b) =>
      var recs :- Parse(b);
      Replay(env.ix, i, recs)
  }

  function ReadSnapshot<I>(env: Env<I>, fs: Fs): Result<I> {
    match fs.target
    case None => Failure(Io)
    case Some(n) => Snapshot.DecodeSnapshot(env.ix, env.codecs, n.data)
  }

  /** The index that loading from `fs` rebuilds: the snapshot with the log replayed onto it. */
  function LoadIndex<I>(env: Env<I>, fs: Fs): Result<I> {
    var i :- ReadSnapshot(env, fs);
    ReplayLog(env, i, Content(fs.wal))
  }

  /** The handle that loading from `fs` returns. */
  function LoadDb<I>(env: Env<I>, fs: Fs): Result<Db<I>> {
    var i :- LoadIndex(env, fs);
    var after := Last(OpenStates(fs));
    Success(Db(after, |after.wal.value.data|, i))
  }

  // ---- open ----

  function CreationStates(fs: Fs, payload: bytes, policy: FsyncPolicy): (t: seq<Fs>)
    ensures t != [] && Last(t).wal.Some?
  {
    AtomicTrace(fs, payload, policy) + CreateStates(Last(AtomicTrace(fs, payload, policy)))
  }

  function OpenedDb<I>(env: Env<I>, fs: Fs, payload: bytes, inner: I): Db<I> {
    var after := Last(CreationStates(fs, payload, env.policy));
    Db(after, |after.wal.value.data|, inner)
  }

  // ---- insert and delete: log, then apply, then roll back on reject ----

  function MutateStates<I>(env: Env<I>, db: Db<I>, rec: Record, due: bool): (t: seq<Fs>)
    requires db.fs.wal.Some?
    ensures t != [] && Last(t).wal.Some?
  {
    var logged := AppendStates(db.fs, db.pos, Body(rec), Syncs(env.policy, due));
    match Apply(env.ix, db.inner, rec)
    case Some(_) => logged
    case None => logged + RollbackStates(Last(logged), db.pos)
  }

  function MutateDb<I>(env: Env<I>, db: Db<I>, rec: Record, due: bool): Db<I>
    requires db.fs.wal.Some?
  {
    var after := Last(MutateStates(env, db, rec, due));
    match Apply(env.ix, db.inner, rec)
    case Some(j) => Db(after, db.pos + |Frame(Body(rec))|, j)
    case None => Db(after, db.pos, db.inner)
  }

  // ---- checkpoint: replace the snapshot, then empty the log ----

  function CheckpointStates<I>(env: Env<I>, db: Db<I>, payload: bytes): (t: seq<Fs>)
    requires db.fs.wal.Some?
    ensures t != [] && Last(t).wal.Some?
  {
    AtomicKeepsLog(db.fs, payload, env.policy);
    AtomicTrace(db.fs, payload, env.policy) + ResetStates(Last(AtomicTrace(db.fs, payload, env.policy)))
  }

  function CheckpointDb<I>(env: Env<I>, db: Db<I>, payload: bytes): Db<I>
    requires db.fs.wal.Some?
  {
    Db(Last(CheckpointStates(env, db, payload)), HEADER_LEN, db.inner)
  }
}
