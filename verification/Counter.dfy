/**
  The smallest index the recovery contract applies to, a counter of zero-dimensional vectors: its
  runs meet the conditions of the contract, two that break its discipline lose an acknowledged insert,
  and one whose crash is an unlucky one counts an insert twice.
 */
module Counter {
  import opened Wrappers
  import opened Bytes
  import opened Records
  import opened WalLog
  import opened WalTheorems
  import opened Format
  import opened FileSystem
  import opened Storage
  import opened Index
  import opened Protocol
  import opened Crashes
  import opened Runs
  import opened Shortfalls
  import Compression
  import Snapshot

  const LIMIT: nat := 0xFFFF_FFFF_FFFF_FFFF

  function Load(b: bytes): Result<u64> {
    if |b| == 8 then Success(FromLe8(b)) else Failure(InvalidPayload(Malformed))
  }

  function Ops(): IndexOps<u64> {
    IndexOps<u64>.IndexOps(
      [],
      (n: u64) => 0,
      (n: u64) => Cosine,
      (n: u64) => n,
      (n: u64, id: VectorId, v: seq<u32>, m: Option<Metadata>) => if v == [] && n < LIMIT then Some(n + 1) else None,
      (n: u64, id: VectorId) => if n > 0 then Some(n - 1) else None,
      (n: u64) => Success(Le8(n)),
      (b: bytes) => Load(b))
  }

  function NoCodecs(): Compression.Codecs {
    Compression.Codecs(
      false, false,
      (b: bytes, level: int) => None,
      (b: bytes) => None,
      (b: bytes) => b,
      (b: bytes, n: nat) => Some(b))
  }

  function Config(): Env<u64> {
    Env(Ops(), NoCodecs(), Compression.NoCompression, Always)
  }

  lemma LoadsWhatItSaves(n: u64)
    ensures Load(Le8(n)) == Success(n)
  {
    Le8RoundTrip(n);
  }

  /** The counter obeys the laws an index must obey, and every state of it can be saved and reloaded. */
  lemma CounterIsTrusted(n: u64)
    ensures Trusted(Config()) && Saveable(Config(), n)
  {
    hide Load, Le8, HeaderBytes, Snapshot.Region, Snapshot.HeaderFor;
    forall m: u64 {:trigger Ops().saveTo(m)}
      ensures Ops().loadFrom(Ops().saveTo(m).value) == Success(m)
    {
      LoadsWhatItSaves(m);
    }
    Encodes(n);
  }

  lemma Encodes(n: u64)
    ensures Saveable(Config(), n)
  {
    hide Le8, HeaderBytes, Snapshot.Region;
  }

  // ---- runs that are recovered ----

  /** A counter opened at `n` over any files. */
  function Start(fs: Fs, n: u64): State<u64> {
    CounterIsTrusted(n);
    Opened(Config(), fs, n)
  }

  /** What a run without crashes should count to: inserts of the empty vector up, deletes down, neither past its end. */
  function Tally(n: u64, run: seq<Event>): u64
    decreases run
  {
    if run == [] then n else Tally(TallyOne(n, run[0]), run[1..])
  }

  function TallyOne(n: u64, ev: Event): u64 {
    match ev
    case Mutate(Insert(_, v, _), _) => if Loggable(ev.rec) && v == [] && n < LIMIT then n + 1 else n
    case Mutate(Delete(_), _) => if Loggable(ev.rec) && n > 0 then n - 1 else n
    case _ => n
  }

  lemma {:induction false} RunTallies(s: State<u64>, run: seq<Event>)
    requires CrashFree(run) && s.db.fs.wal.Some?
    ensures Run(Config(), s, run).Success? && Run(Config(), s, run).value.db.inner == Tally(s.db.inner, run)
    decreases run
  {
    hide Step, Contributes, TallyOne;
    if run != [] {
      StepTallies(s.db, run[0]);
      var next := State(Step(Config(), s.db, run[0]).value, s.ops + Contributes(Config(), s.db, run[0]));
      assert forall k :: 0 <= k < |run[1..]| ==> run[1..][k] == run[k + 1];
      RunTallies(next, run[1..]);
    }
  }

  lemma StepTallies(db: Db<u64>, ev: Event)
    requires db.fs.wal.Some? && !ev.Crash?
    ensures Step(Config(), db, ev).Success? && Step(Config(), db, ev).value.fs.wal.Some?
    ensures Step(Config(), db, ev).value.inner == TallyOne(db.inner, ev)
  {
    hide Loggable, MutateStates, CheckpointStates, Encoded;
  }

  /**
    Whatever short mutations and checkpoints a counter goes through, accepted or rejected, a load
    after a crash gives the count they come to.
   */
  lemma CounterRecovers(fs: Fs, n: u64, run: seq<Event>, after: Fs)
    requires Disciplined(run, true) && CrashFree(run)
    ensures var end := Run(Config(), Start(fs, n), run);
            end.Success? && (CrashesTo(end.value.db.fs, after) ==> LoadIndex(Config(), after) == Success(Tally(n, run)))
  {
    hide Trusted, Encoded, Reloadable, OpenedDb, Run, LoadIndex, Replay, Clean, Disciplined, Happens, Spared,
      CrashFree, Tally, EveryLoadRecovers;
    AllSaveable();
    StartIsSound(fs, n);
    CrashFreeHappens(Config(), n, Start(fs, n), run, true);
    WholeRunRecovery(Config(), fs, n, run, after);
    RunTallies(Start(fs, n), run);
  }

  /**
    A counter stopped inside an insert and loaded goes on without loss, whatever part of the frame
    was left in its log, as long as a checkpoint comes before the next mutation.
   */
  lemma CounterSurvivesCrash(fs: Fs, n: u64, crash: Event, rest: seq<Event>, after: Fs)
    requires crash.Crash? && crash.call.Mutating? && crash.call.rec.Insert? && crash.call.rec.vector == [] && n < LIMIT
    requires Possible(Config(), Start(fs, n).db, crash)
    requires Disciplined([crash] + rest, true) && CrashFree(rest)
    ensures Recovered(Config(), n, Run(Config(), Start(fs, n), [crash] + rest), after)
  {
    hide Sound, Encoded, Reloadable, OpenedDb, Run, LoadIndex, Replay, Clean, Happens, Spared, CrashFree,
      Possible, EveryLoadRecovers, Recovered, Disciplined, Loggable;
    AllSaveable();
    StartIsSound(fs, n);
    assert ([crash] + rest)[1..] == rest;
    OneCrashHappens(Config(), n, Start(fs, n), [crash] + rest, true);
    WholeRunRecovery(Config(), fs, n, [crash] + rest, after);
  }

  lemma AllSaveable()
    ensures forall i: u64 :: Saveable(Config(), i)
  {
    hide Saveable;
    forall i: u64 {:trigger Saveable(Config(), i)}
      ensures Saveable(Config(), i)
    {
      CounterIsTrusted(i);
    }
  }

  lemma StartIsSound(fs: Fs, n: u64)
    ensures Trusted(Config()) && Inv(Config(), n, Start(fs, n)) && Start(fs, n).db.inner == n
    ensures Start(fs, n).db.fs.wal.value.data == Header() && Clean(Header())
  {
    hide Sound, Encoded, Reloadable, OpenedDb, LoadIndex, Replay, Clean, Header;
    CounterIsTrusted(n);
    OpenEstablishes(Config(), fs, n);
    OpenGives(Config(), fs, n);
  }

  // ---- runs that are not ----

  /** The insert of the id 1, with an empty vector and no metadata. */
  const ONE: Record := Insert(U64(1), [], None)

  /** An insert whose frame is longer, by its id of forty bytes. */
  const TORN: Record := Insert(Blob(Zeros(40)), [], None)

  lemma FrameSizes()
    ensures Fits(ONE) && |Body(ONE)| == 15
    ensures Fits(TORN) && |Body(TORN)| == 55
  {
    hide Body;
    BodySize(ONE);
    BodySize(TORN);
  }

  /**
    The run of a crash and one insert after it: it can happen, no crash in it is unlucky, the
    insert is acknowledged, and the files end up as `fs`. Only the discipline is missing.
   */
  ghost predicate CarelessRun(s: State<u64>, crash: Event, fs: Fs) {
    var run := [crash, Mutate(ONE, false)];
    && Happens(Config(), s.db, run) && Spared(Config(), s.db, run) && !Disciplined(run, true)
    && Run(Config(), s, run).Success?
    && Run(Config(), s, run).value.db.inner == s.db.inner + 1
    && Run(Config(), s, run).value.db.fs == fs
  }

  lemma CarelessRunIs(s: State<u64>, crash: Event, loaded: Db<u64>)
    requires s.db.fs.wal.Some? && loaded.fs.wal.Some? && loaded.inner == s.db.inner < LIMIT
    requires Possible(Config(), s.db, crash) && !Unlucky(Config(), s.db, crash) && Saveable(Config(), s.db.inner)
    requires Step(Config(), s.db, crash) == Success(loaded) && crash.Crash? && !crash.call.Idle?
    ensures CarelessRun(s, crash, MutateDb(Config(), loaded, ONE, false).fs)
  {
    hide Possible, Unlucky, Encoded, Reloadable, Contributes, Step, Disciplined, MutateDb;
    var run := [crash, Mutate(ONE, false)];
    assert run[1..] == [Mutate(ONE, false)];
    OneInsert(State(loaded, s.ops + Contributes(Config(), s.db, crash)));
    NotDisciplined(crash);
  }

  lemma NotDisciplined(crash: Event)
    requires crash.Crash? && !crash.call.Idle?
    ensures !Disciplined([crash, Mutate(ONE, false)], true)
  {
    hide Encodable, Body, Short;
    FrameSizes();
    var run := [crash, Mutate(ONE, false)];
    assert run[1..] == [Mutate(ONE, false)];
    assert !Orderly(run[1..][0], false);
  }

  lemma OneInsert(s: State<u64>)
    requires s.db.fs.wal.Some? && s.db.inner < LIMIT
    ensures var ev := Mutate(ONE, false);
            && Happens(Config(), s.db, [ev]) && Spared(Config(), s.db, [ev])
            && Run(Config(), s, [ev]).Success?
            && Run(Config(), s, [ev]).value.db == MutateDb(Config(), s.db, ONE, false)
            && MutateDb(Config(), s.db, ONE, false).inner == s.db.inner + 1
  {
    hide Contributes, Body, MutateStates;
    FrameSizes();
    var ev := Mutate(ONE, false);
    var next := State(MutateDb(Config(), s.db, ONE, false), s.ops + Contributes(Config(), s.db, ev));
    assert Step(Config(), s.db, ev) == Success(next.db);
    assert [ev][1..] == [];
    assert Run(Config(), next, []) == Success(next);
  }

  /**
    Open a counter, stop the machine while an insert is being logged, load, and insert once more:
    the insert is acknowledged, and the next load has forgotten it.
   */
  lemma TornRunForgets(files: Fs, n: u64) returns (crash: Event, fs: Fs)
    requires n < LIMIT
    ensures crash.Crash? && crash.call.Mutating?
    ensures CarelessRun(Start(files, n), crash, fs) && LoadIndex(Config(), fs) == Success(n)
  {
    hide Start, Sound, Encoded, Reloadable, LoadIndex, LoadDb, Replay, Clean, Header, Body, Frame, MutateStates,
      MutateDb, LogImage, CarelessRun;
    var env, s := Config(), Start(files, n);
    StartIsSound(files, n);
    CounterIsTrusted(n);
    FrameSizes();
    var at, after := TornTailArises(env, s.db, TORN, false, 4);
    crash := Crash(Mutating(TORN, false), at + 1, after);
    CrashInMutation(env, n, s, TORN, false, at, after);
    LandedIffWhole(Header(), Frame(Body(TORN)), 4);
    LoadedAfterCrash(env, MutateStates(env, s.db, TORN, false)[at], after);
    var loaded := LoadDb(env, after).value;
    CarelessRunIs(s, crash, loaded);
    fs := MutateDb(env, loaded, ONE, false).fs;
    EmptyImage();
    TornTailLosesAcknowledged(env, loaded, [], TORN, 4, ONE, false);
  }

  /**
    Open a counter, stop the machine while a checkpoint rewrites the log's header, load, and insert:
    the insert is acknowledged, and the next load fails, whatever part of the header was left.
   */
  lemma HeaderlessRunBreaks(files: Fs, n: u64, k: nat) returns (crash: Event, fs: Fs)
    requires n < LIMIT && k < HEADER_LEN
    ensures crash.Crash? && crash.call.Checkpointing? && Content(crash.after.wal) == Some(Header()[..k])
    ensures CarelessRun(Start(files, n), crash, fs) && LoadIndex(Config(), fs).Failure?
  {
    hide Start, Sound, Encoded, Reloadable, LoadIndex, LoadDb, Replay, Clean, Header, Body, Frame,
      CheckpointStates, MutateDb, LogRepeats, CarelessRun;
    var env, s := Config(), Start(files, n);
    StartIsSound(files, n);
    CounterIsTrusted(n);
    var payload := Encoded(env, n).value;
    var at, after := HeaderlessLogArises(env, s.db, payload, k);
    crash := Crash(Checkpointing, at + 1, after);
    assert |Header()[..k]| < |Header()|;
    CrashInCheckpoint(env, n, s, at, after);
    LoadedAfterCrash(env, CheckpointStates(env, s.db, payload)[at], after);
    var loaded := LoadDb(env, after).value;
    CarelessRunIs(s, crash, loaded);
    fs := MutateDb(env, loaded, ONE, false).fs;
    HeaderlessLogBreaks(env, loaded, k, ONE, false);
    OneIsNoHeader(k);
  }

  /** The frame of `ONE` begins with its length, fifteen, and no header has such a byte. */
  lemma OneIsNoHeader(k: nat)
    requires k < HEADER_LEN <= k + |Frame(Body(ONE))|
    ensures !Completes(k, Frame(Body(ONE)))
  {
    hide Body;
    FrameSizes();
    var f := Frame(Body(ONE));
    assert f[..HEADER_LEN - k][0] == f[0] == Le(15, 4)[0] == 15;
    assert Header()[k..][0] == Header()[k];
    HeaderBytesDiffer(k);
  }

  lemma HeaderBytesDiffer(k: nat)
    requires k < HEADER_LEN
    ensures Header()[k] != 15
  {
    assert Le4(WAL_VERSION) == Le(1, 4);
    LeOfOne();
  }

  lemma LeOfOne()
    ensures Le(1, 4) == [1, 0, 0, 0]
  {
    assert Le(0, 3) == [0] + Le(0, 2);
    assert Le(0, 2) == [0] + Le(0, 1);
    assert Le(0, 1) == [0] + Le(0, 0);
  }

  /**
    The run of one insert and a crash inside the checkpoint after it: the caller is disciplined and
    the run can happen, but the crash is unlucky, and the load gives `count`.
   */
  ghost predicate UnluckyRun(s: State<u64>, crash: Event, count: u64) {
    var run := [Mutate(ONE, false), crash];
    && Disciplined(run, true) && Happens(Config(), s.db, run) && !Spared(Config(), s.db, run)
    && Run(Config(), s, run).Success? && Run(Config(), s, run).value.db.inner == count
  }

  lemma UnluckyRunIs(s: State<u64>, crash: Event, count: u64)
    requires s.db.fs.wal.Some? && crash.Crash? && crash.call.Checkpointing?
    requires var next := MutateDb(Config(), s.db, ONE, false);
             && next.fs.wal.Some? && Saveable(Config(), next.inner)
             && Possible(Config(), next, crash) && Unlucky(Config(), next, crash)
    requires LoadIndex(Config(), crash.after) == Success(count)
    ensures UnluckyRun(s, crash, count)
  {
    hide Possible, Unlucky, Encoded, Reloadable, Contributes, MutateDb, LoadIndex, Encodable, Body;
    FrameSizes();
    var run := [Mutate(ONE, false), crash];
    var next := State(MutateDb(Config(), s.db, ONE, false), s.ops + Contributes(Config(), s.db, run[0]));
    assert run[1..] == [crash] && [crash][1..] == [];
    assert Step(Config(), s.db, run[0]) == Success(next.db);
    UnluckyLast(next, crash, count);
    MutationIsPossible(s.db, run[0]);
    assert Disciplined([crash], true);
  }

  lemma MutationIsPossible(db: Db<u64>, ev: Event)
    requires db.fs.wal.Some? && ev.Mutate?
    ensures Possible(Config(), db, ev)
  {
    hide CallStates;
  }

  lemma UnluckyLast(s: State<u64>, crash: Event, count: u64)
    requires s.db.fs.wal.Some? && crash.Crash? && Saveable(Config(), s.db.inner)
    requires Possible(Config(), s.db, crash) && Unlucky(Config(), s.db, crash)
    requires LoadIndex(Config(), crash.after) == Success(count)
    ensures Happens(Config(), s.db, [crash]) && !Spared(Config(), s.db, [crash])
    ensures Run(Config(), s, [crash]).Success? && Run(Config(), s, [crash]).value.db.inner == count
  {
    hide Possible, Unlucky, Encoded, Reloadable, Contributes, LoadIndex;
    var loaded := Step(Config(), s.db, crash);
    var next := State(loaded.value, s.ops + Contributes(Config(), s.db, crash));
    assert [crash][1..] == [];
    assert Run(Config(), next, []) == Success(next);
  }

  /**
    Open a counter at `n`, insert once, and stop the machine between the two steps of a checkpoint:
    the load counts the insert twice.
   */
  lemma CheckpointCountsTwice(files: Fs, n: u64) returns (crash: Event)
    requires n + 1 < LIMIT
    ensures UnluckyRun(Start(files, n), crash, n + 2)
  {
    hide Start, Sound, Encoded, Reloadable, LoadIndex, LoadDb, Replay, Clean, Header, Body, Frame,
      CheckpointStates, MutateDb, ReplayLog, UnluckyRun, Encodable, Unlucky;
    var env, s := Config(), Start(files, n);
    StartIsSound(files, n);
    CounterIsTrusted(n + 1);
    FrameSizes();
    OneInsert(s);
    MutateKeeps(env, n, s, ONE, false);
    var next := MutateDb(env, s.db, ONE, false);
    var t := State(next, s.ops + [ONE]);
    AcceptedFiles(env, s.db, ONE, false);
    OneTwice(n, next.fs.wal.value.data);
    crash := UnluckyWindow(env, n, t);
    UnluckyRunIs(s, crash, n + 2);
  }

  /** A log of one insert, replayed over the count it led to. */
  lemma OneTwice(n: u64, log: bytes)
    requires n + 1 < LIMIT && log == Header() + Frame(Body(ONE))
    ensures ReplayLog(Config(), n + 1, Some(log)) == Success(n + 2)
  {
    hide Body, Frame, Parse, Encodable, LogImage, Header;
    FrameSizes();
    EmptyImage();
    ImageSnoc([], ONE);
    assert [] + [ONE] == [ONE];
    FitsReadBack([ONE]);
    ReplayOneInsert(n);
  }

  lemma ReplayOneInsert(n: u64)
    requires n + 1 < LIMIT
    ensures Replay(Config().ix, n + 1, [ONE]) == Success(n + 2)
  {
    assert [ONE][1..] == [];
    ReplayNothing(Config().ix, n + 2);
  }
}
