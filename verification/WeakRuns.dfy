/**
  Whole runs under the policies that do not sync every append: over any number of crashes and
  loads, each load gives the index after some prefix of what had been accepted.
 */
module WeakRuns {
  import opened Wrappers
  import opened Records
  import opened WalLog
  import opened WalTheorems
  import opened FileSystem
  import opened Storage
  import opened WalFile
  import opened Index
  import opened Protocol
  import opened Crashes
  import opened WeakSync
  import Runs
  import Compression

  // ---- the conditions ----

  /**
    The discipline is that of `Runs`, with one thing added: here even a crash between calls can
    tear the log, so after every crash nothing is logged before a checkpoint has returned.
   */
  predicate Cautious(run: seq<Runs.Event>, clean: bool)
    decreases run
  {
    run == [] || (Runs.Orderly(run[0], clean) && Cautious(run[1..], CleanAfter(run[0], clean)))
  }

  predicate CleanAfter(ev: Runs.Event, clean: bool) {
    ev.Checkpoint? || (clean && ev.Mutate?)
  }

  /**
    A crash that does harm: it left the whole frame of a mutation the index rejects, or the new
    snapshot beside what was on the device of the old log, and that does not repeat.
   */
  ghost predicate Unlucky<I>(env: Env<I>, db: Db<I>, ev: Runs.Event)
    requires db.fs.wal.Some?
  {
    match ev
    case Crash(Mutating(rec, _), _, after) =>
      Loggable(rec) && Apply(env.ix, db.inner, rec).None? && FrameLanded(db, rec, after)
    case Crash(Checkpointing, _, after) =>
      && Encoded(env, db.inner).Success?
      && Content(after.target) == Some(Encoded(env, db.inner).value)
      && Content(after.wal) in Images(db.fs.wal)
      && ReplayLog(env, db.inner, Content(after.wal)) != Success(db.inner)
    case _ => false
  }

  ghost predicate Spared<I>(env: Env<I>, db: Db<I>, run: seq<Runs.Event>)
    decreases run
  {
    run == [] ||
    (&& db.fs.wal.Some?
     && !Unlucky(env, db, run[0])
     && (Runs.Step(env, db, run[0]).Success? ==> Spared(env, Runs.Step(env, db, run[0]).value, run[1..])))
  }

  // ---- what is recovered ----

  /** The session after a call that returned. */
  function Advance<I>(env: Env<I>, s: Session<I>, ev: Runs.Event): Session<I>
    requires s.db.fs.wal.Some? && !ev.Crash?
  {
    match ev
    case Mutate(rec, due) => if Loggable(rec) then Next(env, s, Mutation(rec, due)) else s
    case Checkpoint => Next(env, s, Checkpoint)
  }

  /** The mutations accepted so far, and the one a crash interrupts. */
  function InFlight<I>(s: Session<I>, ev: Runs.Event): seq<Record> {
    s.ops + (if ev.Crash? && ev.call.Mutating? && Loggable(ev.call.rec) then [ev.call.rec] else [])
  }

  /** Loading after the crash gives the index after the first `j` of them, and no synced one is lost. */
  ghost predicate Resumes<I>(env: Env<I>, start: I, s: Session<I>, ev: Runs.Event, j: nat)
    requires ev.Crash?
  {
    && s.synced <= j <= |InFlight(s, ev)|
    && LoadDb(env, ev.after).Success?
    && LoadIndex(env, ev.after) == Replay(env.ix, start, InFlight(s, ev)[..j])
  }

  /** The session that goes on from there. All it has is on the device. */
  function Resumed<I>(env: Env<I>, s: Session<I>, ev: Runs.Event, j: nat): Session<I>
    requires ev.Crash? && LoadDb(env, ev.after).Success? && j <= |InFlight(s, ev)|
  {
    Session(LoadDb(env, ev.after).value, InFlight(s, ev)[..j], j, j)
  }

  ghost predicate EveryLoadRecovers<I>(env: Env<I>, start: I, s: Session<I>, run: seq<Runs.Event>)
    decreases run
  {
    run == [] ||
    (&& s.db.fs.wal.Some?
     && if run[0].Crash? then
          exists j: nat :: Resumes(env, start, s, run[0], j)
                           && EveryLoadRecovers(env, start, Resumed(env, s, run[0], j), run[1..])
        else
          EveryLoadRecovers(env, start, Advance(env, s, run[0]), run[1..]))
  }

  // ---- one event ----

  /** Between a crash and the next checkpoint the log may be torn, but everything is on the device. */
  ghost predicate Kept<I>(env: Env<I>, start: I, s: Session<I>, clean: bool) {
    && s.synced <= |s.ops| && s.db.fs.wal.Some?
    && if clean then Holds(env, start, s) else Inv(env, start, State(s.db, s.ops))
  }

  lemma KeptReplays<I>(env: Env<I>, start: I, s: Session<I>, clean: bool)
    requires Kept(env, start, s, clean)
    ensures Replay(env.ix, start, s.ops) == Success(s.db.inner)
  {
    hide Holds, LoadIndex, Replay;
    if clean {
      HoldsLog(env, start, s);
    }
  }

  lemma CallKeeps<I(!new)>(env: Env<I>, start: I, s: Session<I>, ev: Runs.Event, clean: bool)
    requires env.policy != Never && Sound(env) && Kept(env, start, s, clean) && !ev.Crash?
    requires Runs.Orderly(ev, clean) && (Runs.Saves(ev) ==> Saveable(env, s.db.inner))
    ensures Kept(env, start, Advance(env, s, ev), CleanAfter(ev, clean))
    ensures Runs.Step(env, s.db, ev) == Success(Advance(env, s, ev).db)
  {
    hide Holds, Inv, Replay, Encoded, Reloadable, Sound, MutateDb, CheckpointDb, Loggable, Short, Fits;
    KeptReplays(env, start, s, clean);
    match ev {
      case Mutate(rec, due) =>
        if Loggable(rec) {
          ShortFits(rec);
          NextHolds(env, start, s, Mutation(rec, due));
          HoldsLog(env, start, Next(env, s, Mutation(rec, due)));
        }
      case Checkpoint =>
        CheckpointHolds(env, start, s);
        HoldsLog(env, start, Next(env, s, Checkpoint));
    }
  }

  /** Behind a log that may be torn nothing was logged, so a crash loses nothing. */
  lemma CrashWhileTorn<I(!new)>(env: Env<I>, start: I, s: Session<I>, ev: Runs.Event)
    requires env.policy != Never && Sound(env) && Kept(env, start, s, false) && ev.Crash?
    requires Runs.Orderly(ev, false) && (Runs.Saves(ev) ==> Saveable(env, s.db.inner))
    requires Runs.Possible(env, s.db, ev) && !Unlucky(env, s.db, ev)
    ensures Settled(ev.after) && LoadIndex(env, ev.after) == Success(s.db.inner)
  {
    hide Replay, LoadIndex, LoadDb, Encoded, Reloadable, Sound, MutateStates, CheckpointStates, Loggable,
      ReplayLog;
    var Crash(call, at, after) := ev;
    var t := State(s.db, s.ops);
    if at == 0 {
      CrashBetweenCalls(env, start, t, after);
    } else {
      assert call.Checkpointing?;
      CrashInCheckpoint(env, start, t, at - 1, after);
    }
  }

  /** With a clean log, a crash recovers a prefix; only an unlucky one does not. */
  lemma CrashWhileClean<I(!new)>(env: Env<I>, start: I, s: Session<I>, ev: Runs.Event) returns (j: nat)
    requires env.policy != Never && Sound(env) && Holds(env, start, s) && ev.Crash? && s.db.fs.wal.Some?
    requires Runs.Orderly(ev, true) && (Runs.Saves(ev) ==> Saveable(env, s.db.inner))
    requires Runs.Possible(env, s.db, ev) && !Unlucky(env, s.db, ev)
    ensures Settled(ev.after) && s.synced <= j <= |InFlight(s, ev)|
    ensures LoadIndex(env, ev.after) == Replay(env.ix, start, InFlight(s, ev)[..j])
    ensures Replay(env.ix, start, InFlight(s, ev)[..j]).Success?
  {
    hide Holds, Replay, LoadIndex, LoadDb, Encoded, Reloadable, Sound, MutateStates, CheckpointStates, Loggable,
      Short, Fits, ReplayLog, FrameLanded;
    var Crash(call, at, after) := ev;
    HoldsLog(env, start, s);
    if at == 0 {
      j := CrashWhileIdle(env, start, s, after);
      assert InFlight(s, ev)[..j] == s.ops[..j];
    } else {
      match call {
        case Mutating(rec, due) =>
          ShortFits(rec);
          j := CrashWhileLogging(env, start, s, rec, due, at - 1, after);
          assert InFlight(s, ev) == s.ops + [rec];
        case Checkpointing =>
          j := CrashWhileSaving(env, start, s, at - 1, after);
          assert InFlight(s, ev)[..j] == s.ops[..j];
      }
    }
  }

  lemma CrashWhileIdle<I>(env: Env<I>, start: I, s: Session<I>, after: Fs) returns (j: nat)
    requires Holds(env, start, s) && CrashesTo(s.db.fs, after)
    ensures Settled(after) && RecoversPrefix(env, start, s, after, j)
  {
    hide Replay, LoadIndex, ReadSnapshot, LogHolds;
    HoldsLog(env, start, s);
    CrashRecoversPrefix(env, start, s, after);
    j :| RecoversPrefix(env, start, s, after, j);
  }

  lemma CrashWhileLogging<I(!new)>(env: Env<I>, start: I, s: Session<I>, rec: Record, due: bool, at: nat, after: Fs)
      returns (j: nat)
    requires Sound(env) && Holds(env, start, s) && Fits(rec) && s.db.fs.wal.Some?
    requires at < |MutateStates(env, s.db, rec, due)| && CrashesTo(MutateStates(env, s.db, rec, due)[at], after)
    requires Apply(env.ix, s.db.inner, rec).None? ==> !FrameLanded(s.db, rec, after)
    ensures Settled(after) && s.synced <= j <= |s.ops| + 1
    ensures LoadIndex(env, after) == Replay(env.ix, start, (s.ops + [rec])[..j])
    ensures Replay(env.ix, start, (s.ops + [rec])[..j]).Success?
  {
    hide Replay, ReplayOne, LoadIndex, ReadSnapshot, LogHolds, SnapshotHolds, MutateStates, Fits, LogPlus,
      Compression.Inverse, Lawful, FrameLanded;
    HoldsLog(env, start, s);
    var k := MutationState(env, s.db, rec, due, at);
    j := CrashInMutationPrefix(env, start, s, rec, MutateStates(env, s.db, rec, due)[at], k, after);
    if j <= |s.ops| {
      assert (s.ops + [rec])[..j] == s.ops[..j];
      PrefixReplays(env, start, s.ops, j);
    } else {
      assert (s.ops + [rec])[..j] == s.ops + [rec];
      AcceptedReplays(env, s.db.inner, rec);
      ReplaySnoc(env.ix, start, s.ops, rec);
    }
  }

  lemma CrashWhileSaving<I(!new)>(env: Env<I>, start: I, s: Session<I>, at: nat, after: Fs) returns (j: nat)
    requires env.policy != Never && Sound(env) && Holds(env, start, s) && Saveable(env, s.db.inner)
    requires s.db.fs.wal.Some? && at < |CheckpointStates(env, s.db, Encoded(env, s.db.inner).value)|
    requires CrashesTo(CheckpointStates(env, s.db, Encoded(env, s.db.inner).value)[at], after)
    requires
      Content(after.target) == Some(Encoded(env, s.db.inner).value) && Content(after.wal) in Images(s.db.fs.wal) ==>
        ReplayLog(env, s.db.inner, Content(after.wal)) == Success(s.db.inner)
    ensures Settled(after) && RecoversPrefix(env, start, s, after, j)
  {
    hide Holds, Replay, LoadIndex, Encoded, Reloadable, Sound, CheckpointStates, ReplayLog, Images;
    HoldsLog(env, start, s);
    CrashInCheckpointPrefix(env, start, s, at, after);
    if i: nat :| RecoversPrefix(env, start, s, after, i) {
      j := i;
    } else {
      if Content(after.target) == Some(Encoded(env, s.db.inner).value) {
        LoadOverSaved(env, s.db.inner, after);
      }
      j := |s.ops|;
      assert s.ops[..j] == s.ops;
    }
  }

  /** Every crash that is not unlucky resumes a session that is kept. */
  lemma CrashResumes<I(!new)>(env: Env<I>, start: I, s: Session<I>, ev: Runs.Event, clean: bool) returns (j: nat)
    requires env.policy != Never && Sound(env) && Kept(env, start, s, clean) && ev.Crash?
    requires Runs.Orderly(ev, clean) && (Runs.Saves(ev) ==> Saveable(env, s.db.inner))
    requires Runs.Possible(env, s.db, ev) && !Unlucky(env, s.db, ev)
    ensures Resumes(env, start, s, ev, j)
    ensures Runs.Step(env, s.db, ev) == Success(Resumed(env, s, ev, j).db)
    ensures Kept(env, start, Resumed(env, s, ev, j), false)
  {
    hide Holds, Replay, LoadIndex, Saveable, Sound, Runs.CallStates, Unlucky, Loggable, Short;
    KeptReplays(env, start, s, clean);
    if clean {
      j := CrashWhileClean(env, start, s, ev);
    } else {
      CrashWhileTorn(env, start, s, ev);
      j := |s.ops|;
      assert InFlight(s, ev)[..j] == s.ops;
    }
    LoadedAfterCrash(env, Runs.CallStates(env, s.db, ev.call)[ev.at], ev.after);
  }

  // ---- whole runs ----

  lemma {:induction false} RunRecovers<I(!new)>(env: Env<I>, start: I, s: Session<I>, run: seq<Runs.Event>, clean: bool)
    requires env.policy != Never && Sound(env) && Kept(env, start, s, clean)
    requires Cautious(run, clean) && Runs.Happens(env, s.db, run) && Spared(env, s.db, run)
    ensures EveryLoadRecovers(env, start, s, run)
    decreases run
  {
    hide Kept, Resumes, Resumed, Advance, Unlucky, Runs.Possible, Runs.Step, Runs.Orderly, CleanAfter, Sound,
      Saveable, EveryLoadRecovers;
    if run != [] {
      var ev := run[0];
      if ev.Crash? {
        var j := CrashResumes(env, start, s, ev, clean);
        ResumesLoads(env, start, s, ev, j);
        CrashLeavesDirty(ev, clean);
        RunRecovers(env, start, Resumed(env, s, ev, j), run[1..], false);
        RecoversFromCrash(env, start, s, run, j);
      } else {
        CallKeeps(env, start, s, ev, clean);
        RunRecovers(env, start, Advance(env, s, ev), run[1..], CleanAfter(ev, clean));
        RecoversFromCall(env, start, s, run);
      }
    } else {
      RecoversNothing(env, start, s);
    }
  }

  lemma ResumesLoads<I>(env: Env<I>, start: I, s: Session<I>, ev: Runs.Event, j: nat)
    requires ev.Crash? && Resumes(env, start, s, ev, j)
    ensures LoadDb(env, ev.after).Success? && j <= |InFlight(s, ev)|
  {
    hide LoadDb, LoadIndex, Replay;
  }

  lemma RecoversNothing<I>(env: Env<I>, start: I, s: Session<I>)
    ensures EveryLoadRecovers(env, start, s, [])
  {
  }

  lemma RecoversFromCrash<I>(env: Env<I>, start: I, s: Session<I>, run: seq<Runs.Event>, j: nat)
    requires run != [] && run[0].Crash? && s.db.fs.wal.Some? && Resumes(env, start, s, run[0], j)
    requires LoadDb(env, run[0].after).Success? && j <= |InFlight(s, run[0])|
    requires EveryLoadRecovers(env, start, Resumed(env, s, run[0], j), run[1..])
    ensures EveryLoadRecovers(env, start, s, run)
  {
    hide Resumes, Resumed, LoadDb;
  }

  lemma RecoversFromCall<I>(env: Env<I>, start: I, s: Session<I>, run: seq<Runs.Event>)
    requires run != [] && !run[0].Crash? && s.db.fs.wal.Some?
    requires EveryLoadRecovers(env, start, Advance(env, s, run[0]), run[1..])
    ensures EveryLoadRecovers(env, start, s, run)
  {
    hide Advance;
  }

  lemma CrashLeavesDirty(ev: Runs.Event, clean: bool)
    requires ev.Crash?
    ensures !CleanAfter(ev, clean)
  {
  }

  /**
    Open an index over any files, under any policy that syncs at all, and let a cautious caller make
    any finite run of mutations and checkpoints, with crashes anywhere in or between them. If no
    crash is an unlucky one, every load gives the index after a prefix of what had been accepted
    in the line of sessions that led to it, and loses nothing that was synced.
   */
  lemma WeakRunRecovery<I(!new)>(env: Env<I>, fs: Fs, start: I, run: seq<Runs.Event>)
    requires env.policy != Never && Sound(env) && Saveable(env, start)
    requires Cautious(run, true) && Runs.Happens(env, Opened(env, fs, start).db, run)
    requires Spared(env, Opened(env, fs, start).db, run)
    ensures EveryLoadRecovers(env, start, Session(Opened(env, fs, start).db, [], 0, 0), run)
  {
    hide Holds, Opened, Encoded, Reloadable, Sound, Cautious, Runs.Happens, Spared, EveryLoadRecovers;
    OpenHolds(env, fs, start);
    HoldsLog(env, start, Session(Opened(env, fs, start).db, [], 0, 0));
    RunRecovers(env, start, Session(Opened(env, fs, start).db, [], 0, 0), run, true);
  }
}
