/**
  Whole runs of a logged index under the always-sync policy: mutations, checkpoints, and crashes
  between calls or at any point inside one, each crash followed by a load.
 */
module Runs {
  import opened Wrappers
  import opened Records
  import opened WalLog
  import opened WalTheorems
  import opened LogLayout
  import opened FileSystem
  import opened Storage
  import opened Index
  import opened Protocol
  import opened Crashes

  /** What the process was doing when the machine stopped. */
  datatype Call = Idle | Mutating(rec: Record, due: bool) | Checkpointing

  datatype Event =
    | Mutate(rec: Record, due: bool)
    | Checkpoint
    | Crash(call: Call, at: nat, after: Fs)

  // ---- what events do ----

  /** Every state the files are in before, during and after a call. */
  function CallStates<I>(env: Env<I>, db: Db<I>, call: Call): (t: seq<Fs>)
    requires db.fs.wal.Some?
    ensures t != []
  {
    match call
    case Idle => [db.fs]
    case Mutating(rec, due) => [db.fs] + (if Loggable(rec) then MutateStates(env, db, rec, due) else [])
    case Checkpointing =>
      match Encoded(env, db.inner)
      case Success(payload) => [db.fs] + CheckpointStates(env, db, payload)
      case Failure(_) => [db.fs]
  }

  /** A crash happens in one of the states of its call and leaves something that state can leave. */
  ghost predicate Possible<I>(env: Env<I>, db: Db<I>, ev: Event)
    requires db.fs.wal.Some?
  {
    ev.Crash? ==> ev.at < |CallStates(env, db, ev.call)| && CrashesTo(CallStates(env, db, ev.call)[ev.at], ev.after)
  }

  /** The handle after the event; a crash drops memory and loads. */
  function Step<I>(env: Env<I>, db: Db<I>, ev: Event): Result<Db<I>>
    requires db.fs.wal.Some?
  {
    match ev
    case Mutate(rec, due) => Success(if Loggable(rec) then MutateDb(env, db, rec, due) else db)
    case Checkpoint =>
      (match Encoded(env, db.inner)
       case Success(payload) => Success(CheckpointDb(env, db, payload))
       case Failure(_) => Success(db))
    case Crash(_, _, after) => LoadDb(env, after)
  }

  /**
    The mutations an event adds: one that was acknowledged, or one in flight whose whole frame
    was in the log when the machine stopped.
   */
  function Contributes<I>(env: Env<I>, db: Db<I>, ev: Event): seq<Record>
    requires db.fs.wal.Some?
  {
    match ev
    case Mutate(rec, _) => if Loggable(rec) && Apply(env.ix, db.inner, rec).Some? then [rec] else []
    case Crash(Mutating(rec, _), _, after) =>
      if Loggable(rec) && Apply(env.ix, db.inner, rec).Some? && FrameLanded(db, rec, after) then [rec] else []
    case _ => []
  }

  // ---- what the caller must respect, and what can go wrong all the same ----

  /** A record within the parser's cap is logged behind intact frames. */
  predicate Appendable<I>(db: Db<I>, rec: Record)
    requires db.fs.wal.Some?
  {
    Loggable(rec) ==> Clean(db.fs.wal.value.data) && Short(rec)
  }

  /** The call is one the code recovers from: checkable before it is made. */
  predicate Tame<I>(env: Env<I>, db: Db<I>, ev: Event)
    requires db.fs.wal.Some?
  {
    match ev
    case Mutate(rec, _) => Appendable(db, rec)
    case Crash(Mutating(rec, _), _, _) => Appendable(db, rec)
    case Checkpoint => Reloadable(env, db.inner)
    case Crash(Checkpointing, _, _) => Reloadable(env, db.inner)
    case Crash(Idle, _, _) => true
  }

  /**
    The crash hit one of the two places where it does harm: it left the whole frame of a mutation
    the index rejects, or it came between the new snapshot and the emptied log, and the log
    does not repeat.
   */
  ghost predicate Unlucky<I>(env: Env<I>, db: Db<I>, ev: Event)
    requires db.fs.wal.Some?
  {
    match ev
    case Crash(Mutating(rec, _), _, after) =>
      Loggable(rec) && Apply(env.ix, db.inner, rec).None? && FrameLanded(db, rec, after)
    case Crash(Checkpointing, _, after) =>
      && Encoded(env, db.inner).Success?
      && Content(after.target) == Some(Encoded(env, db.inner).value)
      && Content(after.wal) == Content(db.fs.wal)
      && !LogRepeats(env, db)
    case _ => false
  }

  ghost predicate Safe<I>(env: Env<I>, db: Db<I>, ev: Event)
    requires db.fs.wal.Some?
  {
    Tame(env, db, ev) && !Unlucky(env, db, ev)
  }

  // ---- one event ----

  /** No safe event breaks the invariant; in particular every load after a crash succeeds. */
  lemma StepKeeps<I(!new)>(env: Env<I>, start: I, s: State<I>, ev: Event)
    requires Trusted(env) && Inv(env, start, s) && Possible(env, s.db, ev) && Safe(env, s.db, ev)
    ensures Step(env, s.db, ev).Success?
    ensures Inv(env, start, State(Step(env, s.db, ev).value, s.ops + Contributes(env, s.db, ev)))
  {
    hide Clean, Fits, Short, Loggable, MutateDb, MutateStates, CheckpointDb, CheckpointStates, LoadIndex,
      LoadDb, Sound, Reloadable, Encoded, Replay, Durable;
    assert s.ops + [] == s.ops;
    match ev {
      case Mutate(rec, due) =>
        if Loggable(rec) {
          ShortFits(rec);
          MutateKeeps(env, start, s, rec, due);
        }
      case Checkpoint =>
        if Encoded(env, s.db.inner).Success? {
          CheckpointKeeps(env, start, s);
        }
      case Crash(call, at, after) =>
        CrashKeeps(env, start, s, ev);
    }
  }

  /**
    After a crash in or between tame calls, loading gives exactly what has to be recovered,
    unless the crash was an unlucky one, in which case it does not.
   */
  lemma CrashOutcome<I(!new)>(env: Env<I>, start: I, s: State<I>, ev: Event)
    requires env.policy != Never && Sound(env) && Inv(env, start, s)
    requires ev.Crash? && Possible(env, s.db, ev) && Tame(env, s.db, ev)
    ensures Settled(ev.after)
    ensures LoadIndex(env, ev.after) == Replay(env.ix, start, s.ops + Contributes(env, s.db, ev))
       <==> !Unlucky(env, s.db, ev)
    ensures Replay(env.ix, start, s.ops + Contributes(env, s.db, ev)).Success?
  {
    hide Clean, Fits, Short, Loggable, MutateStates, CheckpointStates, LoadIndex, LoadDb, Reloadable, Encoded,
      Sound, Replay, FrameLanded, ReplayLog;
    assert s.ops + [] == s.ops;
    var Crash(call, at, after) := ev;
    match call {
      case Idle =>
        CrashBetweenCalls(env, start, s, after);
      case Mutating(rec, due) =>
        if at == 0 {
          CrashBetweenCalls(env, start, s, after);
          NotLanded(s.db, rec, after);
        } else {
          ShortFits(rec);
          CrashInMutation(env, start, s, rec, due, at - 1, after);
        }
        if Apply(env.ix, s.db.inner, rec).Some? {
          LiveReplay(env, start, s, rec);
        }
      case Checkpointing =>
        if at == 0 {
          CrashBetweenCalls(env, start, s, after);
          if Unlucky(env, s.db, ev) {
            CrashBeforeReplacing(env, s.db, after);
          }
        } else {
          CrashInCheckpoint(env, start, s, at - 1, after);
        }
    }
  }

  lemma CrashBeforeReplacing<I(!new)>(env: Env<I>, db: Db<I>, after: Fs)
    requires Sound(env) && LoadIndex(env, after) == Success(db.inner) && Reloadable(env, db.inner)
    requires Encoded(env, db.inner).Success? && Content(after.target) == Some(Encoded(env, db.inner).value)
    requires Content(after.wal) == Content(db.fs.wal)
    ensures LogRepeats(env, db)
  {
    hide LoadIndex, Encoded, Reloadable, Sound, ReplayLog;
    LoadOverSaved(env, db.inner, after);
  }

  lemma CrashKeeps<I(!new)>(env: Env<I>, start: I, s: State<I>, ev: Event)
    requires Trusted(env) && Inv(env, start, s) && ev.Crash? && Possible(env, s.db, ev) && Safe(env, s.db, ev)
    ensures LoadDb(env, ev.after).Success?
    ensures Inv(env, start, State(LoadDb(env, ev.after).value, s.ops + Contributes(env, s.db, ev)))
  {
    hide Tame, Unlucky, Contributes, LoadIndex, LoadDb, Sound, Replay, CallStates;
    CrashOutcome(env, start, s, ev);
    LoadedAfterCrash(env, CallStates(env, s.db, ev.call)[ev.at], ev.after);
  }

  // ---- safe runs ----

  /** Each event of the run is possible and safe in the state it meets. */
  ghost predicate SafeRun<I>(env: Env<I>, db: Db<I>, run: seq<Event>)
    decreases run
  {
    run == [] ||
    (&& db.fs.wal.Some?
     && Possible(env, db, run[0]) && Safe(env, db, run[0])
     && (Step(env, db, run[0]).Success? ==> SafeRun(env, Step(env, db, run[0]).value, run[1..])))
  }

  /** The run, event by event, collecting the mutations to be recovered. */
  function Run<I>(env: Env<I>, s: State<I>, run: seq<Event>): Result<State<I>>
    decreases run
  {
    if run == [] then Success(s)
    else if s.db.fs.wal.None? then Failure(Io)
    else
      var next :- Step(env, s.db, run[0]);
      Run(env, State(next, s.ops + Contributes(env, s.db, run[0])), run[1..])
  }

  lemma {:induction false} RunKeeps<I(!new)>(env: Env<I>, start: I, s: State<I>, run: seq<Event>)
    requires Trusted(env) && Inv(env, start, s) && SafeRun(env, s.db, run)
    ensures Run(env, s, run).Success? && Inv(env, start, Run(env, s, run).value)
    decreases run
  {
    hide Step, Contributes, Possible, Safe, LoadIndex, Trusted, Replay;
    if run != [] {
      StepKeeps(env, start, s, run[0]);
      RunKeeps(env, start, State(Step(env, s.db, run[0]).value, s.ops + Contributes(env, s.db, run[0])), run[1..]);
    }
  }

  /**
    The run ended well, and should the machine now stop, what a load gives is the index in memory,
    which is the mutations to be recovered applied to `start`.
   */
  ghost predicate Recovered<I>(env: Env<I>, start: I, end: Result<State<I>>, after: Fs) {
    && end.Success?
    && (CrashesTo(end.value.db.fs, after) ==>
          LoadIndex(env, after) == Success(end.value.db.inner) == Replay(env.ix, start, end.value.ops))
  }

  /** Recovery after any safe run, from a freshly opened handle. */
  lemma SafeRunRecovery<I(!new)>(env: Env<I>, fs: Fs, start: I, run: seq<Event>, after: Fs)
    requires Trusted(env) && Saveable(env, start)
    requires SafeRun(env, OpenedDb(env, fs, Encoded(env, start).value, start), run)
    ensures Recovered(env, start, Run(env, Opened(env, fs, start), run), after)
  {
    hide Sound, Encoded, Reloadable, OpenedDb, SafeRun, Run, LoadIndex, Replay;
    var s := Opened(env, fs, start);
    OpenEstablishes(env, fs, start);
    RunKeeps(env, start, s, run);
    var end := Run(env, s, run).value;
    if CrashesTo(end.db.fs, after) {
      CrashBetweenCalls(env, start, end, after);
    }
  }

  // ---- runs of a disciplined caller ----

  /**
    The discipline, read off the calls alone: bodies stay within the parser's cap, and after a
    crash inside a call nothing is logged before a checkpoint has returned. `clean` says
    whether that is so at the start.
   */
  predicate Disciplined(run: seq<Event>, clean: bool)
    decreases run
  {
    run == [] || (Orderly(run[0], clean) && Disciplined(run[1..], CleanAfter(run[0], clean)))
  }

  predicate Orderly(ev: Event, clean: bool) {
    match ev
    case Mutate(rec, _) => Loggable(rec) ==> clean && Short(rec)
    case Crash(Mutating(rec, _), _, _) => Loggable(rec) ==> clean && Short(rec)
    case _ => true
  }

  predicate CleanAfter(ev: Event, clean: bool) {
    match ev
    case Mutate(_, _) => clean
    case Checkpoint => true
    case Crash(call, _, _) => clean && call.Idle?
  }

  /** What may happen in a run: crashes leave what they can, and checkpoints are taken of states that can be saved. */
  ghost predicate Happens<I>(env: Env<I>, db: Db<I>, run: seq<Event>)
    decreases run
  {
    run == [] ||
    (&& db.fs.wal.Some?
     && Possible(env, db, run[0])
     && (Saves(run[0]) ==> Saveable(env, db.inner))
     && (Step(env, db, run[0]).Success? ==> Happens(env, Step(env, db, run[0]).value, run[1..])))
  }

  /** None of the crashes is an unlucky one. */
  ghost predicate Spared<I>(env: Env<I>, db: Db<I>, run: seq<Event>)
    decreases run
  {
    run == [] ||
    (&& db.fs.wal.Some?
     && !Unlucky(env, db, run[0])
     && (Step(env, db, run[0]).Success? ==> Spared(env, Step(env, db, run[0]).value, run[1..])))
  }

  /** Each load in the run gives exactly what has to be recovered. */
  ghost predicate EveryLoadRecovers<I>(env: Env<I>, start: I, s: State<I>, run: seq<Event>)
    decreases run
  {
    run == [] ||
    (&& s.db.fs.wal.Some?
     && var ev, ops := run[0], s.ops + Contributes(env, s.db, run[0]);
        && (ev.Crash? ==> LoadIndex(env, ev.after) == Replay(env.ix, start, ops))
        && (Step(env, s.db, ev).Success? ==>
              EveryLoadRecovers(env, start, State(Step(env, s.db, ev).value, ops), run[1..])))
  }

  predicate Saves(ev: Event) {
    ev.Checkpoint? || (ev.Crash? && ev.call.Checkpointing?)
  }

  /** The log is clean wherever the discipline says so. */
  lemma EventKeepsClean<I(!new)>(env: Env<I>, start: I, s: State<I>, ev: Event, clean: bool)
    requires Trusted(env) && Inv(env, start, s) && Possible(env, s.db, ev) && !Unlucky(env, s.db, ev)
    requires clean ==> Clean(s.db.fs.wal.value.data)
    requires Orderly(ev, clean) && (Saves(ev) ==> Saveable(env, s.db.inner))
    ensures Safe(env, s.db, ev) && Step(env, s.db, ev).Success? && Step(env, s.db, ev).value.fs.wal.Some?
    ensures CleanAfter(ev, clean) ==> Clean(Step(env, s.db, ev).value.fs.wal.value.data)
  {
    hide Clean, Fits, Short, Loggable, MutateDb, CheckpointDb, CheckpointStates, MutateStates, LoadIndex,
      LoadDb, Sound, Unlucky, Replay, Encoded, Reloadable, Contributes;
    StepKeeps(env, start, s, ev);
    match ev {
      case Mutate(rec, due) =>
        if clean && Loggable(rec) {
          ShortFits(rec);
          MutateKeepsClean(env, s.db, rec, due);
        }
      case Checkpoint =>
        CheckpointKeeps(env, start, s);
      case Crash(call, at, after) =>
        if call.Idle? {
          SettledCrash(s.db.fs, after);
          LoadedAfterCrash(env, s.db.fs, after);
        }
    }
  }

  /** Every run of a disciplined caller that is spared is safe. */
  lemma {:induction false} DisciplinedIsSafe<I(!new)>(env: Env<I>, start: I, s: State<I>, run: seq<Event>, clean: bool)
    requires Trusted(env) && Inv(env, start, s) && (clean ==> Clean(s.db.fs.wal.value.data))
    requires Disciplined(run, clean) && Happens(env, s.db, run) && Spared(env, s.db, run)
    ensures SafeRun(env, s.db, run)
    decreases run
  {
    hide Clean, Orderly, CleanAfter, Step, Possible, Unlucky, Saveable, Sound, LoadIndex, Replay, Contributes,
      Safe;
    if run != [] {
      var ev := run[0];
      EventKeepsClean(env, start, s, ev, clean);
      StepKeeps(env, start, s, ev);
      var next := State(Step(env, s.db, ev).value, s.ops + Contributes(env, s.db, ev));
      DisciplinedIsSafe(env, start, next, run[1..], CleanAfter(ev, clean));
    }
  }

  lemma {:induction false} SparedExactly<I(!new)>(env: Env<I>, start: I, s: State<I>, run: seq<Event>, clean: bool)
    requires Trusted(env) && Inv(env, start, s) && (clean ==> Clean(s.db.fs.wal.value.data))
    requires Disciplined(run, clean) && Happens(env, s.db, run)
    ensures Spared(env, s.db, run) <==> EveryLoadRecovers(env, start, s, run)
    decreases run
  {
    hide Clean, CleanAfter, Step, Possible, Sound, LoadIndex, Replay, Contributes, Reloadable, Encoded,
      Loggable, Short, FrameLanded, LogRepeats;
    if run != [] {
      var ev := run[0];
      if ev.Crash? {
        CrashOutcome(env, start, s, ev);
      }
      if !Unlucky(env, s.db, ev) {
        EventKeepsClean(env, start, s, ev, clean);
        StepKeeps(env, start, s, ev);
        var next := State(Step(env, s.db, ev).value, s.ops + Contributes(env, s.db, ev));
        SparedExactly(env, start, next, run[1..], CleanAfter(ev, clean));
      }
    }
  }

  // ---- the discipline in sizes ----

  /** The records that the events of a run log, or try to. */
  function Logs(ev: Event): Option<Record> {
    match ev
    case Mutate(rec, _) => Some(rec)
    case Crash(Mutating(rec, _), _, _) => Some(rec)
    case _ => None
  }

  /** Nothing below 4 GiB, the most a frame can hold, is logged between a crash inside a call and a checkpoint. */
  predicate Settles(run: seq<Event>, clean: bool)
    decreases run
  {
    run == [] ||
    (&& (Logs(run[0]).Some? && RecordSize(Logs(run[0]).value) < 0x1_0000_0000 ==> clean)
     && Settles(run[1..], CleanAfter(run[0], clean)))
  }

  /** No record has a size above 256 MiB, unless it is too large for any frame. */
  predicate SmallRecords(run: seq<Event>) {
    forall k :: 0 <= k < |run| && Logs(run[k]).Some? ==>
      var size := RecordSize(Logs(run[k]).value); size <= 0x1000_0000 || size >= 0x1_0000_0000
  }

  /** The discipline is about order, and about sizes. */
  lemma {:induction false} DisciplineInSizes(run: seq<Event>, clean: bool)
    ensures Disciplined(run, clean) <==> Settles(run, clean) && SmallRecords(run)
    decreases run
  {
    hide CleanAfter, RecordSize, Loggable, Short;
    if run != [] {
      DisciplineInSizes(run[1..], CleanAfter(run[0], clean));
      if Logs(run[0]).Some? {
        SizesInNumbers(Logs(run[0]).value);
      }
      assert forall k :: 0 <= k < |run[1..]| ==> run[1..][k] == run[k + 1];
      assert forall k :: 1 <= k < |run| ==> run[k] == run[1..][k - 1];
    }
  }

  /**
    The recovery contract. Open an index over any files, and let a disciplined caller make any
    finite run of mutations and checkpoints, with crashes anywhere in or between them. Every load
    of the run gives exactly the mutations that were acknowledged, and those in flight whose whole
    frame had been logged, applied to `start`, if and only if no crash was an unlucky one. So does
    then a load after the run, be it stopped cleanly or by one more crash.
   */
  lemma WholeRunRecovery<I(!new)>(env: Env<I>, fs: Fs, start: I, run: seq<Event>, after: Fs)
    requires Trusted(env) && Saveable(env, start)
    requires Disciplined(run, true) && Happens(env, Opened(env, fs, start).db, run)
    ensures EveryLoadRecovers(env, start, Opened(env, fs, start), run)
       <==> Spared(env, Opened(env, fs, start).db, run)
    ensures Spared(env, Opened(env, fs, start).db, run) ==>
      Recovered(env, start, Run(env, Opened(env, fs, start), run), after)
  {
    hide Sound, Encoded, Reloadable, OpenedDb, SafeRun, Run, LoadIndex, Replay, Clean, Disciplined, Happens,
      Recovered, Spared, EveryLoadRecovers;
    var s := Opened(env, fs, start);
    OpenEstablishes(env, fs, start);
    SparedExactly(env, start, s, run, true);
    if Spared(env, s.db, run) {
      DisciplinedIsSafe(env, start, s, run, true);
      SafeRunRecovery(env, fs, start, run, after);
    }
  }

  // ---- when nothing is left to chance ----

  /** The index never rejects a mutation that the run crashes in. */
  ghost predicate NoneRejected<I(!new)>(ix: IndexOps<I>, run: seq<Event>) {
    forall k, i {:trigger Apply(ix, i, run[k].call.rec)} ::
      0 <= k < |run| && run[k].Crash? && run[k].call.Mutating? ==> Apply(ix, i, run[k].call.rec).Some?
  }

  /** With an idempotent index that rejects none of the mutations crashed in, no crash can be an unlucky one. */
  lemma {:induction false} IdempotentIsSpared<I(!new)>(env: Env<I>, start: I, s: State<I>, run: seq<Event>, clean: bool)
    requires Trusted(env) && Inv(env, start, s) && (clean ==> Clean(s.db.fs.wal.value.data))
    requires Disciplined(run, clean) && Happens(env, s.db, run)
    requires Idempotent(env.ix) && NoneRejected(env.ix, run)
    ensures Spared(env, s.db, run)
    decreases run
  {
    hide Clean, Orderly, CleanAfter, Step, Possible, Saveable, Sound, LoadIndex, Replay, Contributes, Safe,
      LogRepeats, Idempotent, Encoded;
    if run != [] {
      var ev := run[0];
      IdempotentRepeats(env, start, s);
      assert !Unlucky(env, s.db, ev);
      EventKeepsClean(env, start, s, ev, clean);
      StepKeeps(env, start, s, ev);
      var next := State(Step(env, s.db, ev).value, s.ops + Contributes(env, s.db, ev));
      assert forall k :: 0 <= k < |run[1..]| ==> run[1..][k] == run[k + 1];
      IdempotentIsSpared(env, start, next, run[1..], CleanAfter(ev, clean));
    }
  }

  predicate CrashFree(run: seq<Event>) {
    forall k :: 0 <= k < |run| ==> !run[k].Crash?
  }

  /** Without crashes nothing is left to chance, as long as every state can be saved. */
  lemma {:induction false} CrashFreeHappens<I(!new)>(env: Env<I>, start: I, s: State<I>, run: seq<Event>, clean: bool)
    requires Trusted(env) && Inv(env, start, s) && (clean ==> Clean(s.db.fs.wal.value.data))
    requires Disciplined(run, clean) && CrashFree(run)
    requires forall i :: Saveable(env, i)
    ensures Happens(env, s.db, run) && Spared(env, s.db, run)
    decreases run
  {
    hide Clean, Orderly, CleanAfter, Step, Sound, LoadIndex, Replay, Contributes, Safe, Saveable;
    if run != [] {
      var ev := run[0];
      assert Saveable(env, s.db.inner);
      EventKeepsClean(env, start, s, ev, clean);
      StepKeeps(env, start, s, ev);
      var next := State(Step(env, s.db, ev).value, s.ops + Contributes(env, s.db, ev));
      assert forall k :: 0 <= k < |run[1..]| ==> run[1..][k] == run[k + 1];
      CrashFreeHappens(env, start, next, run[1..], CleanAfter(ev, clean));
    }
  }

  /** Nor when the one crash of a run, at its start, is not an unlucky one. */
  lemma OneCrashHappens<I(!new)>(env: Env<I>, start: I, s: State<I>, run: seq<Event>, clean: bool)
    requires Trusted(env) && Inv(env, start, s) && (clean ==> Clean(s.db.fs.wal.value.data))
    requires Disciplined(run, clean) && run != [] && CrashFree(run[1..])
    requires Possible(env, s.db, run[0]) && !Unlucky(env, s.db, run[0])
    requires forall i :: Saveable(env, i)
    ensures Happens(env, s.db, run) && Spared(env, s.db, run)
  {
    hide Clean, Orderly, CleanAfter, Step, Possible, Unlucky, Sound, LoadIndex, Replay, Contributes, Safe,
      Encoded, Reloadable;
    var ev := run[0];
    assert Saveable(env, s.db.inner);
    EventKeepsClean(env, start, s, ev, clean);
    StepKeeps(env, start, s, ev);
    var next := State(Step(env, s.db, ev).value, s.ops + Contributes(env, s.db, ev));
    CrashFreeHappens(env, start, next, run[1..], CleanAfter(ev, clean));
  }
}
