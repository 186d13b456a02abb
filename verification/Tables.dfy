/**
  Two concrete indexes over a table of rows, and what a second replay of the log does to each:
  one where the last write wins, and one that rejects duplicate ids and absent ids.
 */
module Tables {
  import opened Wrappers
  import opened Bytes
  import opened Records
  import opened WalLog
  import opened WalTheorems
  import opened FileSystem
  import opened Storage
  import opened WalFile
  import opened Index
  import opened Protocol
  import opened Crashes
  import opened Runs
  import opened Shortfalls
  import Snapshot

  datatype Row = Row(vector: seq<u32>, meta: Option<Metadata>)

  type Table = map<VectorId, Row>

  /** An insert overwrites, and a delete of an absent id does nothing. */
  function LastWriterWins(base: IndexOps<Table>): IndexOps<Table> {
    base.(
    insert := (t: Table, id: VectorId, v: seq<u32>, m: Option<Metadata>) =>
      if |v| == base.dim(t) then Some(t[id := Row(v, m)]) else None,
    delete := (t: Table, id: VectorId) => Some(t - {id}))
  }

  /** An insert of an id that is present is rejected, and so is a delete of one that is not. */
  function Strict(base: IndexOps<Table>): IndexOps<Table> {
    base.(
    insert := (t: Table, id: VectorId, v: seq<u32>, m: Option<Metadata>) =>
      if |v| == base.dim(t) && id !in t then Some(t[id := Row(v, m)]) else None,
    delete := (t: Table, id: VectorId) => if id in t then Some(t - {id}) else None)
  }

  ghost predicate ConstantDim(base: IndexOps<Table>) {
    forall s, t {:trigger base.dim(s), base.dim(t)} :: base.dim(s) == base.dim(t)
  }

  // ---- the effect of a log, independent of where it starts ----

  /** What a log does to each id it mentions: the last row written, or removal. */
  type Effect = map<VectorId, Option<Row>>

  function EffectOne(r: Record): Effect {
    match r
    case Insert(id, v, m) => map[id := Some(Row(v, m))]
    case Delete(id) => map[id := None]
  }

  function EffectOf(recs: seq<Record>): Effect {
    if recs == [] then map[] else EffectOne(recs[0]) + EffectOf(recs[1..])
  }

  /** `t` with the effect `e` carried out. */
  function Overlay(t: Table, e: Effect): Table {
    map id | id in t.Keys + e.Keys && (id in e ==> e[id].Some?) :: if id in e then e[id].value else t[id]
  }

  lemma OverlayTwice(t: Table, d: Effect, e: Effect)
    ensures Overlay(Overlay(t, d), e) == Overlay(t, d + e)
    ensures Overlay(Overlay(t, e), e) == Overlay(t, e)
  {
  }

  /** `ix` is one of the two tables. */
  ghost predicate TableOps(ix: IndexOps<Table>, base: IndexOps<Table>) {
    ix == LastWriterWins(base) || ix == Strict(base)
  }

  lemma OneIsOverlay(ix: IndexOps<Table>, base: IndexOps<Table>, t: Table, r: Record)
    requires TableOps(ix, base) && ReplayOne(ix, t, r).Success?
    ensures ReplayOne(ix, t, r).value == Overlay(t, EffectOne(r))
  {
  }

  /** A replay that succeeds leaves the starting table with the log's effect. */
  lemma {:induction false} ReplayIsOverlay(ix: IndexOps<Table>, base: IndexOps<Table>, t: Table, recs: seq<Record>)
    requires TableOps(ix, base) && Replay(ix, t, recs).Success?
    ensures Replay(ix, t, recs).value == Overlay(t, EffectOf(recs))
    decreases recs
  {
    hide ReplayOne, EffectOne, TableOps;
    if recs != [] {
      var u := ReplayOne(ix, t, recs[0]).value;
      OneIsOverlay(ix, base, t, recs[0]);
      ReplayIsOverlay(ix, base, u, recs[1..]);
      OverlayTwice(t, EffectOne(recs[0]), EffectOf(recs[1..]));
    }
  }

  // ---- last writer wins ----

  lemma LastWriterOne(base: IndexOps<Table>, s: Table, t: Table, r: Record)
    requires ConstantDim(base) && ReplayOne(LastWriterWins(base), s, r).Success?
    ensures ReplayOne(LastWriterWins(base), t, r).Success?
  {
  }

  lemma {:induction false} LastWriterReplays(base: IndexOps<Table>, s: Table, t: Table, recs: seq<Record>)
    requires ConstantDim(base) && Replay(LastWriterWins(base), s, recs).Success?
    ensures Replay(LastWriterWins(base), t, recs).Success?
    decreases recs
  {
    hide ReplayOne, LastWriterWins, ConstantDim;
    if recs != [] {
      var ix := LastWriterWins(base);
      LastWriterOne(base, s, t, recs[0]);
      LastWriterReplays(base, ReplayOne(ix, s, recs[0]).value, ReplayOne(ix, t, recs[0]).value, recs[1..]);
    }
  }

  /** Replaying a log a second time changes nothing when the last write wins. */
  lemma LastWriterIdempotent(base: IndexOps<Table>)
    requires ConstantDim(base)
    ensures Idempotent(LastWriterWins(base))
  {
    hide ConstantDim, Replay, Overlay, EffectOf, LastWriterWins;
    var ix := LastWriterWins(base);
    forall t, recs {:trigger Replay(ix, t, recs)} | Replay(ix, t, recs).Success?
      ensures Replay(ix, Replay(ix, t, recs).value, recs) == Replay(ix, t, recs)
    {
      var u := Replay(ix, t, recs).value;
      LastWriterReplays(base, t, u, recs);
      ReplayIsOverlay(ix, base, t, recs);
      ReplayIsOverlay(ix, base, u, recs);
      OverlayTwice(t, EffectOf(recs), EffectOf(recs));
    }
  }

  // ---- rejecting duplicates and absences ----

  /** Success depends only on which ids are present. */
  lemma StrictOneByKeys(base: IndexOps<Table>, s: Table, t: Table, r: Record)
    requires ConstantDim(base) && s.Keys == t.Keys && ReplayOne(Strict(base), s, r).Success?
    ensures ReplayOne(Strict(base), t, r).Success?
    ensures ReplayOne(Strict(base), s, r).value.Keys == ReplayOne(Strict(base), t, r).value.Keys
  {
  }

  lemma {:induction false} StrictByKeys(base: IndexOps<Table>, s: Table, t: Table, recs: seq<Record>)
    requires ConstantDim(base) && s.Keys == t.Keys && Replay(Strict(base), s, recs).Success?
    ensures Replay(Strict(base), t, recs).Success?
    decreases recs
  {
    hide ReplayOne, Strict, ConstantDim;
    if recs != [] {
      var ix := Strict(base);
      StrictOneByKeys(base, s, t, recs[0]);
      StrictByKeys(base, ReplayOne(ix, s, recs[0]).value, ReplayOne(ix, t, recs[0]).value, recs[1..]);
    }
  }

  /** A step that succeeds from two tables finds its id in both or in neither, and treats it alike. */
  lemma StrictOnePresence(base: IndexOps<Table>, s: Table, t: Table, r: Record, id: VectorId)
    requires ReplayOne(Strict(base), s, r).Success? && ReplayOne(Strict(base), t, r).Success?
    ensures id == r.id ==> (id in s <==> id in t)
    ensures id != r.id ==>
      && (id in ReplayOne(Strict(base), s, r).value <==> id in s)
      && (id in ReplayOne(Strict(base), t, r).value <==> id in t)
  {
  }

  lemma {:induction false} StrictPresence(base: IndexOps<Table>, s: Table, t: Table, recs: seq<Record>, id: VectorId)
    requires Replay(Strict(base), s, recs).Success? && Replay(Strict(base), t, recs).Success?
    requires id in EffectOf(recs)
    ensures id in s <==> id in t
    decreases recs
  {
    hide ReplayOne, Strict;
    if recs != [] {
      var ix := Strict(base);
      StrictOnePresence(base, s, t, recs[0], id);
      if id != recs[0].id {
        StrictPresence(base, ReplayOne(ix, s, recs[0]).value, ReplayOne(ix, t, recs[0]).value, recs[1..], id);
      }
    }
  }

  /**
    With duplicates and absences rejected, a log replays over the state it produced, without
    changing it, exactly when it left the set of ids as it found it.
   */
  lemma StrictRepeats(base: IndexOps<Table>, t: Table, recs: seq<Record>)
    requires ConstantDim(base) && Replay(Strict(base), t, recs).Success?
    ensures var u := Replay(Strict(base), t, recs).value;
            && (Replay(Strict(base), u, recs) == Success(u) <==> u.Keys == t.Keys)
            && (Replay(Strict(base), u, recs).Success? <==> u.Keys == t.Keys)
  {
    hide ConstantDim, Replay, EffectOf, Strict;
    var ix := Strict(base);
    var u, e := Replay(ix, t, recs).value, EffectOf(recs);
    ReplayIsOverlay(ix, base, t, recs);
    if u.Keys == t.Keys {
      StrictByKeys(base, t, u, recs);
    }
    if Replay(ix, u, recs).Success? {
      ReplayIsOverlay(ix, base, u, recs);
      OverlayTwice(t, e, e);
      forall id
        ensures id in u <==> id in t
      {
        if id in e {
          StrictPresence(base, t, u, recs, id);
        }
      }
    }
  }

  /** For instance, replaying one accepted insert over the table that has it is an error. */
  lemma StrictInsertDoesNotRepeat(base: IndexOps<Table>, t: Table, id: VectorId, v: seq<u32>, m: Option<Metadata>)
    requires ConstantDim(base) && Apply(Strict(base), t, Insert(id, v, m)).Some?
    ensures var u := Apply(Strict(base), t, Insert(id, v, m)).value;
            Replay(Strict(base), u, [Insert(id, v, m)]) == Failure(IndexBuild)
  {
    var u := Apply(Strict(base), t, Insert(id, v, m)).value;
    assert id in u && |v| == base.dim(t) == base.dim(u);
    assert ReplayOne(Strict(base), u, Insert(id, v, m)) == Failure(IndexBuild);
  }

  // ---- what that means for a checkpoint ----

  /** With the last write winning, any crash inside a checkpoint recovers the same index. */
  lemma LastWriterCheckpointAtomic(base: IndexOps<Table>, env: Env<Table>, start: Table, s: State<Table>,
                                   at: nat, after: Fs)
    requires env.ix == LastWriterWins(base) && ConstantDim(base)
    requires env.policy != Never && Sound(env) && Inv(env, start, s) && Saveable(env, s.db.inner)
    requires at < |CheckpointStates(env, s.db, Encoded(env, s.db.inner).value)|
    requires CrashesTo(CheckpointStates(env, s.db, Encoded(env, s.db.inner).value)[at], after)
    ensures LoadIndex(env, after) == Success(s.db.inner)
  {
    hide Inv, Sound, Encoded, Reloadable, CheckpointStates, LoadIndex, ReplayLog, LastWriterWins, Idempotent,
      ConstantDim;
    LastWriterIdempotent(base);
    IdempotentRepeats(env, start, s);
    CrashInCheckpoint(env, start, s, at, after);
  }

  /** The inserts that a run crashes in have vectors of the table's dimension. */
  ghost predicate RightDim(base: IndexOps<Table>, run: seq<Event>) {
    forall k, t {:trigger run[k].call.rec, base.dim(t)} ::
      0 <= k < |run| && run[k].Crash? && run[k].call.Mutating? && run[k].call.rec.Insert? ==>
        |run[k].call.rec.vector| == base.dim(t)
  }

  /**
    So with the last write winning no crash does harm: every run of a disciplined caller is
    recovered, wherever the machine stops.
   */
  lemma LastWriterRecovery(base: IndexOps<Table>, env: Env<Table>, fs: Fs, start: Table, run: seq<Event>, after: Fs)
    requires env.ix == LastWriterWins(base) && ConstantDim(base) && RightDim(base, run)
    requires Trusted(env) && Saveable(env, start)
    requires Disciplined(run, true) && Happens(env, Opened(env, fs, start).db, run)
    ensures EveryLoadRecovers(env, start, Opened(env, fs, start), run)
    ensures Recovered(env, start, Run(env, Opened(env, fs, start), run), after)
  {
    hide Inv, Sound, Encoded, Reloadable, Disciplined, Happens, Spared, EveryLoadRecovers, Recovered, Run,
      OpenedDb, LastWriterWins, Idempotent, ConstantDim, NoneRejected, RightDim, Clean;
    LastWriterIdempotent(base);
    LastWriterAccepts(base, run);
    OpenEstablishes(env, fs, start);
    IdempotentIsSpared(env, start, Opened(env, fs, start), run, true);
    WholeRunRecovery(env, fs, start, run, after);
  }

  lemma LastWriterAccepts(base: IndexOps<Table>, run: seq<Event>)
    requires RightDim(base, run)
    ensures NoneRejected(LastWriterWins(base), run)
  {
  }

  /**
    With duplicates and absences rejected, a crash between the new snapshot and the emptied log
    recovers the same index exactly when the ids present now are those of the previous snapshot.
    Otherwise the load fails.
   */
  lemma StrictCheckpointWindow(base: IndexOps<Table>, env: Env<Table>, start: Table, s: State<Table>, after: Fs)
    requires env.ix == Strict(base) && ConstantDim(base)
    requires Sound(env) && Inv(env, start, s) && Saveable(env, s.db.inner)
    requires Content(after.target) == Some(Encoded(env, s.db.inner).value)
    requires Content(after.wal) == Content(s.db.fs.wal)
    ensures LoadIndex(env, after) == Success(s.db.inner)
       <==> s.db.inner.Keys == ReadSnapshot(env, s.db.fs).value.Keys
    ensures LoadIndex(env, after).Success? <==> s.db.inner.Keys == ReadSnapshot(env, s.db.fs).value.Keys
  {
    hide Parse, Replay, Strict, Snapshot.DecodeSnapshot, Encoded, ConstantDim, Sound, Reloadable;
    LoadOverSaved(env, s.db.inner, after);
    var recs := Parse(s.db.fs.wal.value.data).value;
    StrictRepeats(base, ReadSnapshot(env, s.db.fs).value, recs);
  }

  /** And whenever they are not, there is a crash inside the checkpoint after which the index cannot be loaded. */
  lemma StrictCheckpointBreaks(base: IndexOps<Table>, env: Env<Table>, start: Table, s: State<Table>)
      returns (at: nat, after: Fs)
    requires env.ix == Strict(base) && ConstantDim(base) && env.policy != Never
    requires Sound(env) && Inv(env, start, s) && Saveable(env, s.db.inner)
    requires s.db.inner.Keys != ReadSnapshot(env, s.db.fs).value.Keys
    ensures at < |CheckpointStates(env, s.db, Encoded(env, s.db.inner).value)|
    ensures CrashesTo(CheckpointStates(env, s.db, Encoded(env, s.db.inner).value)[at], after)
    ensures LoadIndex(env, after).Failure?
  {
    hide CheckpointStates, LoadIndex, ReadSnapshot, Replay, Strict, Encoded, ConstantDim, Sound, Reloadable;
    at, after := WindowArises(env, s.db, Encoded(env, s.db.inner).value, s.db.fs.wal.value.data);
    StrictCheckpointWindow(base, env, start, s, after);
  }

  // ---- what that means for a retry ----

  /**
    An insert that reported an I/O error after its whole frame was written, and is then retried
    with success, makes the next load fail when duplicates are rejected.
   */
  lemma StrictRetryBreaks(base: IndexOps<Table>, env: Env<Table>, db: Db<Table>, rec: Record, fs: Fs, due: bool)
    requires env.ix == Strict(base) && ConstantDim(base) && rec.Insert?
    requires db.fs.wal.Some? && Clean(db.fs.wal.value.data) && LoadIndex(env, db.fs) == Success(db.inner)
    requires Fits(rec) && LogPlus(db.fs, fs, Frame(Body(rec)), |Frame(Body(rec))|)
    requires Apply(env.ix, db.inner, rec).Some?
    ensures var next := MutateDb(env, Db(fs, |fs.wal.value.data|, db.inner), rec, due);
            && next.inner == Apply(env.ix, db.inner, rec).value
            && LoadIndex(env, next.fs) == Failure(IndexBuild)
  {
    hide Fits, Body, Frame, Clean, LoadIndex, LogPlus, Strict, ConstantDim, MutateStates;
    FailedAppendIsReplayed(env, db, rec, fs, rec, due);
    var j := Apply(env.ix, db.inner, rec).value;
    StrictInsertDoesNotRepeat(base, db.inner, rec.id, rec.vector, rec.meta);
    StrictReplaysAccepted(base, db.inner, rec);
    ReplayAppend(env.ix, db.inner, [rec], [rec]);
    assert [rec] + [rec] == [rec, rec];
  }

  lemma StrictReplaysAccepted(base: IndexOps<Table>, t: Table, rec: Record)
    requires Apply(Strict(base), t, rec).Some?
    ensures Replay(Strict(base), t, [rec]) == Success(Apply(Strict(base), t, rec).value)
  {
    hide Strict;
    assert ReplayOne(Strict(base), t, rec) == Success(Apply(Strict(base), t, rec).value) by {
      StrictChecksDim(base, t, rec);
    }
    assert [rec][1..] == [];
    ReplayNothing(Strict(base), Apply(Strict(base), t, rec).value);
  }

  lemma StrictChecksDim(base: IndexOps<Table>, t: Table, rec: Record)
    requires Apply(Strict(base), t, rec).Some?
    ensures rec.Insert? ==> |rec.vector| == Strict(base).dim(t)
  {
  }

  // ---- a checkpoint when appends are not synced ----

  /** Two writes to one id, and one to another. */
  function ThreeWrites(a: VectorId, b: VectorId, v: seq<u32>): seq<Record> {
    [Insert(a, v, None), Insert(a, v, Some([])), Insert(b, v, None)]
  }

  /** A handle opened empty that has made them, none of them synced yet. */
  function AfterThree(env: Env<Table>, files: Fs, a: VectorId, b: VectorId, v: seq<u32>): Db<Table>
    requires Saveable(env, map[])
  {
    var ms := ThreeWrites(a, b, v);
    Mutated(env, Opened(env, files, map[]).db, [(ms[0], false), (ms[1], false), (ms[2], false)])
  }

  /** The table after the three writes. */
  function FinalTable(a: VectorId, b: VectorId, v: seq<u32>): Table {
    map[a := Row(v, Some([])), b := Row(v, None)]
  }

  /**
    Even with the last write winning, the checkpoint window does harm when appends are not synced:
    the device may hold the new snapshot and only the first write of the old log. The load then
    puts the overwritten row back, beside a later row, which no prefix of the history did.
   */
  lemma LastWriterWeakWindow(base: IndexOps<Table>, env: Env<Table>, files: Fs, a: VectorId, b: VectorId, v: seq<u32>)
      returns (at: nat, after: Fs)
    requires env.ix == LastWriterWins(base) && ConstantDim(base) && env.policy == Periodic && Sound(env)
    requires a != b && |v| == base.dim(map[]) && Fits(Insert(a, v, None))
    requires Saveable(env, map[]) && Saveable(env, FinalTable(a, b, v))
    ensures AfterThree(env, files, a, b, v).fs.wal.Some?
    ensures AfterThree(env, files, a, b, v).inner == FinalTable(a, b, v)
    ensures var payload := Encoded(env, FinalTable(a, b, v)).value;
            var states := CheckpointStates(env, AfterThree(env, files, a, b, v), payload);
            at < |states| && CrashesTo(states[at], after)
    ensures LoadIndex(env, after) == Success(map[a := Row(v, None), b := Row(v, None)])
    ensures forall j :: 0 <= j <= 3 ==> LoadIndex(env, after) != Replay(env.ix, map[], ThreeWrites(a, b, v)[..j])
  {
    hide Opened, Encoded, Reloadable, LastWriterWins, ConstantDim, CheckpointStates, LoadIndex, Replay, Sound,
      AfterThree, Fits, LogImage, ReadSnapshot, ReplayLog;
    var c := LogImage(ThreeWrites(a, b, v)[..1]);
    ThreeWritten(base, env, files, a, b, v);
    var db := AfterThree(env, files, a, b, v);
    at, after := WindowArises(env, db, Encoded(env, db.inner).value, c);
    LoadOverSaved(env, db.inner, after);
    FirstWriteAgain(base, env, a, b, v);
    NoPrefixSplits(base, a, b, v);
  }

  lemma LastWriterInserts(base: IndexOps<Table>, t: Table, id: VectorId, v: seq<u32>, m: Option<Metadata>)
    requires ConstantDim(base) && |v| == base.dim(map[])
    ensures Apply(LastWriterWins(base), t, Insert(id, v, m)) == Some(t[id := Row(v, m)])
    ensures ReplayOne(LastWriterWins(base), t, Insert(id, v, m)) == Success(t[id := Row(v, m)])
  {
    assert base.dim(t) == base.dim(map[]);
  }

  lemma ThreeMutated(env: Env<Table>, db: Db<Table>, p: (Record, bool), q: (Record, bool), r: (Record, bool))
    requires db.fs.wal.Some?
    ensures MutateDb(env, db, p.0, p.1).fs.wal.Some?
    ensures var one := MutateDb(env, db, p.0, p.1);
            && MutateDb(env, one, q.0, q.1).fs.wal.Some?
            && Mutated(env, db, [p, q, r]) == MutateDb(env, MutateDb(env, one, q.0, q.1), r.0, r.1)
  {
    hide MutateStates;
    var one := MutateDb(env, db, p.0, p.1);
    var two := MutateDb(env, one, q.0, q.1);
    var three := MutateDb(env, two, r.0, r.1);
    assert [p, q, r][1..] == [q, r] && [q, r][1..] == [r] && [r][1..] == [];
    assert Mutated(env, two, [r]) == Mutated(env, three, []);
    assert Mutated(env, one, [q, r]) == Mutated(env, two, [r]);
  }

  lemma ThreeWritten(base: IndexOps<Table>, env: Env<Table>, files: Fs, a: VectorId, b: VectorId, v: seq<u32>)
    requires env.ix == LastWriterWins(base) && ConstantDim(base) && env.policy == Periodic && Sound(env)
    requires a != b && |v| == base.dim(map[]) && Saveable(env, map[])
    ensures var db := AfterThree(env, files, a, b, v);
            && db.fs.wal.Some? && db.inner == FinalTable(a, b, v)
            && LogImage(ThreeWrites(a, b, v)[..1]) in db.fs.wal.value.images
  {
    hide OpenedDb, Encoded, Reloadable, Sound, ReadSnapshot, MutateDb, LogImage, Body, Frame, Header, Apply,
      Mutated, ConstantDim, LastWriterWins;
    OpenGives(env, files, map[]);
    var db := Opened(env, files, map[]).db;
    var ms := ThreeWrites(a, b, v);
    LastWriterInserts(base, map[], a, v, None);
    AcceptedFiles(env, db, ms[0], false);
    DurableWhenDue(env, db, ms[0], false);
    var one := MutateDb(env, db, ms[0], false);
    LastWriterInserts(base, one.inner, a, v, Some([]));
    AcceptedFiles(env, one, ms[1], false);
    DurableWhenDue(env, one, ms[1], false);
    var two := MutateDb(env, one, ms[1], false);
    LastWriterInserts(base, two.inner, b, v, None);
    AcceptedFiles(env, two, ms[2], false);
    DurableWhenDue(env, two, ms[2], false);
    ThreeMutated(env, db, (ms[0], false), (ms[1], false), (ms[2], false));
    EmptyImage();
    ImageSnoc([], ms[0]);
    assert [] + [ms[0]] == ms[..1];
  }

  lemma FirstWriteAgain(base: IndexOps<Table>, env: Env<Table>, a: VectorId, b: VectorId, v: seq<u32>)
    requires env.ix == LastWriterWins(base) && ConstantDim(base) && |v| == base.dim(map[]) && a != b
    requires Fits(Insert(a, v, None))
    ensures ReplayLog(env, FinalTable(a, b, v), Some(LogImage(ThreeWrites(a, b, v)[..1])))
         == Success(map[a := Row(v, None), b := Row(v, None)])
  {
    hide Fits, LogImage, Parse, LastWriterWins, ConstantDim, ReplayOne;
    var r := Insert(a, v, None);
    assert ThreeWrites(a, b, v)[..1] == [r] && [r][1..] == [];
    FitsReadBack([r]);
    LastWriterInserts(base, FinalTable(a, b, v), a, v, None);
    var t: Table := map[a := Row(v, None), b := Row(v, None)];
    assert FinalTable(a, b, v)[a := Row(v, None)] == t;
    ReplayNothing(env.ix, t);
  }

  lemma NoPrefixSplits(base: IndexOps<Table>, a: VectorId, b: VectorId, v: seq<u32>)
    requires a != b
    ensures forall j :: 0 <= j <= 3 ==>
      Replay(LastWriterWins(base), map[], ThreeWrites(a, b, v)[..j])
      != Success(map[a := Row(v, None), b := Row(v, None)])
  {
    hide Replay, LastWriterWins;
    var ix, ms := LastWriterWins(base), ThreeWrites(a, b, v);
    forall j | 0 <= j <= 3
      ensures Replay(ix, map[], ms[..j]) != Success(map[a := Row(v, None), b := Row(v, None)])
    {
      if Replay(ix, map[], ms[..j]).Success? {
        ReplayIsOverlay(ix, base, map[], ms[..j]);
        PrefixEffects(a, b, v, j);
        var t := Replay(ix, map[], ms[..j]).value;
        assert b in t ==> a in t && t[a] == Row(v, Some([]));
      }
    }
  }

  lemma PrefixEffects(a: VectorId, b: VectorId, v: seq<u32>, j: nat)
    requires a != b && j <= 3
    ensures var e := EffectOf(ThreeWrites(a, b, v)[..j]);
            b in e ==> a in e && e[a] == Some(Row(v, Some([])))
  {
    var ms := ThreeWrites(a, b, v);
    if j == 3 {
      assert ms[..3] == ms;
      assert ms[1..][1..] == [ms[2]];
      assert [ms[2]][1..] == [];
      assert EffectOf([ms[2]]) == EffectOne(ms[2]);
      assert EffectOf(ms[1..]) == EffectOne(ms[1]) + EffectOne(ms[2]);
    } else if j == 2 {
      assert ms[..2][1..] == [ms[1]];
      assert [ms[1]][1..] == [];
      assert EffectOf([ms[1]]) == EffectOne(ms[1]);
    } else if j == 1 {
      assert ms[..1][1..] == [];
    }
  }
}
