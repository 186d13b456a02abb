/** Atomic replacement of the snapshot: temporary file, sync, rename, directory sync. */
module Storage {
  import opened Wrappers
  import opened Bytes
  import opened FileSystem

  datatype FsyncPolicy = Always | Periodic | Never

  /** The states of preparing the temporary file. */
  function StagedTrace(fs: Fs, payload: bytes, policy: FsyncPolicy): (t: seq<Fs>)
    ensures t != [] && Last(t).temp.Some?
  {
    var created := TempCreated(fs);
    var written := TempWritten(created, payload);
    if policy == Never then [created, written] else [created, written, TempSynced(written)]
  }

  /** The states of putting it in place. */
  function SwapTrace(fs: Fs, policy: FsyncPolicy): (t: seq<Fs>)
    requires fs.temp.Some?
    ensures t != []
  {
    if policy == Never then [Renamed(fs)] else [Renamed(fs), DirSynced(Renamed(fs))]
  }

  /** The states a write that meets no failure goes through. */
  function AtomicTrace(fs: Fs, payload: bytes, policy: FsyncPolicy): (t: seq<Fs>)
    ensures t != []
  {
    var staged := StagedTrace(fs, payload, policy);
    staged + SwapTrace(Last(staged), policy)
  }

  function Last<T>(s: seq<T>): T
    requires s != []
  {
    s[|s| - 1]
  }

  /** A crash in `fs` leaves at the target what `fs0` could have left there, or the new payload. */
  ghost predicate OldOrNew(fs0: Fs, payload: bytes, fs: Fs) {
    && TargetImages(fs) <= TargetImages(fs0) + {Some(payload)}
    && fs.wal == fs0.wal
  }

  /** Nothing at the target or in the log has changed. */
  ghost predicate Untouched(fs0: Fs, fs: Fs) {
    fs == fs0.(temp := fs.temp)
  }

  /** The new payload is visible and synced, but a crash can still undo the rename. */
  ghost predicate RenamePending(fs0: Fs, payload: bytes, fs: Fs) {
    fs == Fs(None, Some(Inode(payload, {payload})), TargetImages(fs0), fs0.wal)
  }

  /** What a replacement that fails leaves: the old files, or a rename that a crash can undo. */
  ghost predicate NotReplaced(fs0: Fs, payload: bytes, policy: FsyncPolicy, fs: Fs) {
    Untouched(fs0, fs) || (policy != Never && RenamePending(fs0, payload, fs))
  }

  lemma WrittenPayload(fs: Fs, payload: bytes)
    ensures TempWritten(TempCreated(fs), payload).temp.value.data == payload
    ensures TempSynced(TempWritten(TempCreated(fs), payload)).temp == Some(Inode(payload, {payload}))
  {
    assert [][..0] + payload + [] == payload;
  }

  /** Replacing the target never touches the log. */
  lemma AtomicKeepsLog(fs: Fs, payload: bytes, policy: FsyncPolicy)
    ensures var t := AtomicTrace(fs, payload, policy);
            (forall k :: 0 <= k < |t| ==> t[k].wal == fs.wal) && Last(t).wal == fs.wal
  {
  }

  lemma SyncedImages(payload: bytes)
    ensures Images(Some(Inode(payload, {payload}))) == {Some(payload)}
  {
  }

  /**
    Replaces the target by `payload`. Whatever step fails, and at whatever point the machine
    stops, the target holds all of the old contents or all of the new.
   */
  method WriteAtomic(disk: Disk, payload: bytes, policy: FsyncPolicy) returns (r: Result<()>)
    modifies disk
    ensures r.Success? ==> disk.Through(AtomicTrace(old(disk.fs), payload, policy))
    ensures r.Failure? ==> r.error == Io && NotReplaced(old(disk.fs), payload, policy, disk.fs)
    ensures disk.Honest(r.Failure?)
    ensures r.Failure? ==> disk.CleanedUp()
    ensures old(disk.trace) <= disk.trace
    ensures policy != Never ==>
      forall k :: |old(disk.trace)| <= k < |disk.trace| ==> OldOrNew(old(disk.fs), payload, disk.trace[k])
  {
    var _ :- StageTemp(disk, payload, policy);
    r := SwapIn(disk, old(disk.fs), payload, policy);
  }

  /** Writes and, unless the policy is never, syncs the temporary file; on failure removes it. */
  method StageTemp(disk: Disk, payload: bytes, policy: FsyncPolicy) returns (r: Result<()>)
    modifies disk
    ensures r.Success? ==> disk.Through(StagedTrace(old(disk.fs), payload, policy))
    ensures r.Failure? ==> r.error == Io && Untouched(old(disk.fs), disk.fs)
    ensures disk.Honest(r.Failure?)
    ensures r.Failure? ==> disk.CleanedUp()
    ensures old(disk.trace) <= disk.trace
    ensures forall k :: |old(disk.trace)| <= k < |disk.trace| ==> Untouched(old(disk.fs), disk.trace[k])
  {
    var _ :- disk.CreateTemp();
    var wrote := disk.WriteTemp(payload);
    if wrote.Failure? {
      disk.RemoveTemp();
      return wrote;
    }
    if policy != Never {
      var synced := disk.SyncTemp();
      if synced.Failure? {
        disk.RemoveTemp();
        return synced;
      }
    }
    r := Success(());
  }

  /** Renames the staged file over the target and syncs the directory. */
  method SwapIn(disk: Disk, ghost fs0: Fs, payload: bytes, policy: FsyncPolicy) returns (r: Result<()>)
    requires disk.fs == Last(StagedTrace(fs0, payload, policy))
    modifies disk
    ensures r.Success? ==> disk.Through(SwapTrace(old(disk.fs), policy))
    ensures r.Failure? ==> r.error == Io && NotReplaced(fs0, payload, policy, disk.fs)
    ensures disk.Honest(r.Failure?)
    ensures r.Failure? ==> disk.fs.temp.None? || disk.leftovers > old(disk.leftovers)
    ensures old(disk.trace) <= disk.trace
    ensures policy != Never ==>
      forall k :: |old(disk.trace)| <= k < |disk.trace| ==> OldOrNew(fs0, payload, disk.trace[k])
  {
    WrittenPayload(fs0, payload);
    SyncedImages(payload);
    var renamed := disk.Rename();
    if renamed.Failure? {
      disk.RemoveTemp();
      return renamed;
    }
    if policy != Never {
      var _ :- disk.SyncDir();
    }
    r := Success(());
  }

  /** After success under a syncing policy only the new payload can be found, and the log is as it was. */
  lemma AtomicIsDurable(fs: Fs, payload: bytes, policy: FsyncPolicy)
    requires policy != Never
    ensures Last(AtomicTrace(fs, payload, policy)) == Fs(None, Some(Inode(payload, {payload})), {}, fs.wal)
    ensures TargetImages(Last(AtomicTrace(fs, payload, policy))) == {Some(payload)}
  {
    WrittenPayload(fs, payload);
    SyncedImages(payload);
  }

  /**
    Without syncing the replacement is not atomic: for any payload of two bytes or more over a
    settled target, the old-or-new guarantee holds exactly for the policies that sync.
   */
  lemma AtomicExactlyWhenSynced(fs: Fs, payload: bytes, policy: FsyncPolicy, before: Option<bytes>)
    requires TargetImages(fs) == {before} && |payload| >= 2
    ensures var t := AtomicTrace(fs, payload, policy);
            (forall k :: 0 <= k < |t| ==> OldOrNew(fs, payload, t[k])) <==> policy != Never
  {
    WrittenPayload(fs, payload);
    SyncedImages(payload);
    var t := AtomicTrace(fs, payload, policy);
    if policy == Never {
      var n := Written(NewFile(), 0, payload);
      PrefixImage(payload, 0);
      PrefixImage(payload, 1);
      assert Some(payload[..0]) in TargetImages(t[2]);
      assert Some(payload[..1]) in TargetImages(t[2]);
      assert payload[..0] != payload[..1];
      assert !OldOrNew(fs, payload, t[2]);
    }
  }

  /** And without it, all that could be found before success can still be found after it. */
  lemma NeverSyncsNothing(fs: Fs, payload: bytes)
    ensures TargetImages(fs) <= TargetImages(Last(AtomicTrace(fs, payload, Never)))
    ensures Content(Last(AtomicTrace(fs, payload, Never)).target) == Some(payload)
  {
    WrittenPayload(fs, payload);
  }

  /** An unsynced file can come back as any prefix of what was written to it. */
  lemma PrefixImage(payload: bytes, k: nat)
    requires k <= |payload|
    ensures payload[..k] in Written(NewFile(), 0, payload).images
  {
    assert Overwrite([], 0, payload[..k]) == payload[..k];
  }
}
