/**
  The files a persisted index touches, with what a crash could leave of them. Within one file,
  unsynced changes reach the device in the order they were made, and a write byte by byte.
 */
module FileSystem {
  import opened Wrappers
  import opened Bytes

  /** A file: what a read returns now, and the contents a crash could leave behind. */
  datatype Inode = Inode(data: bytes, images: set<bytes>)

  function Zeros(n: nat): bytes {
    seq(n, i => 0)
  }

  /** `data` after `chunk` is written at `pos`; a gap reads as zeros. */
  function Overwrite(data: bytes, pos: nat, chunk: bytes): bytes {
    var head := if pos <= |data| then data[..pos] else data + Zeros(pos - |data|);
    var tail := if pos + |chunk| < |data| then data[pos + |chunk|..] else [];
    head + chunk + tail
  }

  function Resize(data: bytes, len: nat): bytes {
    if len <= |data| then data[..len] else data + Zeros(len - |data|)
  }

  function NewFile(): Inode {
    Inode([], {[]})
  }

  function Written(n: Inode, pos: nat, chunk: bytes): Inode {
    Inode(Overwrite(n.data, pos, chunk),
          n.images + (set k | 0 <= k <= |chunk| :: Overwrite(n.data, pos, chunk[..k])))
  }

  function Resized(n: Inode, len: nat): Inode {
    Inode(Resize(n.data, len), n.images + {Resize(n.data, len)})
  }

  function Synced(n: Inode): Inode {
    Inode(n.data, {n.data})
  }

  /**
    The snapshot, its temporary sibling and the log. `stale` holds the earlier contents a crash
    could bring back at the snapshot path because the directory has not been synced since.
   */
  datatype Fs = Fs(temp: Option<Inode>, target: Option<Inode>, stale: set<Option<bytes>>, wal: Option<Inode>)

  function Content(file: Option<Inode>): Option<bytes> {
    match file
    case Some(n) => Some(n.data)
    case None => None
  }

  function Images(file: Option<Inode>): set<Option<bytes>> {
    match file
    case Some(n) => set c | c in n.images :: Some(c)
    case None => {None}
  }

  /** What a crash could leave at the snapshot path. */
  function TargetImages(fs: Fs): set<Option<bytes>> {
    fs.stale + Images(fs.target)
  }

  predicate Durable(file: Option<Inode>) {
    file.Some? ==> file.value.images == {file.value.data}
  }

  /** `after` is what the machine could find on restarting after a crash in `fs`. */
  predicate CrashesTo(fs: Fs, after: Fs) {
    && after.temp.None?
    && after.stale == {}
    && Durable(after.target) && Content(after.target) in TargetImages(fs)
    && Durable(after.wal) && Content(after.wal) in Images(fs.wal)
  }

  // ---- effects ----

  function TempCreated(fs: Fs): Fs {
    fs.(temp := Some(NewFile()))
  }

  function TempWritten(fs: Fs, chunk: bytes): Fs
    requires fs.temp.Some?
  {
    fs.(temp := Some(Written(fs.temp.value, |fs.temp.value.data|, chunk)))
  }

  function TempSynced(fs: Fs): Fs
    requires fs.temp.Some?
  {
    fs.(temp := Some(Synced(fs.temp.value)))
  }

  /** The rename replaces the target at once, but until the directory is synced a crash can undo it. */
  function Renamed(fs: Fs): Fs
    requires fs.temp.Some?
  {
    Fs(None, fs.temp, TargetImages(fs), fs.wal)
  }

  function DirSynced(fs: Fs): Fs {
    fs.(stale := {})
  }

  function WalTruncated(fs: Fs): Fs {
    fs.(wal := Some(match fs.wal case Some(n) => Resized(n, 0) case None => NewFile()))
  }

  function WalOpened(fs: Fs): Fs {
    fs.(wal := Some(match fs.wal case Some(n) => n case None => NewFile()))
  }

  function WalWritten(fs: Fs, pos: nat, chunk: bytes): Fs
    requires fs.wal.Some?
  {
    fs.(wal := Some(Written(fs.wal.value, pos, chunk)))
  }

  function WalResized(fs: Fs, len: nat): Fs
    requires fs.wal.Some?
  {
    fs.(wal := Some(Resized(fs.wal.value, len)))
  }

  function WalSynced(fs: Fs): Fs
    requires fs.wal.Some?
  {
    fs.(wal := Some(Synced(fs.wal.value)))
  }

  /**
    The storage device. `trace` records every state the files have gone through, and `failures`
    counts the operations that reported an error. The removals of a temporary file that did not
    succeed, which nobody reports, are counted in `leftovers`.
   */
  class Disk {
    var fs: Fs
    ghost var trace: seq<Fs>
    ghost var failures: nat
    ghost var leftovers: nat

    /** The device went through `states`, and is in the last of them. */
    twostate predicate Through(states: seq<Fs>)
      reads this
    {
      trace == old(trace) + states && fs == (if states == [] then old(fs) else states[|states| - 1])
    }

    /** An error was reported exactly if the device failed. */
    twostate predicate Honest(failed: bool)
      reads this
    {
      && failures >= old(failures) && leftovers >= old(leftovers)
      && (failed <==> failures > old(failures))
    }

    /** No temporary file was left behind, unless none was made or its removal failed. */
    twostate predicate CleanedUp()
      reads this
    {
      fs == old(fs) || fs.temp.None? || leftovers > old(leftovers)
    }

    constructor (fs: Fs)
      ensures this.fs == fs && trace == [] && failures == 0
    {
      this.fs := fs;
      trace := [];
      failures := 0;
      leftovers := 0;
    }

    method CreateTemp() returns (r: Result<()>)
      modifies this
      ensures r.Success? ==> Through([TempCreated(old(fs))])
      ensures r.Failure? ==> r.error == Io && Through([])
      ensures Honest(r.Failure?)
    {
      var fails: bool := *;
      if fails {
        failures := failures + 1;
        return Failure(Io);
      }
      fs := TempCreated(fs);
      trace := trace + [fs];
      r := Success(());
    }

    method WriteTemp(chunk: bytes) returns (r: Result<()>)
      requires fs.temp.Some?
      modifies this
      ensures r.Success? ==> Through([TempWritten(old(fs), chunk)])
      ensures r.Failure? ==>
        r.error == Io && exists k: nat :: k <= |chunk| && Through([TempWritten(old(fs), chunk[..k])])
      ensures Honest(r.Failure?)
    {
      var fails: bool := *;
      var k: nat := |chunk|;
      if fails {
        k :| k <= |chunk|;
      }
      assert chunk[..|chunk|] == chunk;
      fs := TempWritten(fs, chunk[..k]);
      trace := trace + [fs];
      failures := if fails then failures + 1 else failures;
      r := if fails then Failure(Io) else Success(());
    }

    method SyncTemp() returns (r: Result<()>)
      requires fs.temp.Some?
      modifies this
      ensures r.Success? ==> Through([TempSynced(old(fs))])
      ensures r.Failure? ==> r.error == Io && Through([])
      ensures Honest(r.Failure?)
    {
      var fails: bool := *;
      if fails {
        failures := failures + 1;
        return Failure(Io);
      }
      fs := TempSynced(fs);
      trace := trace + [fs];
      r := Success(());
    }

    /** Removing the temporary file is best effort. */
    method RemoveTemp()
      modifies this
      ensures fs.temp == None || fs.temp == old(fs.temp)
      ensures Through([old(fs).(temp := fs.temp)]) && Honest(false)
      ensures fs.temp.None? || leftovers > old(leftovers)
    {
      var fails: bool := *;
      if fails {
        leftovers := leftovers + 1;
      } else {
        fs := fs.(temp := None);
      }
      trace := trace + [fs];
    }

    method Rename() returns (r: Result<()>)
      requires fs.temp.Some?
      modifies this
      ensures r.Success? ==> Through([Renamed(old(fs))])
      ensures r.Failure? ==> r.error == Io && Through([])
      ensures Honest(r.Failure?)
    {
      var fails: bool := *;
      if fails {
        failures := failures + 1;
        return Failure(Io);
      }
      fs := Renamed(fs);
      trace := trace + [fs];
      r := Success(());
    }

    method SyncDir() returns (r: Result<()>)
      modifies this
      ensures r.Success? ==> Through([DirSynced(old(fs))])
      ensures r.Failure? ==> r.error == Io && Through([])
      ensures Honest(r.Failure?)
    {
      var fails: bool := *;
      if fails {
        failures := failures + 1;
        return Failure(Io);
      }
      fs := DirSynced(fs);
      trace := trace + [fs];
      r := Success(());
    }

    /** Reads the snapshot; that there is none is an error too, but not the device's. */
    method ReadTarget() returns (r: Result<bytes>)
      modifies this`failures
      ensures r.Success? ==> Content(fs.target) == Some(r.value)
      ensures r.Failure? ==> r.error == Io
      ensures Honest(r.Failure? && fs.target.Some?)
    {
      if fs.target.None? {
        return Failure(Io);
      }
      var fails: bool := *;
      if fails {
        failures := failures + 1;
        return Failure(Io);
      }
      r := Success(fs.target.value.data);
    }

    /** Reads the log, or finds that there is none. */
    method ReadWal() returns (r: Result<Option<bytes>>)
      modifies this`failures
      ensures r.Success? ==> r.value == Content(fs.wal)
      ensures r.Failure? ==> r.error == Io
      ensures Honest(r.Failure?)
    {
      var fails: bool := *;
      if fails {
        failures := failures + 1;
        return Failure(Io);
      }
      r := Success(Content(fs.wal));
    }

    method OpenWal(truncate: bool) returns (r: Result<()>)
      modifies this
      ensures r.Success? ==> Through([if truncate then WalTruncated(old(fs)) else WalOpened(old(fs))])
      ensures r.Failure? ==> r.error == Io && Through([])
      ensures Honest(r.Failure?)
    {
      var fails: bool := *;
      if fails {
        failures := failures + 1;
        return Failure(Io);
      }
      fs := if truncate then WalTruncated(fs) else WalOpened(fs);
      trace := trace + [fs];
      r := Success(());
    }

    /** Writes at `pos`; on failure some prefix of the chunk may have been written. */
    method WriteWal(pos: nat, chunk: bytes) returns (r: Result<()>, n: nat)
      requires fs.wal.Some?
      modifies this
      ensures n <= |chunk| && Through([WalWritten(old(fs), pos, chunk[..n])])
      ensures r.Success? ==> n == |chunk|
      ensures r.Failure? ==> r.error == Io
      ensures Honest(r.Failure?)
    {
      var fails: bool := *;
      n := |chunk|;
      if fails {
        n :| n <= |chunk|;
      }
      fs := WalWritten(fs, pos, chunk[..n]);
      trace := trace + [fs];
      failures := if fails then failures + 1 else failures;
      r := if fails then Failure(Io) else Success(());
    }

    method ResizeWal(len: nat) returns (r: Result<()>)
      requires fs.wal.Some?
      modifies this
      ensures r.Success? ==> Through([WalResized(old(fs), len)])
      ensures r.Failure? ==> r.error == Io && Through([])
      ensures Honest(r.Failure?)
    {
      var fails: bool := *;
      if fails {
        failures := failures + 1;
        return Failure(Io);
      }
      fs := WalResized(fs, len);
      trace := trace + [fs];
      r := Success(());
    }

    method SyncWal() returns (r: Result<()>)
      requires fs.wal.Some?
      modifies this
      ensures r.Success? ==> Through([WalSynced(old(fs))])
      ensures r.Failure? ==> r.error == Io && Through([])
      ensures Honest(r.Failure?)
    {
      var fails: bool := *;
      if fails {
        failures := failures + 1;
        return Failure(Io);
      }
      fs := WalSynced(fs);
      trace := trace + [fs];
      r := Success(());
    }
  }
}
