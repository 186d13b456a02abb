# A verified model of iqdb-persist

iqdb-persist keeps an in-memory vector index durable with two files: a snapshot that is replaced
atomically, and a write-ahead log of checksummed records. A mutation is logged, then applied, and
its record is cut off again if the index rejects it. Loading rebuilds the snapshot and replays the
log. This project models that protocol down to the bytes and proves what a load gives back after a
crash at any point.

The main result is `Runs.WholeRunRecovery`: open an index over any files, and let any finite run of
mutations, checkpoints and crashes happen (between calls, or at any point inside one). Every load of
the run gives exactly the acknowledged mutations, plus those in flight whose whole frame had reached
the log, applied to the starting index. What the theorem asks for:

- Of the caller, read off the calls alone (`Runs.Disciplined`): every body is within the parser's
  cap, and after a crash inside a call nothing is logged until a checkpoint has returned. That the log
  is then a header and intact frames at every mutation is proved along the run, not assumed.
- Of the environment (`Runs.Happens`, `Crashes.Trusted`): crashes leave what the device can leave,
  the states a checkpoint is taken of can be saved and read back, the index and the codecs obey their
  laws, and every append is synced.
- Of luck (`Runs.Spared`): no crash leaves the whole frame of a mutation the index rejects, or comes
  between a new snapshot and the emptied log while the log does not replay over its own result
  unchanged. This is exact: the loads of a run all recover if and only if it was spared. Both kinds
  of crash do occur (`Shortfalls.UnluckyRejection`, `Shortfalls.UnluckyWindow`). An idempotent index
  that rejects none of the mutations crashed in is always spared (`Runs.IdempotentIsSpared`,
  `Tables.LastWriterRecovery`).

Under a policy that leaves appends unsynced, `WeakRuns.WeakRunRecovery` says the same of prefixes:
over any number of crashes and loads, each load gives the index after some prefix of what had been
accepted, and loses nothing that was synced.

`Counter` has the runs of a concrete index. Any run without crashes, and any run that goes on after
a crash inside an insert, is recovered. Two that skip the checkpoint lose an acknowledged insert, and
one that is disciplined but not spared counts an insert twice.

What happens outside those conditions, and where else the code falls short of what it promises:

- Appends behind a torn tail are read as one stretch with it, because opening for append does not
  cut the tail (`Shortfalls.AppendBehindTail`). Behind a torn frame that claims more bytes they are
  lost (`Shortfalls.TornTailLosesAcknowledged`), or they complete the torn record and revive it
  (`WalTheorems.TornFrameRevived`). With at most four bytes missing there is no third case
  (`Shortfalls.BehindNearlyWholeFrame`). A crash can leave any such tail (`Shortfalls.TornTailArises`),
  and `Counter.TornRunForgets` is a whole run that loses an acknowledged insert. A checkpoint cleans
  the log (`Crashes.CheckpointKeeps`).
- A reset cut short leaves part of a header, or none of it (`Shortfalls.HeaderlessLogArises`). Loading
  accepts that and writes none. The next acknowledged mutation makes the load after it fail, unless
  its frame happens to begin with the missing bytes (`Shortfalls.HeaderlessLogBreaks`,
  `Counter.HeaderlessRunBreaks`).
- A crash that leaves the whole frame of a rejected mutation makes the load fail, and only that
  (`Crashes.CrashWithPartialFrame`). For every mutation the index rejects there is such a crash
  (`Shortfalls.UnluckyRejection`).
- A mutation that reported an I/O error may have its whole frame in the log, for instance when only the
  sync failed. In a handle that lives on, the next acknowledged mutation brings it back on load
  (`Shortfalls.FailedAppendIsReplayed`). Retrying an insert like that makes the load fail when
  duplicate ids are rejected (`Tables.StrictRetryBreaks`). If only part of the frame was written, the
  handle appends behind a torn tail.
- A checkpoint that reported an I/O error may have replaced the snapshot and not emptied the log, or
  left part of a header (`Shortfalls.CheckpointErrorLeaves`). What a handle that lives on logs after
  that is replayed, with the old log in front of it, over the state saved
  (`Shortfalls.NewSnapshotOldLog`), or behind a cut header.
- A crash between the new snapshot and the emptied log replays the log over its own result. An
  index where the last write wins is safe (`Tables.LastWriterCheckpointAtomic`). One that rejects
  duplicate and absent ids is safe exactly when the set of ids is that of the previous snapshot, and
  otherwise cannot be loaded (`Tables.StrictCheckpointWindow`, `Tables.StrictCheckpointBreaks`). The
  documentation (src/persisted.rs:331-334) says a checkpoint keeps log and snapshot from ever
  double-counting a mutation. A crash between its two steps is where the code does not keep that
  promise: `Counter.CheckpointCountsTwice` is a run of one insert and such a crash, after which the
  count is two. A bare save has the same effect without a crash, and keeps it through all that is
  logged later (`Shortfalls.SaveThenLoad`, `Shortfalls.NewSnapshotOldLog`).
- With appends left unsynced the same window is unsafe even where the last write wins: the new snapshot
  can stand beside the first part of the old log, and a load then brings an overwritten row back beside
  later ones, a state the index never was in (`Tables.LastWriterWeakWindow`).
- A crash while opening over existing files, between the base snapshot and the truncated log, replays
  the previous log onto the new start (`Shortfalls.CrashInOpen`, `Shortfalls.OldLogArises`). The recovery contract begins once
  opening has returned.
- A record over 256 MiB is logged and acknowledged but not read back, nor is anything after it
  (`WalTheorems.LogRoundTrip`).
- A snapshot that compresses by more than 4096 to 1, or whose type tag is over 4096 bytes, is
  written but refused on load (`Snapshot.SnapshotRoundTrip`).
- Replay checks a vector's dimension and the live path does not, so an index must reject wrong
  dimensions itself: one accepted makes every later load fail (`Shortfalls.DimensionDecides`).
- With fsync set to never, replacing the snapshot is not atomic (`Storage.AtomicExactlyWhenSynced`).

## How it is laid out

| file | part of the program |
|---|---|
| `Wrappers.dfy`, `Bytes.dfy`, `Utf8.dfy`, `Buffers.dfy` | results and errors, little-endian words and UTF-8, the growing buffer and the cursor |
| `ShiftRegister.dfy`, `Checksum.dfy`, `Division.dfy` | CRC-32, the theory of the register it runs on, and the polynomial division it carries out |
| `Records.dfy`, `RecordCodec.dfy` | log records: layout, encoders, decoders |
| `WalLog.dfy`, `WalTheorems.dfy`, `LogLayout.dfy` | the log as bytes, the parser loop, what parsing recovers, and the frozen format in numbers |
| `Format.dfy`, `Compression.dfy`, `Snapshot.dfy`, `SnapshotLayout.dfy` | the snapshot file, the checks on load, and the frozen format in numbers |
| `Index.dfy`, `Tables.dfy`, `Counter.dfy` | the index seen through its operations, replay, and three concrete indexes |
| `FileSystem.dfy`, `Storage.dfy`, `WalFile.dfy` | the device with what a crash can leave, atomic replacement, the live log |
| `Protocol.dfy`, `Persisted.dfy` | the protocol as functions on values, and the wrapper class whose methods compute them |
| `Crashes.dfy` | one call, or a crash in or between calls, and the load after it |
| `Runs.dfy` | whole runs under the always-sync policy |
| `WeakSync.dfy`, `WeakRuns.dfy` | prefix recovery with appends unsynced: one session, and whole runs |
| `Shortfalls.dfy` | what the next load gives outside the conditions of the recovery contract |

The code that changes state is modelled by classes and methods (`ByteBuf`, `Cur`, `Disk`, `Wal`,
`PersistedIndex`, the parser and replay loops). Their contracts give the new state as a function of
the old one, and the list of file states passed through on the way. The theorems about runs are
about those same functions.

What stands for the environment: an index is a record of functions with the laws `Index.LoadsBack`
and `Index.ChecksDim`; the codec libraries are functions with the law `Compression.Inverse`; the
interval test of the periodic policy is the parameter `due`; every file operation may fail, a write
after any prefix of its bytes, and a counter records that it did, so that a method can be held to
reporting an I/O error exactly when the device failed. A crash can leave any state that the unsynced changes to a file pass
through in the order they were made, each write byte by byte, and can undo a rename until the
directory is synced.

## Model

| member | source | states |
|---|---|---|
| Checksum.BurstDetected | src/checksum.rs:24-26 | two messages of any length that differ only within four neighbouring bytes have different CRC-32 values |
| Checksum.ByteChangeDetected | src/checksum.rs:7-8 | changing one byte of a message changes its checksum |
| Checksum.PolynomialNumber | src/checksum.rs:12 | the generator the register divides by is the IEEE one, 0xEDB88320 in reflected form |
| Division.ChecksumIsRemainder | src/checksum.rs:12-26 | the checksum of any message is the complement of the one remainder that dividing it, with its first 32 bits complemented and 32 zeros behind it, by the IEEE polynomial leaves |
| Checksum.VerifyDetectsBurst | src/checksum.rs:46-53 | a message is accepted against its own checksum; damaged within four neighbouring bytes it is refused, with the stored and a different computed value |
| ShiftRegister.BurstChangesRegister | src/checksum.rs:24-26 | for any lawful register, different words at the same place of a message leave different registers |
| Bytes.Le4RoundTrip | src/wal.rs:563-566 | a 32-bit word reads back as written |
| Bytes.Le8RoundTrip | src/wal.rs:568-573 | a 64-bit word reads back as written |
| Bytes.FromLeThenLe | src/wal.rs:563-573 | bytes read as a little-endian number are the bytes written for it |
| Bytes.WordsAt | src/wal.rs:563-573 | the decoders read a word as the sum of its bytes, least significant first |
| Utf8.ValidExactly | src/wal.rs:498-512 | a string is accepted exactly when it is the encoding of a string of Unicode scalar values |
| Buffers.Take | src/wal.rs:542-557 | a read succeeds exactly when enough bytes are left, and splits the input there |
| Buffers.Cur.TakeBytes | src/wal.rs:542-557 | the cursor returns the next bytes and stands after them, or fails inside bounds |
| Records.RecordRoundTrip | src/wal.rs:447-476 | decoding any encoded insert or delete gives it back, whatever bytes follow |
| Records.BodyInjective | src/wal.rs:177-209 | different records have different bodies |
| Records.IdRoundTrip | src/wal.rs:478-491 | both kinds of vector id decode to themselves, consuming exactly their bytes |
| Records.ValueRoundTrip | src/wal.rs:508-527 | all five kinds of metadata value decode to themselves |
| Records.MetaRoundTrip | src/wal.rs:493-506 | optional metadata with distinct keys decodes to itself, in order |
| Records.DecodeVector | src/wal.rs:452-456 | each decoded component consumes four bytes of the body, so a length field cannot inflate the result |
| Records.DecodeEntries | src/wal.rs:493-506 | as many entries as counted are decoded, each consuming four bytes, its key and its value's size, so neither a count nor a string length can inflate the result |
| Records.CollectSize | src/wal.rs:505 | collecting entries into metadata never makes them larger |
| Records.BodySize | src/wal.rs:302-358 | the size of a record's body, by its parts |
| Records.DecodedNoLarger | src/wal.rs:447-476 | a record decoded from any bytes takes no more bytes than were read |
| LogLayout.RecordDecodes | src/wal.rs:447-527 | exactly which bytes are read as which record, with the freedoms the decoder leaves: bytes behind, any flag but one, any byte but zero for true, keys that repeat |
| LogLayout.IdLayout | src/wal.rs:40-42 | the bytes of both kinds of id |
| LogLayout.ValueLayout | src/wal.rs:43-44 | the tag and the bytes of each kind of metadata value |
| LogLayout.EntryLayout | src/wal.rs:35-37 | the bytes of a metadata entry |
| LogLayout.VectorLayout | src/wal.rs:35-37 | each component of a vector is the word at its place |
| LogLayout.MetaLayout | src/wal.rs:35-37 | the metadata flag, the count and the entries |
| LogLayout.InsertLayout | src/wal.rs:35-37 | the code of an insert, and each of its fields at its offset |
| LogLayout.DeleteLayout | src/wal.rs:38 | the code of a delete, and its id |
| LogLayout.HeaderLayout | src/wal.rs:57-62 | the twelve bytes of a log's header |
| LogLayout.FrameLayout | src/wal.rs:22-25 | length, checksum and body of a frame, each at its offset |
| Records.PutKeepsOthers | src/wal.rs:505 | collecting an entry makes it the one under its key and loses no other |
| Records.CollectDistinct | src/wal.rs:505 | collecting entries with distinct keys keeps them all in order |
| RecordCodec.EncodeVectorId | src/wal.rs:302-315 | appends the id's layout to the buffer |
| RecordCodec.EncodeValue | src/wal.rs:333-358 | appends the value's layout, failing exactly when a string is too long for its length field |
| RecordCodec.EncodeMetadata | src/wal.rs:317-331 | the entry loop appends count and entries in order, failing exactly when some length does not fit |
| RecordCodec.EncodeInsert | src/wal.rs:177-201 | the buffer ends up holding the insert's body exactly when all its lengths fit |
| RecordCodec.EncodeDelete | src/wal.rs:204-209 | the buffer ends up holding the delete's body |
| RecordCodec.DecodeBody | src/wal.rs:447-476 | decoding with the advancing cursor computes the record the body stands for, or its error |
| RecordCodec.DecodeVectorId | src/wal.rs:478-491 | the cursor reads an id and stops after it |
| RecordCodec.DecodeMetadataFrom | src/wal.rs:493-506 | the cursor loop reads all entries and collects them |
| RecordCodec.DecodeMetaValue | src/wal.rs:508-527 | the cursor reads a tagged value or reports why not |
| WalLog.ParseRecords | src/wal.rs:387-438 | the position loop computes the recursive parse of any byte image, in bounds and terminating |
| WalLog.FrontBodyAt | src/wal.rs:407-433 | where a frame ends, and the four ways it is torn |
| WalTheorems.LogRoundTrip | src/wal.rs:246-268 | a log reads back up to its first record over the parser's cap, so whole exactly when there is none |
| LogLayout.SizesInNumbers | src/wal.rs:77-79 | the writer takes exactly the records below 4 GiB, and the parser reads back exactly those of at most 256 MiB, by the sizes of their parts |
| LogLayout.ReadBackBySize | src/wal.rs:417-421 | a logged record of up to 256 MiB is read back, and a longer one is not |
| WalTheorems.EveryTruncation | src/wal.rs:387-438 | the first t bytes of a log parse to exactly the records whose frames are whole within t |
| WalTheorems.WholeFramesMeaning | src/wal.rs:407-430 | the frames counted end within the cut, and the next one does not |
| WalTheorems.TornAppend | src/wal.rs:407-436 | a log with part of one more frame parses to the old records, and to one more exactly when the frame is whole |
| WalTheorems.HistoryPreserved | src/wal.rs:405-437 | bytes after an intact log give a decode error or a list that starts with the old records |
| WalTheorems.DamageIsContained | src/wal.rs:411-436 | a body damaged within four neighbouring bytes, or a damaged stored checksum, ends the log there, whatever follows |
| WalTheorems.ByteDamageIsContained | src/wal.rs:411-436 | changing one byte of a frame's checksum or body leaves exactly the records before it |
| WalTheorems.LostBehindTornFrame | src/wal.rs:143-148 | frames appended behind a torn frame that claims more bytes than follow are not seen |
| WalTheorems.TornFrameRevived | src/wal.rs:143-148 | bytes that complete a torn frame bring its record back |
| WalTheorems.SplicedFrame | src/wal.rs:413-433 | a torn frame with other bytes in place of those it lacks is read exactly when the spliced body has the stored checksum |
| WalTheorems.NearlyWholeFrame | src/wal.rs:413-433 | if at most four bytes are missing, only those very bytes complete the frame, and otherwise nothing more is read |
| WalTheorems.ZeroTail | src/wal.rs:431-434 | a zero-filled tail is torn below eight bytes and a decode error from eight on |
| Format.HeaderRoundTrip | src/format.rs:243-302 | a written header reads back, stopping right after it, exactly when magic, version and type length pass the reader's checks |
| Format.HeaderCanonical | src/format.rs:201-220 | an accepted image is byte for byte what the writer emits for the header read from it |
| Format.EveryHeaderCut | src/format.rs:315-328 | cutting an accepted header anywhere is reported as a truncated header |
| Format.HeaderExtends | src/format.rs:243-302 | unless the image ends inside the header, bytes after it change nothing but what is left |
| Format.WriteHeader | src/format.rs:201-220 | the writer appends the header layout, failing only for a metric without a tag |
| Format.ReadHeaderFrom | src/format.rs:243-302 | reading field by field gives the header or the first failing check |
| Format.TagToMetric | src/format.rs:135-144 | accepts exactly tags 0 to 4, inverting the writer's mapping |
| Compression.EncodeThenDecode | src/compression.rs:51-82 | what was encoded decodes to itself exactly when the expansion guard allows it, and is refused by the guard otherwise |
| Compression.Encode | src/compression.rs:51-57 | encoding succeeds with every scheme of the build, at the levels 1 to 22, when the codec does, with the codec's own output |
| Compression.Decode | src/compression.rs:68-82 | no bytes decode to more than 4096 times their size; a compressed payload decodes to its recorded length, and an uncompressed one ignores it |
| Snapshot.BuildSnapshot | src/persisted.rs:373-404 | building preamble, checksum and header in buffers gives the snapshot image or the first error |
| Snapshot.LoadSnapshot | src/persisted.rs:148-215 | the load steps compute the state a file stands for, or the first failing check |
| Snapshot.SnapshotRoundTrip | src/persisted.rs:373-408 | a saved state loads back exactly when it is within the reader's limits |
| Snapshot.VersionOneLoads | src/persisted.rs:194-196 | a version-1 file, header and bare payload, loads |
| Snapshot.SingleByteCorruption | src/persisted.rs:147-215 | replacing any byte of any saved file, also one over the reader's limits, makes the load fail, except turning version 2 into 1 |
| Snapshot.HeaderDamageDetected | src/persisted.rs:163-215 | any change to any number of header bytes is detected unless the version then reads 1 |
| Snapshot.RegionDamageDetected | src/persisted.rs:171-172 | damage within four neighbouring bytes of the region is a checksum mismatch |
| Snapshot.VersionDowngrade | src/persisted.rs:177-196 | version 2 read as 1 hands the whole region to the index as a payload, under the same cross-checks |
| Snapshot.HeaderCutDetected | src/persisted.rs:148-161 | a file that ends inside its header is reported as truncated |
| SnapshotLayout.SavesWhen | src/persisted.rs:373-404 | saving succeeds exactly when the index serializes, the scheme encodes and the metric has a number |
| SnapshotLayout.SavedLayout | src/format.rs:6-33 | every byte of a saved file, each field at its offset and with its number |
| SnapshotLayout.LoadsExactly | src/persisted.rs:147-215 | exactly which files load, and as what: each field, the checksum and the payload agree with the state and with each other |
| SnapshotLayout.LimitsInNumbers | src/format.rs:268-273 | the limits of the reader: 4096 bytes of type and a ratio of 4096 to 1 |
| SnapshotLayout.FirstRefusals | src/format.rs:243-273 | a wrong magic, version or type length is refused with its own error, in this order |
| SnapshotLayout.LaterRefusals | src/persisted.rs:163-215 | and then another type, a wrong checksum, a bad payload, and a header that disagrees with the index |
| Index.ReplayRecords | src/recovery.rs:36-54 | the replay loop folds the records over the index, counts them, and stops at the first error |
| Index.ReplayAppend | src/recovery.rs:38-53 | replaying two logs one after the other is replaying them joined |
| Storage.WriteAtomic | src/storage.rs:61-156 | whatever step fails and wherever the machine stops, the target holds all old or all new contents; an error before the rename changes nothing, and one in the directory sync leaves the new contents visible; it fails only when the device does, and then removes its temporary file if it can |
| Storage.StageTemp | src/storage.rs:84-111 | writing, syncing and cleaning up the temporary file never touches the target |
| Storage.SwapIn | src/storage.rs:118-148 | the rename and directory sync steps, and what a failure of each leaves |
| Storage.AtomicIsDurable | src/storage.rs:126-148 | after success under a syncing policy a crash can find only the new contents |
| Storage.AtomicExactlyWhenSynced | src/storage.rs:101-109 | for payloads of two bytes or more, the replacement is atomic exactly for the policies that sync |
| Storage.NeverSyncsNothing | src/storage.rs:101-148 | without syncing, all that a crash could find before a replacement can still be found after it |
| WalFile.Wal.Create | src/wal.rs:103-125 | creates or truncates the log, writes the header, syncs, and stands at its end; a failure leaves the old log or part of a header |
| WalFile.Wal.OpenForAppend | src/wal.rs:130-161 | stands at the end of an existing log, which is unchanged even by a failure; only a missing log gets a header |
| WalFile.Wal.Reset | src/wal.rs:165-174 | passes through the states that empty the log and rewrite its header |
| WalFile.Wal.Rollback | src/wal.rs:223-230 | cuts the log to the mark and syncs, whatever the policy |
| WalFile.Wal.CommitRecord | src/wal.rs:246-283 | writes head then body at the end and syncs by policy; a failure leaves a prefix of the frame |
| WalFile.Wal.MaybeSync | src/wal.rs:270-283 | syncs under the always policy, and under the periodic one exactly when the interval has passed |
| WalFile.Wal.AppendInsert | src/wal.rs:177-201 | logs the insert's frame, or refuses it without effect when a length does not fit, or is cut short by an I/O error |
| WalFile.Wal.AppendDelete | src/wal.rs:204-209 | the same for a delete |
| WalFile.FrameAppended | src/wal.rs:246-268 | an append adds exactly one frame at the end, durable when synced |
| WalFile.FrameCutBack | src/wal.rs:221-230 | rolling back to the mark restores the log's bytes and length |
| Persisted.ValidateConfig | src/persisted.rs:411-435 | a scheme is refused exactly when every encode with it would be refused as unsupported |
| Persisted.PersistedIndex.OpenWith | src/persisted.rs:120-140 | with the log enabled, the base snapshot is replaced and then an empty log created, and what a failure of each step leaves; without it nothing is written; fails only for a scheme the build refuses, an index that cannot be saved, or a failing device |
| Persisted.PersistedIndex.Load | src/persisted.rs:143-231 | on a device that does not fail, returns the handle the protocol defines for the files found, or the error it defines; never changes the snapshot or an existing log |
| Persisted.PersistedIndex.Insert | src/persisted.rs:273-297 | log, apply, roll back on reject: the handle and every file state on the way, for each outcome; reports an I/O error exactly when the device failed, and otherwise succeeds exactly when the record can be logged and the index accepts it |
| Persisted.PersistedIndex.Delete | src/persisted.rs:307-326 | the same for a delete |
| Persisted.PersistedIndex.Save | src/persisted.rs:343-345 | replaces the snapshot and leaves the log alone |
| Persisted.PersistedIndex.Checkpoint | src/persisted.rs:358-364 | replaces the snapshot, then empties the log; what each failure leaves |
| Runs.WholeRunRecovery | src/persisted.rs:257-364 | for any run of a disciplined caller from a fresh handle, every load gives exactly the mutations acknowledged or wholly logged, applied to the start, if and only if no crash was an unlucky one; and so does a load after the run |
| Runs.SafeRunRecovery | src/persisted.rs:257-364 | the same when the log's cleanness is looked up at each call instead of following from the discipline |
| Runs.DisciplinedIsSafe | src/persisted.rs:257-364 | along a disciplined run the log is clean at every mutation, over any number of crashes and loads |
| Runs.DisciplineInSizes | src/wal.rs:77-79 | the discipline in numbers: an order of calls, and no record above 256 MiB |
| Runs.CrashOutcome | src/persisted.rs:223-229 | a load after one crash gives what has to be recovered exactly when the crash was not an unlucky one |
| Runs.IdempotentIsSpared | src/persisted.rs:331-334 | with an idempotent index that rejects none of the mutations crashed in, no crash of a run is an unlucky one |
| Runs.StepKeeps | src/persisted.rs:273-364 | no safe event breaks the invariant that the files load to the index in memory, and every load after a crash succeeds |
| Crashes.OpenEstablishes | src/persisted.rs:132-138 | unless the policy never syncs, a freshly opened handle is recoverable and its log clean, whatever files were there |
| Crashes.LoadWithoutLog | src/wal.rs:132-159 | loading a snapshot with no log beside it gives a recoverable handle over a durable log with a header and nothing else |
| Crashes.FirstMutationLoads | src/persisted.rs:223-229 | and the first mutation after that is recovered |
| Crashes.DurableWhenDue | src/wal.rs:270-283 | an accepted mutation is on the device when the policy is to sync always, or periodically and the interval has passed; otherwise all that a crash could have left before is still possible |
| Crashes.CrashBetweenCalls | src/persisted.rs:223-229 | a crash between calls and a load give back the index that was in memory |
| Crashes.CrashWithPartialFrame | src/persisted.rs:280-290 | unless the whole frame is in the log the load gives the index from before; with it, an accepted mutation is recovered and a rejected one makes the load fail |
| Crashes.CrashInMutation | src/persisted.rs:280-290 | the same at every point inside a mutation |
| Crashes.MutateKeeps | src/persisted.rs:280-290 | a mutation that returned, accepted or rejected, leaves files that load to the index in memory |
| Crashes.RejectedIsInvisible | src/persisted.rs:263-265 | after a rejected mutation index, position and both files are exactly as before, under any policy |
| Crashes.MutateKeepsClean | src/persisted.rs:263-265 | a mutation that returned leaves a clean log clean |
| Crashes.CleanAfterMutationCrash | src/wal.rs:246-268 | a crash inside a mutation leaves the log clean exactly when none or all of the frame is there |
| Crashes.CrashInCheckpoint | src/persisted.rs:358-364 | a crash anywhere in a checkpoint recovers the same index, except that between snapshot and reset it does exactly when the log replays over its result unchanged |
| Crashes.CheckpointKeeps | src/persisted.rs:347-352 | after a checkpoint the snapshot alone holds the state and the log is clean, whatever the files held before |
| Crashes.IdempotentRepeats | src/persisted.rs:331-334 | with an index whose replay is idempotent the checkpoint window is safe |
| Shortfalls.AppendBehindTail | src/wal.rs:143-148 | a mutation acknowledged behind any torn tail is read as one stretch with it, and lost while that stretch does not begin with a whole frame |
| Shortfalls.TornTailLosesAcknowledged | src/wal.rs:143-148 | a mutation acknowledged behind a torn frame that claims more bytes is lost on the next load |
| Shortfalls.BehindNearlyWholeFrame | src/wal.rs:143-148 | behind a frame that lacks at most four bytes the new frame begins with them and the torn record comes back, or the new mutation is lost |
| Shortfalls.TornTailArises | src/wal.rs:246-268 | for every part of a frame there is a crash inside the mutation that leaves just that part |
| Shortfalls.BehindCutHeader | src/wal.rs:388-403 | bytes behind a header cut anywhere parse as frames if they begin with its missing bytes, and are otherwise refused for magic or version |
| Shortfalls.HeaderlessLogBreaks | src/wal.rs:132-159 | over a log cut inside its header the first acknowledged mutation makes the next load fail exactly so, unless its frame begins with the missing bytes |
| Shortfalls.NeverCompletes | src/wal.rs:413-421 | no frame the parser would read begins with the missing bytes when at most three, or exactly eight, are there |
| Shortfalls.HeaderlessLogArises | src/wal.rs:165-174 | for every part of a header there is a crash inside a checkpoint that leaves just that part beside the new snapshot |
| Shortfalls.FailedAppendIsReplayed | src/persisted.rs:280-290 | a mutation that reported an error after its whole frame was written is applied, before the next acknowledged one, by a later load |
| Shortfalls.DimensionDecides | src/recovery.rs:41-46 | an accepted mutation is recovered exactly when its vector has the index's dimension; otherwise the load reports the disagreement |
| Shortfalls.SaveThenLoad | src/persisted.rs:328-345 | after a bare save the log is replayed over the state it led to, which gives the same index exactly when the log repeats |
| Shortfalls.NewSnapshotOldLog | src/persisted.rs:328-345 | whatever is mutated after a snapshot was replaced and the log was not, a load replays old log and new mutations over the state saved, and gives the index in memory when the old log repeats |
| Shortfalls.CheckpointErrorLeaves | src/persisted.rs:358-364 | a checkpoint that failed left the old files, or the new snapshot beside the old log, or beside part of a header, and what a load then gives |
| Shortfalls.WindowArises | src/persisted.rs:358-364 | for all that could be left of the old log there is a crash inside a checkpoint that leaves it beside the new snapshot |
| Shortfalls.UnluckyWindow | src/persisted.rs:358-364 | for every log that does not repeat there is such a crash after which a load gives another result |
| Shortfalls.UnluckyRejection | src/persisted.rs:283-287 | for every mutation the index rejects there is a crash after which no load succeeds |
| Shortfalls.CrashInOpen | src/persisted.rs:132-138 | a crash inside opening leaves the old files, or the base snapshot with the old log replayed onto it, or the start itself |
| Shortfalls.OldLogArises | src/persisted.rs:132-138 | for all that could be left of the previous log there is a crash inside opening that leaves it beside the base snapshot |
| Counter.CounterIsTrusted | src/lib.rs:158-170 | an index whose payload restates its state obeys the laws, and every state of it saves and reloads |
| Counter.CounterRecovers | src/persisted.rs:457-531 | for an index that counts its vectors, any run of short mutations and checkpoints is recovered after a crash, to the count they come to |
| Counter.CounterSurvivesCrash | src/persisted.rs:358-364 | a counter stopped inside an insert and loaded goes on without loss if it checkpoints before the next mutation |
| Counter.TornRunForgets | src/wal.rs:143-148 | a run of a crash inside an insert, a load and another insert, which is acknowledged and gone on the next load |
| Counter.HeaderlessRunBreaks | src/wal.rs:165-174 | the same with a crash inside a checkpoint that leaves any part of a header: the load after it fails |
| Counter.CheckpointCountsTwice | src/persisted.rs:331-334 | a disciplined run of one insert and a crash inside the checkpoint after it, whose load counts the insert twice |
| Tables.LastWriterIdempotent | src/persisted.rs:331-334 | replaying a log twice equals replaying it once when the last write wins |
| Tables.StrictRepeats | src/persisted.rs:263-265 | when duplicates and absences are rejected, a log replays over its result exactly when it left the set of ids unchanged |
| Tables.StrictInsertDoesNotRepeat | src/recovery.rs:46 | replaying an accepted insert over the table that has it is an error |
| Tables.LastWriterCheckpointAtomic | src/persisted.rs:358-364 | with the last write winning, a crash anywhere in a checkpoint recovers the same index |
| Tables.LastWriterRecovery | src/persisted.rs:257-364 | with the last write winning, every run of a disciplined caller is recovered, wherever the machine stops |
| Tables.StrictCheckpointWindow | src/persisted.rs:358-364 | when duplicates and absences are rejected, a load in the window succeeds, and gives the same index, exactly when the ids are those of the previous snapshot |
| Tables.StrictCheckpointBreaks | src/persisted.rs:358-364 | whenever the ids differ from those of the previous snapshot there is a crash inside the checkpoint after which the load fails |
| Tables.LastWriterWeakWindow | src/persisted.rs:358-364 | with appends unsynced, a crash inside a checkpoint can bring an overwritten row back beside a later one, which is the state after no prefix of the history |
| Tables.StrictRetryBreaks | src/persisted.rs:283 | retrying an insert whose append failed after the whole frame makes the next load fail when duplicates are rejected |
| WeakSync.OpenedPrefixRecovery | src/wal.rs:270-283 | from a handle just opened under a policy that syncs at all, after any mutations and checkpoints a crash recovers a prefix of the accepted mutations, at least the synced ones |
| WeakSync.PrefixRecovery | src/wal.rs:270-283 | the same under any policy, from any handle whose snapshot is durable and whose log is the image of the mutations since |
| WeakSync.OpenHolds | src/persisted.rs:132-138 | a handle just opened is such a handle unless the policy never syncs |
| WeakSync.LoadHolds | src/persisted.rs:223-229 | so is a handle loaded from what a crash left, under any policy, when the log is clean |
| WeakSync.CrashInMutationPrefix | src/wal.rs:246-268 | a crash inside a mutation, or after its I/O error, recovers a prefix that may end with the mutation in flight |
| WeakSync.CrashInCheckpointPrefix | src/persisted.rs:358-364 | a crash inside a checkpoint recovers a prefix, or everything, or replays what is left of the log over the new snapshot |
| WeakSync.CheckpointHolds | src/persisted.rs:347-352 | a checkpoint folds and syncs everything, whatever the files held |
| WeakSync.SyncedLosesNothing | src/wal.rs:223-230 | after a synced mutation, any rollback, or a checkpoint, a crash loses nothing |
| WeakSync.NextHolds | src/persisted.rs:280-290 | each call keeps snapshot and log the exact images of the accepted mutations, and the synced count never shrinks |
| WeakRuns.WeakRunRecovery | src/persisted.rs:223-229 | under any policy that syncs at all, along any run of a cautious caller whose crashes are not unlucky, each load gives a prefix of what had been accepted, with all that was synced |
| WeakRuns.CrashWhileClean | src/persisted.rs:273-364 | a crash anywhere in or between calls over a clean log recovers a prefix that may end with the mutation in flight, unless it was unlucky |
| WeakRuns.CrashWhileTorn | src/persisted.rs:223-229 | after a crash and before the next checkpoint has returned, a further crash loses nothing, unless it was unlucky |

## Left out

- File handles, OS paths, temporary-name generation, process ids and the clock: the files are named by their role, and the interval test is a parameter.
- Seeking and asking for the position are taken not to fail; every other file operation may.
- Durability of the log's own directory entry: the code never syncs the directory after creating the log, and the model takes its creation as durable.
- Devices that reorder the unsynced writes of one file, or fill a tail with zeros: a crash leaves a prefix of the changes. What a zero tail does is stated separately.
- Builds for systems without a directory sync: the modelled build is the Unix one.
- The internals of Zstd and LZ4: any codec that inverts itself.
- The internals of `iqdb-index` and `iqdb-types`, which are not part of this repository: an index is any set of operations with the stated laws; metadata is an entry list with distinct keys in iteration order, where collecting a repeated key keeps its place and takes the last value.
- Floating-point arithmetic: components and float values are bit patterns.
- Hosts with a `usize` narrower than 64 bits: conversions between `usize` and `u64` never fail here.
- The cursor's separate error text for an offset that overflows: it is the same error kind as reading past the end, and both are modelled as that one.
- Truncation of the snapshot's payload as a universal claim: CRC-32 does not guarantee it, and an uncompressed payload ignores its recorded length.
- A changed length field of a log frame as a universal claim: the checksum of a different span could match.
- `index_mut`, the accessors, and error messages, tracing, serialization of the configuration and feature gating beyond which codecs are built.
- Runs.WholeRunRecovery: covers the always-sync policy and calls that meet no I/O error; `WeakRuns.WeakRunRecovery` covers Periodic, and `Crashes.CrashWithPartialFrame`, `Shortfalls.FailedAppendIsReplayed` and `Shortfalls.AppendBehindTail` what a mutation that reported an I/O error leads to, `Shortfalls.CheckpointErrorLeaves` what a checkpoint does. A bare save is not an event of a run (`Shortfalls.NewSnapshotOldLog` says what it leads to), nor is opening a second time.
- Runs.Disciplined: asks for a checkpoint after every crash inside a call, though some leave a clean log; `Runs.SafeRunRecovery` covers a caller who looks.
- WeakRuns.WeakRunRecovery: states one direction, since an unlucky crash may leave a state that happens to be a prefix. With the policy Never the base snapshot is not atomic; `WeakSync.PrefixRecovery` and `WeakSync.LoadHolds` cover the mutations of one session over a snapshot that is durable.
