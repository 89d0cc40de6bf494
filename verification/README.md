# kv-cache: a verified model of its persistence, protocol and locking

kv-cache is a key-value server. Clients speak RESP over TCP; the server keeps a map in memory, appends
every write to a write-ahead log, and from time to time replaces the log by a snapshot file. This project
models that core in Dafny and proves what the design is for: writes survive crashes, the log and snapshot
formats can be read back and refuse damage, the protocol does not depend on how TCP cuts the stream, and
the threads that handle messages cannot deadlock. Where the code does not keep such a promise, the project
says on which inputs, by a condition that is proved necessary and sufficient and by a run or input that
breaks it.

| file | what it models |
|---|---|
| `Bytes.dfy`, `Options.dfy` | bytes, bits and little-endian integers |
| `Crc32.dfy`, `Crc32Residue.dfy`, `Crc32Check.dfy` | CRC-32: the bitwise register, the table, bursts, the residue, the check value |
| `WalCodec.dfy` | log records and reading a whole log |
| `SnapshotCodec.dfy` | snapshot entries and files |
| `Replay.dfy` | what a sequence of writes does to a map |
| `Durability.dfy` | the store as a state machine over its system calls, with failures and crashes |
| `Writers.dfy` | interleaved writers on distinct keys |
| `Formats.dfy` | the file formats byte by byte, and recovery from any files |
| `SlidingWindow.dfy`, `Wal.dfy`, `Store.dfy` | the classes, tied to the state machine |
| `Trails.dfy` | the files of a store, computed from its writes and their moments alone |
| `Progress.dfy` | stretches of the store's life put end to end, and along trails |
| `Locks.dfy` | the locking protocol of the server's threads |
| `Resp.dfy`, `RespStream.dfy`, `RespForms.dfy` | the RESP reader, its behaviour on a stream, and on requests of every form |
| `Server.dfy`, `Client.dfy`, `EndToEnd.dfy` | the message handler over the persistent store, the client, and both together over crashes |

## Main results

- **Durability over whole runs** (`Durability.DurableRuns`). The machine has any number of writers, each an
  append followed later by a memory update; snapshots one file operation at a time; failing file operations;
  torn and short writes to the log; crashes; restarts. After every safe run the disk recovers to the map of
  all logged writes. A step is safe when it meets a condition the code relies on but does not enforce; what a
  written snapshot contains is not among these conditions but proved.
- **Interleaved writers** (`Writers.OrderlyRuns`). When writers in flight keep to distinct keys and snapshots
  wait for them, every run is safe, whatever the order of the updates. Snapshots of an empty map are allowed
  while no older file holds anything.
- **Exact conditions.** For each condition an if-and-only-if lemma says when breaking it loses data
  (`CrashAfterUnlinkIff`, `ApplyOutOfTurnIff`, `ClearIff`, `ClearWithPendingIff`, `ClearEmptyIff`,
  the `Append...Iff` lemmas for torn tails, `WalCodec.RoundTripIff`, `SnapshotCodec.SnapshotRoundTripIff`).
  Six runs from an empty directory reach such states.
- **Refinement.** Every method of the persistent store performs a run of that machine, also when snapshot
  files cannot be written, and between calls fewer than 500 writes are unsnapshotted, at most 100 of them
  from the last second.
- **CRC-32.** The table-driven loop computes the bitwise CRC, and every burst of up to 32 bits is detected,
  for messages of any length. The digits one to nine have the check value 0xCBF43926.
- **Formats.** Records, snapshot files, replies and command names are given as literal bytes, and recovery is
  given for every pair of files: a refused snapshot, damaged, cut off or foreign, counts as none.
- **Streams.** Later bytes cannot change a parsed command if and only if it is settled, that is, no token
  that decides it came from a length below -1 (`RespStream.ParseStableIff`). Cutting a settled stream into
  messages differently changes neither replies nor state; for every unsettled command there is a stream for
  which it does. The handler's loop ends exactly when no command leaves the buffer as it was
  (`RespStream.DrainEndsIff`), and there is a command that does (`RespStream.SpinOccurs`).
- **Trails** (`Trails.dfy`). From the writes and their moments alone one can compute when snapshots are taken,
  what the files then hold and what a restart recovers, also when snapshot files fail or a snapshot loses
  something. A restart brings the map back if and only if the writes since the log was last empty decide every
  key on which the snapshot file and the memory of that time differ (`Trails.KeptIff`).
- **End to end** (`EndToEnd.dfy`). Client, network, handler and persistent store together: a session over
  arbitrarily cut streams answers like a plain map and makes a run of the state machine that logs just its
  writes (`RunSession`). Any number of processes over one directory answer exactly as the trail foretells
  (`Lives`), and like one plain map if every restart brings the map back (`LivesAreOne`). When a process dies
  inside a call, at any system call or inside an append, the next one answers from the map of all answered
  calls, with or without the one cut short (`CrashInside`, `DiesInside`).
- **Deadlock freedom** for any number of handler threads, each with any messages and calls, whether or not
  waiting writers block readers.

## Where the code and its comments differ

The model follows the code.

- `include/common/protocol.h:63-64` says syntax errors have type UNKNOWN. The code builds them with a
  value-initialised type, which is SET, so the server then reads a missing argument
  (`RespStream.UnknownName`, `RespStream.ShortSet`, `Server.NotUnderstood`).
- `src/common/snapshot.cpp:280` counts 17 bytes as the minimum and compares with 13. A file of 14 to 16
  bytes can make the reader run past its buffer (`SnapshotCodec.OutOfBoundsIff`).
- `src/common/snapshot.cpp:257-261` speaks of fsync and an atomic rename. There is no fsync, and the old file
  is deleted before the rename (`Durability.CrashLosesSnapshot`).
- `include/storage/persistent_kv_store.h:46` promises a final snapshot in the destructor. There is none.
- `src/storage/persistent_kv_store.cpp:196-201` ignores whether the snapshot could be written and clears the
  log in any case (`Durability.FailedSnapshotLosesWrites`, `Durability.EmptiedMapReturns`).
- `src/common/wal.cpp:262-266` speaks of append mode. The file is not opened that way, and a torn tail is
  never cut off (`Durability.TornTailLosesWrite`).
- A bulk length below -1 is not refused by `src/common/protocol.cpp:45-57` (`RespStream.SplitMatters`,
  `RespStream.SpinOccurs`).

## Model

| member | source | states |
|---|---|---|
| `Crc32.MakeTable` | src/common/crc32.cpp:10-16 | the loop gives the table entry: the index clocked through eight steps of the shift register |
| `Crc32.Crc32Table.constructor` | src/common/crc32.cpp:18-25 | all 256 entries are right |
| `Crc32.Crc32Table.Crc32Byte` | src/common/crc32.cpp:30-32 | one table lookup equals feeding the byte's eight bits one at a time |
| `Crc32.Crc32Table.Crc32` | src/common/crc32.cpp:37-44 | the table-driven loop computes the bitwise CRC-32 of any message |
| `Crc32.Crc32Table.VerifyChecksum` | src/common/crc32.cpp:77-81 | accepts exactly when the stored four bytes are the CRC of the data before them |
| `Crc32.TableByte` | src/common/crc32.cpp:30-32 | for every register and byte, lookup and shift by eight equal eight bit steps |
| `Crc32.ReadOfWritten` | src/common/crc32.cpp:62-75 | reading back a written checksum gives it, whatever follows |
| `Crc32.WrittenOfRead` | src/common/crc32.cpp:62-75 | writing a read checksum gives the bytes read, so the two are inverse |
| `Crc32.BurstChangesRegister` | src/common/crc32.cpp:37-44 | two bit streams of any length that differ only within 32 consecutive bits leave different registers |
| `Crc32.VerifiesIff` | src/common/crc32.cpp:77-81 | data verifies if and only if it is some message followed by that message's checksum |
| `Crc32.DamageChangesChecksum` | src/common/crc32.cpp:37-44 | a burst of up to 32 bits always changes the checksum |
| `Crc32.DamageDetected` | src/common/crc32.cpp:77-81 | a verifying block with a burst of up to 32 bits anywhere, checksum included, no longer verifies |
| `Crc32.FourByteWindow` | src/common/crc32.cpp:77-81 | changing any bytes within four consecutive ones is such a burst |
| `Crc32Residue.VerifiesIffResidue` | src/common/crc32.cpp:77-81 | data verifies if and only if running the register over data and checksum ends in 0xDEBB20E3 |
| `Crc32Check.CheckValue` | src/common/crc32.cpp:37-44 | the message "123456789" has checksum 0xCBF43926 |
| `Crc32Check.EmptyChecksum` | src/common/crc32.cpp:37-44 | the empty message has checksum zero |
| `Crc32Check.PresetComplements` | src/common/crc32.cpp:37-44 | for every message of at least four bytes, starting from all ones is starting from zero with the first 32 bits complemented |
| `WalCodec.DecodeIff` | src/common/wal.cpp:109-162 | decoding gives a record and a length exactly when the record fits the format and its encoding starts the bytes |
| `WalCodec.RoundTripIff` | src/common/wal.cpp:78-162 | encode then decode gives the record back if and only if key and value have at most 65535 bytes each |
| `WalCodec.PrefixFree` | src/common/wal.cpp:78-106 | no byte string starts with the encodings of two different records |
| `WalCodec.ReadAllIff` | src/common/wal.cpp:344-362 | reading a log gives exactly the longest sequence of records whose encodings, joined, start the file |
| `WalCodec.ReadAllMaximal` | src/common/wal.cpp:344-362 | every record sequence whose log starts the file is a prefix of what is read |
| `WalCodec.ReadAllOfLog` | src/common/wal.cpp:344-362 | records appended one after another are all read, in order, and then whatever follows is read |
| `WalCodec.LogInjective` | src/common/wal.cpp:78-106 | different record sequences give different logs |
| `WalCodec.TornTail` | src/common/wal.cpp:344-362 | a log that ends in any strict prefix of a record reads as the complete records before it |
| `WalCodec.DamagedRecordRefused` | src/common/wal.cpp:109-162 | a record with a burst in its body, or a wrong stored checksum, is refused when the length fields are intact |
| `WalCodec.DamageStopsReading` | src/common/wal.cpp:344-362 | reading stops just before such a record and returns everything earlier |
| `WalCodec.AppendAfterTornByte` | src/common/wal.cpp:344-362 | behind one torn byte, a record whose displaced key length overruns the file is lost with all that follows |
| `WalCodec.AppendInsideTornRecord` | src/common/wal.cpp:344-362 | behind a torn record nothing is read until as many bytes follow as that record lacks |
| `WalCodec.TornRecordFilled` | src/common/wal.cpp:109-162 | once enough bytes follow a torn record with intact lengths, it decodes with them filled in exactly when that leaves its checksum as it was |
| `WalCodec.NearlyCompleteRecord` | src/common/wal.cpp:109-162 | a torn record lacking at most four bytes decodes exactly when just those bytes follow; any others are refused |
| `Formats.RecordBytes` | src/common/wal.cpp:78-106 | a record is, byte by byte, the checksum of what follows, the operation, and key and value behind lengths with the low byte first |
| `Formats.OperationBytes` | include/common/wal.h:12-15 | SET is operation 1, DEL operation 2 |
| `Formats.OperationEffects` | src/storage/persistent_kv_store.cpp:108-117 | replaying operation 1 sets the key, operation 2 removes it, any other changes nothing |
| `Formats.ChecksumField` | src/common/crc32.cpp:62-68 | byte i of a written checksum holds bits 8i to 8i+7 |
| `Formats.EntryBytes` | src/common/snapshot.cpp:85-108 | an entry is, byte by byte, key and value behind their lengths and the checksum of these |
| `Formats.SnapshotLayout` | src/common/snapshot.cpp:206-233 | a file starts with 75 86 83 78 80 1 0 0 0 and the four bytes of the count, lowest first, then entries, then the checksum of everything before |
| `Formats.ReadField32` | src/common/snapshot.cpp:316-334 | a 32-bit field is read with the lowest byte first |
| `SnapshotCodec.DecodeEntryIff` | src/common/snapshot.cpp:110-153 | decoding gives an entry and a length exactly when the entry fits and its encoding starts the bytes |
| `SnapshotCodec.DecodeEntriesIff` | src/common/snapshot.cpp:338-352 | the loop gives a list exactly when it has the announced length, fits, and its encoding starts the data |
| `SnapshotCodec.ReadSnapshotIff` | src/common/snapshot.cpp:269-355 | any file loads as a list exactly when it has more than 13 bytes, a right checksum, a header for that list and its entries, with ignored bytes allowed before the checksum; a file of 14 to 16 bytes loads only as the empty list |
| `SnapshotCodec.OutOfBoundsIff` | src/common/snapshot.cpp:280-352 | exactly which files make the reader run past its buffer: 14 to 16 bytes, right checksum, good header, count above zero |
| `SnapshotCodec.OutOfBoundsOccurs` | src/common/snapshot.cpp:280-352 | there is such a file for every nonzero low byte of the count |
| `SnapshotCodec.SnapshotRoundTripIff` | src/common/snapshot.cpp:204-355 | a written snapshot loads as what was written if and only if the fields fit 16 bits and the count 32 bits |
| `SnapshotCodec.TruncatedSnapshot` | src/common/snapshot.cpp:269-355 | every strict prefix of at least 17 bytes is refused |
| `SnapshotCodec.ShortPrefix` | src/common/snapshot.cpp:280-308 | a shorter prefix is refused exactly when it has at most 13 bytes or its last four fail as checksum |
| `SnapshotCodec.DamagedSnapshot` | src/common/snapshot.cpp:304-308 | a burst of up to 32 bits anywhere in the file is refused |
| `Replay.ReplayedAt` | src/storage/persistent_kv_store.cpp:108-117 | after a replay each key has what its last write left, or what it had before |
| `Replay.SameReplayIff` | src/storage/persistent_kv_store.cpp:108-117 | two maps replay to the same map exactly when they agree on every key the log does not touch |
| `Replay.ReplayIdempotent` | src/storage/persistent_kv_store.cpp:108-117 | replaying a log over its own result changes nothing |
| `Replay.SnapshotNeededIff` | src/storage/persistent_kv_store.cpp:93-117 | the snapshot can be dropped exactly when the log touches all its keys |
| `Replay.AnyOrder` | src/storage/persistent_kv_store.cpp:120-153 | writes to distinct keys give the same map in any order |
| `Replay.ApplyFirstIff` | src/storage/persistent_kv_store.cpp:120-153 | applying one write ahead of others ends in the same map exactly when it does not overtake a different last write to its key |
| `Durability.LoadEnumerated` | src/storage/persistent_kv_store.cpp:98-100 | loading any listing of a map, in any order, gives the map |
| `Durability.AppendKeeps` | src/common/wal.cpp:287-301 | a complete append keeps the invariant and leaves the log ending in a whole record |
| `Durability.TornAppendKeeps` | src/common/wal.cpp:445-458 | a crash after any part of an append keeps the invariant |
| `Durability.ShortWriteKeeps` | src/common/wal.cpp:445-458 | a log write that takes only part of a record, without a crash, keeps the invariant and what is read from the log |
| `Durability.RenameKeeps` | src/common/snapshot.cpp:261-264 | with the new snapshot in place and the old log still there, recovery still gives every logged write |
| `Durability.ClearKeeps` | src/common/wal.cpp:370-387 | clearing the log with no write in flight loses nothing: after a rename without further condition, after a skipped snapshot if the old file is empty, after a failure if the log changes nothing in the old file |
| `Durability.RestartKeeps` | src/storage/persistent_kv_store.cpp:90-118 | recovery brings memory to the map of all logged writes |
| `Formats.RecoveredFromDamaged` | src/storage/persistent_kv_store.cpp:90-118 | behind a written snapshot with a burst of up to 32 bits anywhere, recovery is the replay of the log alone |
| `Formats.RecoveredFromTruncated` | src/storage/persistent_kv_store.cpp:90-118 | so it is behind one cut off from 17 bytes on |
| `Formats.RecoveredFromForeign` | src/storage/persistent_kv_store.cpp:90-118 | and behind any file that is too short, has a wrong trailing checksum, or starts with another magic word or version |
| `Formats.RecoveredFromSnapshot` | src/storage/persistent_kv_store.cpp:90-118 | behind a file that holds entries under a right checksum, the log is replayed over these entries |
| `Formats.LastEntryCounts` | src/storage/persistent_kv_store.cpp:98-100 | of several entries with one key the last one counts |
| `Durability.StepKeeps` | src/storage/persistent_kv_store.cpp:90-206 | every safe step of the machine keeps the invariant |
| `Durability.DurableRuns` | src/storage/persistent_kv_store.cpp:64-206 | after every safe run from an empty directory, recovery gives the map of all logged writes, except between unlink and rename; memory with the writes in flight always gives it; of a clear after a rename only that no write is in flight is asked |
| `Writers.OrderlyRuns` | src/storage/persistent_kv_store.cpp:120-206 | every run whose writers in flight have distinct keys, with fitting writes behind a clean log and snapshots that start with none in flight, of a map that is not empty or while no older file holds anything, is safe, and recovery equals memory with the pending writes in any order |
| `Durability.CrashAfterUnlinkIff` | src/common/snapshot.cpp:261-262 | a crash between unlink and rename is harmless exactly when the log touches every key of the old snapshot |
| `Durability.ApplyOutOfTurnIff` | src/storage/persistent_kv_store.cpp:121-128 | memory stays right exactly when a writer does not overtake another on its key |
| `Durability.ClearIff` | src/storage/persistent_kv_store.cpp:196-201 | however the snapshot went, clearing the log keeps every write exactly when each write in it leaves its key as the snapshot file has it |
| `Durability.ClearWithPendingIff` | src/storage/persistent_kv_store.cpp:185-201 | behind a new snapshot the clear loses nothing exactly when the writes in flight would not change memory |
| `Durability.ClearEmptyIff` | src/storage/persistent_kv_store.cpp:196-201 | clearing the log of an empty map is right exactly when the old snapshot is empty too |
| `Durability.AppendAfterTornIff` | src/common/wal.cpp:260-301 | behind a torn tail a write is durable exactly when what tail and record decode to has the write's effect |
| `Durability.AppendAfterRefusedIff` | src/common/wal.cpp:260-301 | behind any tail that does not decode together with the new record, the write is durable exactly when it changes nothing |
| `Durability.AppendAfterTornByteIff` | src/common/wal.cpp:260-301 | one torn byte in front of a write with an overrunning displaced length is such a tail |
| `Durability.AppendInsideTornIff` | src/common/wal.cpp:260-301 | so is a torn record with intact lengths that lacks more bytes than the write has |
| `Durability.AppendFillsTornIff` | src/common/wal.cpp:260-301 | a torn record with intact lengths that the write fills up is read back filled in exactly when its checksum survives, and then the write is durable exactly when that record and what the write's remaining bytes decode to have its effect; otherwise exactly when it changes nothing |
| `Durability.AppendCompletesTornIff` | src/common/wal.cpp:260-301 | with at most four bytes missing, the torn write comes back exactly when the new record starts with those bytes, with the exact condition for the new write to be durable in both cases |
| `Durability.EmptiedMapReturns` | src/storage/persistent_kv_store.cpp:196-201 | for every key and value there is a run after which memory is empty and recovery brings the pair back |
| `Durability.RacingWritersDiverge` | src/storage/persistent_kv_store.cpp:121-128 | for every key and two values there is a run that leaves one in memory and the other on disk |
| `Durability.CrashLosesSnapshot` | src/common/snapshot.cpp:260-264 | there is a run in which a crash loses a write that an earlier snapshot held |
| `Durability.SnapshotLosesWrite` | src/storage/persistent_kv_store.cpp:185-201 | there is a run in which a snapshot drops a write that is in memory |
| `Durability.TornTailLosesWrite` | src/common/wal.cpp:260-301 | for every torn record, and every key of 1 to 255 bytes with a value less than 255 times as long, there is a run with a torn append and a restart after which the pair is in memory and not on disk |
| `Durability.FailedSnapshotLosesWrites` | src/storage/persistent_kv_store.cpp:196-201 | for every pair there is a run with a snapshot file that cannot be opened after which it is in memory and not on disk |
| `SlidingWindow.Window.Count` | src/storage/persistent_kv_store.cpp:38-53 | the scan from the newest stamp that stops early counts all stamps of the window |
| `SlidingWindow.Window.IsExceeded` | src/storage/persistent_kv_store.cpp:20-36 | true exactly when more than the allowed number of stamps lie in the window |
| `Wal.WAL.Init` | src/common/wal.cpp:204-236 | opens with descriptor and recorded write position at the end, or degrades to a disabled log; the file stays as found |
| `Wal.WAL.Append` | src/common/wal.cpp:287-301 | although the file is not opened for appending, the record lands at its end; the recorded write position stays exact unless part of a record was written; a short write leaves that part and throws; a descriptor elsewhere overwrites, a missing one throws |
| `Wal.ParseLog` | src/common/wal.cpp:344-362 | the parse loop computes the longest good record sequence |
| `Wal.WAL.ReadAll` | src/common/wal.cpp:313-363 | the longest good record sequence of what can be read, through short reads; descriptor and write position are exact afterwards exactly when everything was read |
| `Wal.WAL.GetFileSize` | src/common/wal.cpp:401-414 | the length, with the descriptor put back where it stood and the write position still exact |
| `Wal.WAL.ClearWithoutLock` | src/common/wal.cpp:370-387 | the file is empty with descriptor and write position at zero; if it cannot be reopened, it throws and leaves the file with no descriptor |
| `Store.BuildSnapshot` | src/common/snapshot.cpp:206-233 | the appending loop builds the snapshot format |
| `Store.ParseSnapshot` | src/common/snapshot.cpp:304-354 | the checks and the entry loop compute the reading function, including the case that reads past the buffer |
| `Store.ListEntries` | src/storage/persistent_kv_store.cpp:188-193 | every pair of the map, each key once |
| `Store.PersistentKvStore.constructor` | src/storage/persistent_kv_store.cpp:64-84 | starting over any found files is the machine's restart step, unless reading the snapshot runs past the buffer, and it tells which |
| `Store.PersistentKvStore.Recover` | src/storage/persistent_kv_store.cpp:90-118 | memory becomes what the machine calls the recovered map and the files do not change, unless reading the snapshot runs past the buffer |
| `Store.PersistentKvStore.Set` | src/storage/persistent_kv_store.cpp:120-134 | a run of the machine; the key is set; exactly when a snapshot follows, what the files hold then, and when something is lost; if safe and nothing was lost, recovery gives exactly memory and all logged writes; a log that takes part of the record throws and changes nothing else |
| `Store.PersistentKvStore.Delete` | src/storage/persistent_kv_store.cpp:136-153 | the same for a removal, with the answer whether the key was there |
| `Store.PersistentKvStore.CheckSnapshotTrigger` | src/storage/persistent_kv_store.cpp:155-171 | a snapshot is taken exactly at 500 writes or at more than 100 within 1000 milliseconds, afterwards neither limit is exceeded, and something is lost exactly when a snapshot leaves a file that does not give the map |
| `Store.PersistentKvStore.CreateSnapshot` | src/storage/persistent_kv_store.cpp:173-206 | the file steps, failing ones included, are steps of the machine; memory is untouched, the file is exactly what the map and the failure say, the log is empty in any case, the counters are reset |
| `Store.PersistentKvStore.ForceSnapshot` | src/storage/persistent_kv_store.cpp:208-210 | as above, and recovery gives exactly memory unless the log was cleared without a file that gives the map |
| `Store.PersistentKvStore.WriteSnapshot` | src/common/snapshot.cpp:235-266 | the unlink and rename steps in the machine's order leave the whole file under its final name; a file that does not open or write leaves the old one, a failing rename leaves none |
| `Store.PersistentKvStore.WriteTemporary` | src/common/snapshot.cpp:238-258 | pieces of any size make the whole temporary file, or a failing write removes it |
| `Trails.KeptIff` | src/storage/persistent_kv_store.cpp:90-206 | a restart recovers the map in memory exactly when the writes since the log was last empty decide every key on which the snapshot file and the memory of that time differ |
| `Trails.KeptExtendedIff` | src/storage/persistent_kv_store.cpp:120-206 | from files that restore the map, a write leads to such files exactly when no snapshot leaves a file not giving the map |
| `Trails.FewWritesKeep` | src/storage/persistent_kv_store.cpp:155-171 | up to a hundred writes since the last snapshot take none and lose nothing |
| `Trails.HarmlessKeeps` | src/storage/persistent_kv_store.cpp:173-206 | nothing is lost when each snapshot taken can write its file, or is of an empty map with nothing in the older file |
| `Trails.DeletedKeyReturns` | src/storage/persistent_kv_store.cpp:155-206 | 101 SETs of any key and 101 DELs of it within one instant: memory is empty and a restart brings the key back |
| `Trails.ShownExtended` | src/storage/persistent_kv_store.cpp:120-206 | a store whose files and counters are where a trail says goes along it with every write, and loses something exactly when the trail says so |
| `Trails.ShownDisk` | src/storage/persistent_kv_store.cpp:90-118 | the files recover to what the trail restores |
| `Progress.WentOn` | src/storage/persistent_kv_store.cpp:120-206 | stretches put end to end are a stretch: their writes follow one another, their runs join, the whole is safe if its start is sound, the writes fit and nothing was lost, and it goes along every trail the start is on |
| `Progress.WentSafely` | src/storage/persistent_kv_store.cpp:120-206 | a good stretch is a safe run whose writes are its records, and recovering the disk at its end gives memory |
| `Locks.NoDeadlock` | src/storage/persistent_kv_store.cpp:120-206 | in every system of threads that take locks in order, some thread can step unless all have finished |
| `Locks.MutualExclusion` | src/storage/persistent_kv_store.cpp:120-206 | over every run a lock held exclusively is held by one thread only |
| `Locks.SnapshotAlone` | src/storage/persistent_kv_store.cpp:173-206 | while a thread takes a snapshot no other holds the log or the map, however the server's threads are scheduled |
| `Locks.ReadersShare` | src/storage/kv_store.cpp:10-46 | two threads that read, on any two shards, can hold the map's lock together |
| `Locks.WriteHolds` | src/storage/persistent_kv_store.cpp:120-206 | a write holds the log while it appends, the map while it updates, the window while it stamps and checks, and all three while it takes a snapshot |
| `Locks.HandlerOrdered` | src/server/kv_server.cpp:69-145 | a thread that handles any messages of any connections with any calls, snapshots included, takes locks in order and releases them all |
| `Locks.ServerNeverDeadlocks` | src/server/kv_server.cpp:69-145 | for any threads and any schedule: never stuck, at most as many steps as there are actions, and no lock is held at the end |
| `Resp.StoiOfDec` | src/common/protocol.cpp:45 | parsing a printed number gives it back exactly when it fits an int, and otherwise throws |
| `RespForms.FindCrlfIff` | src/common/protocol.cpp:21-29 | the search finds exactly the first place where 13 is followed by 10 |
| `RespForms.StoiReads` | src/common/protocol.cpp:45 | white space, a sign, digits and anything after are read as the number, and it throws exactly when that is not a 32-bit integer |
| `RespForms.StoiThrows` | src/common/protocol.cpp:45 | without digits it throws |
| `RespForms.FirstLine` | src/common/protocol.cpp:110-124 | a line not starting with * is refused and taken off; one that does throws without a number and is refused and taken off with a count of zero or below |
| `RespForms.BulkTakes` | src/common/protocol.cpp:33-58 | a bulk string is the announced number of bytes once two more have come, whatever those two are; until then it is missing |
| `RespForms.BulkGoesBack` | src/common/protocol.cpp:45-57 | a length of -1 never comes; a lower one takes all there is and moves the position back, or never comes if that is before the beginning |
| `RespForms.WaitsForever` | src/common/protocol.cpp:126-134 | an array whose first element is no bulk string, or one of length -1, is partial whatever follows |
| `RespForms.NameIff` | src/common/protocol.cpp:9-17 | a name is recognised in exactly the spellings of the literal letters in capitals and small letters |
| `RespForms.AnySpelling` | src/common/protocol.cpp:136-181 | a command in any spelling, with any further tokens, parses as that command with the tokens it uses |
| `RespForms.PrintedName` | src/common/protocol.cpp:84-95 | the client prints SET, GET, DEL, EXISTS, KEYS in capitals |
| `Resp.SerializeCommand` | src/common/protocol.cpp:84-95 | the loop builds the array of bulk strings that the round trip is about |
| `Resp.RespReader.TryParse` | src/common/protocol.cpp:106-182 | computes the parsing function and consumes exactly the parsed part; nothing is consumed on partial input |
| `RespStream.ParseStable` | src/common/protocol.cpp:106-182 | bytes that arrive later do not change the parse of a settled command |
| `RespStream.ParseStableIff` | src/common/protocol.cpp:106-182 | no later bytes change what was parsed if and only if the command is settled: no argument it uses came from a length below -1, nor did its name unless that starts no command's name |
| `RespStream.UnsettledSplit` | src/server/kv_server.cpp:74-98 | for every unsettled command there are bytes after which feeding in two pieces and feeding whole differ |
| `RespStream.ParseShrinksIff` | src/common/protocol.cpp:106-182 | a refused line is always consumed; a parsed command consumes something exactly when lengths below -1 have not led the position back to the start, and otherwise leaves the buffer as it was |
| `RespStream.DrainEndsIff` | src/server/kv_server.cpp:79-141 | the loop ends after finitely many rounds exactly when no command it reaches has announced lengths that lead the parser back to where the command began; exactly then the model does not report an endless loop |
| `RespStream.ChunkingIndependence` | src/server/kv_server.cpp:74-98 | feeding a settled stream in any pieces gives the same commands, the same rest and the same reason to stop as feeding it whole |
| `RespStream.CommandRoundTrip` | src/common/protocol.cpp:84-182 | a serialised command with the right number of arguments parses back, with anything after it left over, if its arguments fit an int, and otherwise throws |
| `RespStream.ArrayRoundTrip` | src/common/protocol.cpp:106-182 | any printed array followed by anything is classified by its tokens and leaves what follows, exactly when size and lengths fit an int; otherwise the parser throws |
| `RespStream.CommandPrefixWaits` | src/common/protocol.cpp:106-182 | every strict prefix of a serialised command is partial |
| `RespStream.UnknownName` | src/common/protocol.cpp:149-153 | an array with an unknown name parses as SET without arguments |
| `RespStream.ShortSet` | src/common/protocol.cpp:156-161 | so does a SET without a value, with the other error |
| `RespStream.MissingKey` | src/common/protocol.cpp:165-170 | a GET, DEL or EXISTS without a key reads a token that is not there |
| `RespStream.NegativeLength` | src/common/protocol.cpp:45-57 | after a length of -2 the token is whatever the buffer happens to hold |
| `RespStream.SplitMatters` | src/common/protocol.cpp:45-57 | so the same bytes parse as two different commands depending on how they arrive |
| `RespStream.SpinOccurs` | src/server/kv_server.cpp:79-141 | a KEYS with length -12 is parsed, leaves the buffer as it was, and keeps the loop going for every number of rounds |
| `Server.ServeAllIsServe` | src/server/kv_server.cpp:69-145 | replies, left-over bytes, store, commands executed and failure do not depend on how a settled stream is cut into messages |
| `Server.HandlingIsReplay` | src/server/kv_server.cpp:100-138 | handling any items changes the map exactly as replaying the records of the commands executed |
| `Server.HandledIff` | src/server/kv_server.cpp:79-138 | for any printed array: parsed and executed without a missing token or argument if and only if it is KEYS, GET, DEL or EXISTS with a key, or SET with key and value |
| `Server.NotUnderstood` | src/server/kv_server.cpp:79-138 | every other array takes the handler to a missing token or argument |
| `Server.ReplyBytes` | src/common/protocol.cpp:65-80 | every reply as literal bytes |
| `Server.RefusedLineAnswered` | src/server/kv_server.cpp:79-89 | a line that is no array header, or has a count of zero or below, is answered with the bytes of "-ERR protocol error" and the rest is handled as if it had not been there |
| `Server.Connection.Execute` | src/server/kv_server.cpp:100-138 | reply and store are those of the dispatch function, which has none where a missing argument is read; the persistent store makes a run that logs the command's record at its moment |
| `Server.Connection.OnMessage` | src/server/kv_server.cpp:70-143 | the loop over the persistent store answers all complete commands in order, keeps the rest and makes a run that logs just their records at their moments; it says why it stops where the code throws, reads something missing or goes round forever |
| `Client.ReceiveReply` | src/client/client.cpp:78-107 | the receive loop computes the receiving function |
| `Client.FrameExact` | src/client/client.cpp:82-100 | the client takes a reply as complete at its last byte and at no strict prefix |
| `Client.ReceiveWhole` | src/client/client.cpp:71-108 | a reply cut into any non-empty pieces is received whole |
| `Client.ReplyCutShort` | src/client/client.cpp:102-163 | a connection that ends before the whole reply has come gives false, no value or zero, however much has come and in whatever pieces |
| `Client.ErrorReply` | src/client/client.cpp:111-163 | an error reply gives false, no value or zero |
| `Client.DispatchIsMapCall` | src/server/kv_server.cpp:100-138 | the server's dispatch of each client request is the plain map operation, and that is the replay of its log record |
| `Client.DecodeResponse` | src/client/client.cpp:111-163 | what the client decodes from the server's reply is the plain map's answer |
| `Client.ServeCall` | src/server/kv_server.cpp:69-145 | a request cut into any messages is answered once, executed once, updates the map and leaves nothing in the buffer |
| `Client.SessionIsMap` | src/client/client.cpp:71-163 | a whole session, all streams cut arbitrarily, answers like a plain map |
| `EndToEnd.CallsAreReplay` | src/storage/persistent_kv_store.cpp:108-134 | what client calls do to the map is the replay of the records they log |
| `EndToEnd.Deliver` | src/server/kv_server.cpp:69-145 | messages delivered one after the other give the replies, buffer, map and log of the whole sequence, and one run of the machine |
| `EndToEnd.Ask` | src/client/client.cpp:71-163 | request, handler, persistent store and reply together: the client's answer is the plain map's, and the store logs the call's record |
| `EndToEnd.RunSession` | src/client/client.cpp:71-163 | a whole session: plain map answers, plain map in the store, and a run of the machine that logs just the session's writes |
| `EndToEnd.Restarted` | src/storage/persistent_kv_store.cpp:64-118 | a process started over any readable files, torn ones too, answers a session from the map they recover to and makes a run of its writes |
| `EndToEnd.LiveOnce` | src/storage/persistent_kv_store.cpp:64-206 | over the files of a trail a process answers from what the trail restores, leaves the files where the trail goes, and loses something exactly when the trail says so |
| `EndToEnd.Lives` | src/storage/persistent_kv_store.cpp:64-206 | any number of processes one after another over one directory give exactly the answers computed from calls and moments, whatever snapshots are taken, fail or lose |
| `EndToEnd.LivesAreOne` | src/storage/persistent_kv_store.cpp:64-206 | if every restart brings the map back, all of them together answer like one plain map that saw every call |
| `EndToEnd.SurvivesIff` | src/storage/persistent_kv_store.cpp:64-206 | the files of a session restore the plain map after it exactly under the condition of KeptIff, and always after at most a hundred writes or harmless snapshots |
| `EndToEnd.SessionSurvivesCrash` | src/storage/persistent_kv_store.cpp:64-206 | a session, a restart and a second session: the second is answered from what the first one's files restore, and both together like one plain map if that is its map |
| `EndToEnd.CrashInside` | src/storage/persistent_kv_store.cpp:120-206 | after any answered calls the process dies at any step of the next call or inside its append: the disk recovers to the plain map after the answered calls, with or without that call, unless it dies between unlink and rename with a log that does not decide every key of the deleted file |
| `EndToEnd.DiesInside` | src/storage/persistent_kv_store.cpp:64-206 | the same executed: session, call cut short at any step of its own run, restart over the bytes then on disk, and a second session answered from that map |

## Left out

- Sockets, epoll, the event loop, the order of messages and closing of connections: messages and received pieces are arbitrary parameters instead.
- The TCP server's `write_mutex_`, which `src/server/tcp_server.cpp:328` holds while a path to line 374 would take it again; nothing fills `write_buffers_`, so that path is not entered. Deadlock freedom is about handler threads.
- fsync, the sync thread and power loss: a crash is a process crash, and data handed to the file system stays.
- A log that could not be opened or cleared, below the persistent store: the log class has these cases, the store is modelled with an enabled log.
- Logger, configuration, command line, thread pool, benchmarks and the main programs; the logger's mutex is taken last and holds nothing else.
- Set and Delete of the in-memory base class (`src/storage/kv_store.cpp`), which the persistent store replaces; its reading operations are in the dispatch function and, as lock users, in Locks.
- Clocks: their readings are parameters that do not go backwards.
- Machine words: sizes and counts are unbounded except where the format truncates them or `stoi` checks them; `len + 2` does not overflow, as it would for buffers over 2 GB.
- Store.PersistentKvStore.Set: one caller at a time; interleaved writers are runs of the state machine (`Writers.OrderlyRuns`).
- Store.PersistentKvStore.Delete: one caller at a time, as for Set.
- Store.PersistentKvStore.CreateSnapshot: the log can be reopened for clearing.
- Server.Connection.OnMessage: the log takes whole records; replies collected before a failure are not part of the result, as the code never sends them; a loop without end is reported after its first round.
- Durability.AppendAfterTornIff: its condition speaks of what tail and record decode to; the lemmas after it replace that by conditions on lengths and checksums for tails with one byte and for torn records with intact length fields, and by refusal for all others.
- Durability.AppendAfterTornByteIff: one torn byte with an overrunning displaced length.
- Durability.AppendInsideTornIff: torn records with intact lengths; filled-up ones are in AppendFillsTornIff.
- WalCodec.AppendAfterTornByte: one torn byte with an overrunning displaced length.
- WalCodec.AppendInsideTornRecord: fewer bytes than the torn record lacks; TornRecordFilled has the rest.
- SnapshotCodec.ShortPrefix: prefixes of written files; ReadSnapshotIff and OutOfBoundsIff have all short files.
- EndToEnd.SessionSurvivesCrash: the process dies between calls; CrashInside and DiesInside have deaths inside a call.
- EndToEnd.DiesInside: asks that no snapshot before the death loses something, which the trail tells beforehand; Lives has the sessions in which one does.
- Server.Connection.Execute: the log takes whole records; the exception of a short write is in the store's Set and Delete.
- Store.PersistentKvStore.ForceSnapshot: the log can be reopened for clearing.
