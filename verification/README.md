# ForgeDB, modelled and proved in Dafny

ForgeDB keeps a key-value map in a memtable, a write-ahead log, immutable sorted tables, a text MANIFEST that
lists the tables, and merges all tables into one when there are many. Clients talk to it through length-prefixed
frames. This project models the storage engine, its file formats and the connection, and proves what they keep
under crashes, damage and arbitrary cuts of a byte stream.

## How the model is built

* **Formats.** `Bytes`, `Serialization`, `Crc32`, `WalRecord`, `Recovery`, `SSTable`, `Text`, `ManifestText`,
  `TableNames`, `Parser` and `Protocol` give each format as functions on byte sequences and each reader and
  writer as a method with the source's loops and branches, proved to compute those functions. `CrcDivision` proves
  the checksum to be a remainder of polynomial division, and `KnownValues` pins formats byte for byte.
* **Disk.** `FileSystem.Disk` holds the log, the MANIFEST and the table files. Each primitive also records, in a
  ghost trace, every state a process crash could leave behind: an append or a table write may stop after any
  byte; a rename, a truncation and a removal are atomic.
* **Engine.** `Engine` writes flush, compaction, commands and startup as functions from a process to an effect:
  the disk states passed, the process afterwards, and success. The classes `MemTable`, `Manifest`, `Storage` and
  `Database` keep the source's fields and loops and are proved to follow those functions, disk trace included.
* **Crash safety.** `Invariant` says what holds of the disk between any two durable steps; `Frames`,
  `CommandSafety`, `LogReset` and `StartSafety` prove it kept. `LiveState` says what a running process keeps
  whatever becomes of its log and its list, and `LiveReads` what every key then reads as. `CrashSafety` concludes
  over whole runs of commands, crashes and restarts. `CompactionMeaning`, `TornTails` and `Limits` cover the
  deletion phase and the exact borders. `Refinement` carries the results back to the classes.
* **Connection.** `Connection` is one client's buffers and state, with `recv` and `send` answering from arbitrary
  scripts.

Overlaying the newer map `y` on the older map `x` is written `x + y`. `Live(d)` is the key-value map that a map of
entries and tombstones shows. `Expected(events)` is the plain map after a run: the completed PUTs and DELETEs in
order, and those interrupted ones whose log append had completed.

## What was found

The theorems are about the code as it is. Where it falls short of what its comments intend, the project proves
where exactly.

* **The deletion loop after a compaction** (`src/storage/storage.cpp:508-515`) runs over a reference to the
  manifest's own vector (line 395, `src/storage/manifest.cpp:288-292`). By then the vector holds only the new
  table, so the loop deletes the merged table's file and leaves the old ones; the comment at lines 505-507
  intends the opposite. `Config.deletion` selects the loop: `AsWritten` or `AsIntended`. Crash safety holds for
  both, because startup rebuilds the list from the directory when a listed file is missing. Reads in a
  running process are the plain map's with the intended loop. With the loop as written a GET is right if and only
  if its key is in the memtable, in a table flushed since, or ruled out by the merged table's metadata; otherwise
  it reports a read failure, until the next restart. Writes keep being acknowledged until the next compaction
  attempt, which fails.
* **A torn log tail** is accepted at startup but stays in the file. Every acknowledged append that follows survives
  a crash if and only if there is no such tail: behind a tail of any length some PUT is lost at the next start, or
  the start is refused. The tail does no harm to reads, nor to a crash once a flush has reset the log.
* **Record size.** The writer has no bound; the reader refuses payloads over 16 MiB. A log that ends in such a
  record (below 4 GiB) is refused at every start.
* **A compaction that leaves no live key** writes a MANIFEST line with empty keys, and no start can read it
  back until a later compaction has replaced that table. Reads stay right. After a command a restart succeeds if
  and only if the command did not delete the last live key and compact.
* **A rebuild while old files are being deleted** lists leftovers of earlier crashes too. It shows the right map if
  and only if none of the older files shows a key that the merged table lacks.
* **MANIFEST text** restores what was written if and only if names and keys are non-empty and free of white space
  and numbers fit 64 bits. The parser accepts only such keys.
* **An oversized frame length** drops whatever the buffer holds at that moment, so what is extracted afterwards
  depends on how the stream was cut. It is independent of the cut if and only if no such length comes before the
  stream's last byte.
* **A peer that closes** together with its last requests gets no answers: `handle_readable` closes before it
  processes what it just received (`src/network/connection.cpp:104-107`).
* **The last id of 64 bits.** After a rebuild the listed ids stay below the next id if and only if no table has
  the id 2^64 - 1.

## Conditions on runs

A run (`CrashSafety.IsRun`) starts from an empty disk. Its commands have parsed keys from some finite set and sizes
that a table can hold; nothing else is asked of a process that only goes on running. A crash asks that the log is
intact, meaning that every record since the last log reset was within the reader's bound and met no torn tail, and
that no empty table is listed. A crash inside a command asks the same of its append unless it falls behind the log
reset, and a live key left over if it falls into a compaction. A run has fewer than 2^63 events, so that table ids
fit 64 bits. Whether a command reaches the flush threshold is left open in a run, so the theorems hold for every
threshold. Crashes may fall between any two durable states of a command or of a start.

## Model

| member | source | states |
|---|---|---|
| CrashSafety.CrashSafe | src/database/database.cpp:94-233 | After any run of commands, crashes at any durable state and restarts, with either deletion loop: wherever the run may crash, a start succeeds and every key reads as in the plain map of completed commands and interrupted ones whose append completed |
| CrashSafety.LiveReadsExactly | src/database/database.cpp:133-174 | Whenever the process of a run is up, by either deletion loop, a GET answers as the plain map if and only if its key is in the memtable, in a newer listed table, or ruled out by the metadata of an oldest table whose file is gone; otherwise it reports a read failure |
| CrashSafety.LiveReadsAgree | src/database/database.cpp:133-174 | With the intended deletion loop every GET of every run answers as the plain map would, whatever torn tails, oversized records, flushes, merges to nothing, crashes and restarts came before |
| CrashSafety.WritesAreAcknowledged | src/database/database.cpp:94-131 | In every run a write reports success if and only if it does not both flush into a compaction and find a listed table missing; with the intended loop it always does |
| CrashSafety.RunOk | src/storage/storage.cpp:42-518 | After every run the process serves the expected map, and disk and list are in order unless the log or the list lacks what a start needs |
| CrashSafety.ExecuteEvent | src/database/database.cpp:94-233 | One command of a process in any state: it serves the new map, and a flush puts the log, a merge with a live key puts the list in order again |
| CommandSafety.WriteSafe | src/database/database.cpp:94-131 | Each durable state of a PUT or DELETE, its flush and its compaction recovers to the old map before the log append is complete and to the new map from then on |
| CommandSafety.AppendSafe | src/storage/wal.cpp:247-316 | A torn append leaves the old map, a whole one the new map |
| CommandSafety.FlushSafe | src/storage/storage.cpp:240-305 | Every durable state of a flush, the one between publish and log reset included, recovers to the same map |
| CommandSafety.CompactSafe | src/storage/storage.cpp:385-518 | Every durable state of a compaction that leaves a live key recovers to the same map, with either deletion loop |
| CompactionMeaning.ManifestStatesAgree | src/storage/storage.cpp:433-503 | The old tables, the old tables under the merged one, and the merged one alone show the same map although tombstones are dropped |
| LiveState.LiveCommand | src/database/database.cpp:94-131 | A PUT or DELETE a table can hold, whatever the log and whatever the merge leaves: the process serves the new map; when it reports success; when it ends with an empty table listed |
| LiveState.LiveCompact | src/storage/storage.cpp:385-518 | A compaction of tables that are all there, even to nothing, keeps the map the process serves, by either deletion loop |
| LiveState.ServesTables | src/storage/manifest.cpp:35-79 | With the intended loop a process that lists no empty table has all on disk that a start needs besides the log |
| LogReset.FlushHealsLog | src/storage/storage.cpp:296-302 | A flushing command, whatever its record and the log before it, leaves everything in order with an empty log, and is crash-safe from the reset on |
| LogReset.SafeUpToReset | src/storage/storage.cpp:240-305 | Up to the log reset a crash inside a flushing command is safe even if its compaction would merge to nothing |
| LogReset.SameBehindReset | src/storage/storage.cpp:296-302 | Whatever the log held before, a flushing command ends the same and passes the same states from the log reset on |
| StartSafety.StartSafe | src/database/database.cpp:29-65 | On every disk the invariant admits, a start succeeds, loads exactly the expected map, and passes only safe disk states itself |
| StartSafety.RebuildSafe | src/storage/storage.cpp:70-90 | When a listed table is missing, the rebuilt list together with the log shows the expected map |
| StartSafety.RebuiltOk | src/storage/manifest.cpp:140-286 | A rebuild lists readable, non-empty tables with increasing ids and metadata that describes them, and their fold is the directory's |
| LiveReads.SearchIsFold | src/storage/storage.cpp:344-380 | Searching newest first and stopping at the first hit, tombstones included, finds what overwriting oldest to newest loads, empty tables included |
| LiveReads.ReadsExactly | src/database/database.cpp:133-174 | Every GET of a process that serves a map: a read failure if the newest word on the key may be in a deleted file, the plain map's answer otherwise |
| LiveReads.ReadsAgree | src/database/database.cpp:133-174 | Memtable first, then tables, answers as the plain map while every listed table is there |
| LiveReads.ReadsAfterCompactAsWritten | src/storage/storage.cpp:505-515 | Right after a compaction by the loop as written a GET is right if and only if the merged metadata rule its key out, and live keys report a read failure |
| CompactionMeaning.SuffixUnderMerged | src/storage/storage.cpp:508-515 | Any newer suffix of the old tables under the merged table shows what all the old tables showed: no deleted key returns |
| CompactionMeaning.RebuildDuringDeletion | src/storage/manifest.cpp:224-276 | With the first k old files removed and no other readable file around, a rebuild lists exactly the remaining old tables and the merged one, and they show the same map |
| CompactionMeaning.RebuildRevivesExactly | src/storage/manifest.cpp:140-286 | With any other readable files around, a rebuild during the deletion shows the same map if and only if no older file shows a key that the merged table lacks |
| CompactionMeaning.RebuiltIsList | src/storage/manifest.cpp:140-286 | Without unlisted readable files a rebuild finds exactly the listed tables in the listed order |
| Limits.RestartAfterCommand | src/storage/manifest.cpp:35-79 | After a command that flushes, whatever the log was, or appends to a log in order, a restart succeeds if and only if the command did not delete the last live key and compact |
| Limits.StartsIffListsEntries | src/storage/manifest.cpp:49-67 | In a run with an intact log a start of the process's disk succeeds if and only if no listed table is empty, for a directory whose name does not begin like a number |
| Limits.EmptyCompactionFails | src/storage/manifest.cpp:319-328 | A compaction that finds nothing live leaves a MANIFEST that makes every start fail |
| Limits.AppendsSurviveIffClean | src/storage/recovery.cpp:175-186 | Every parsed command within the reader's bound that a process logs next survives a crash if and only if the log has no torn tail |
| Limits.AcknowledgedWriteIsLost | src/storage/recovery.cpp:175-186 | The start after a record of less than 256 bytes behind a torn tail of one to three bytes: refused behind three, without the record otherwise |
| TornTails.AppendsRecoverIffClean | src/storage/recovery.cpp:154-224 | Behind what a crash can leave of an append every following record is recovered if and only if that is nothing |
| TornTails.SomeAppendIsLost | src/storage/recovery.cpp:76-113 | Behind every torn tail, of any length, some parsed PUT that changes the map is lost |
| TornTails.OneOfTwoIsRefused | src/storage/recovery.cpp:101-113 | Of two records long enough to complete a torn one, and equal there but for the first byte, at least one is refused as damaged |
| Recovery.TornLog | src/storage/recovery.cpp:154-224 | A log cut at any byte replays exactly the whole records, with success when 0 to 3 bytes remain and an incomplete tail otherwise |
| Recovery.TornAppend | src/storage/recovery.cpp:38-126 | A log whose last append is torn replays all earlier records, is never Corrupted, and leaves the torn bytes over |
| Recovery.RecoversExactlyBoundedRecords | src/storage/recovery.cpp:65-74 | A last record is recovered if and only if its payload is within 16 MiB; otherwise the log is Corrupted after the earlier records |
| Recovery.DamagedRecordStopsRecovery | src/storage/recovery.cpp:101-113 | Damage within four bytes of a payload makes recovery Corrupted with only the earlier records replayed, whatever follows |
| Recovery.UnreadableRecordStopsRecovery | src/storage/recovery.cpp:68-123 | A length of zero or over 16 MiB, and a payload with a right checksum that is no record, make recovery Corrupted after the earlier records |
| Recovery.AppendBehindShortTailIsLost | src/storage/recovery.cpp:175-186 | The outcome of a scan over a record of less than 256 bytes behind a torn tail of one, two or three bytes |
| Recovery.AppendBehindLongTailIsLost | src/storage/recovery.cpp:76-99 | A record too short to complete the torn one in front of it is lost |
| Recovery.ReadRecordAt | src/storage/recovery.cpp:38-126 | Reading at a file position gives the record, end of file, incomplete or damaged exactly as the format says, and where the next one starts |
| Recovery.Recover | src/storage/recovery.cpp:130-225 | The scan loop returns the status and map of the specification every log theorem is about |
| WalRecord.DecodeOfPayload | src/storage/wal.cpp:33-168 | Decoding inverts encoding for exactly the records within the size bounds whose DELETEs carry no value |
| WalRecord.PayloadOfDecode | src/storage/wal.cpp:75-168 | Re-encoding an accepted payload gives the same bytes |
| WalRecord.DecodesExactly | src/storage/wal.cpp:12-16 | The bounds on key and value are 16 MiB each |
| KnownValues.LoggedBytes | src/storage/wal.cpp:247-316 | The bytes logged for a short record, literally: length, type, sized key, sized value, checksum of the payload |
| WalRecord.SerializeWalRecord | src/storage/wal.cpp:33-73 | The writer appends type, sized key and sized value |
| WalRecord.DeserializeWalRecord | src/storage/wal.cpp:75-168 | The reader with all its rejections equals the decoding the bijection lemmas are about |
| Crc32.Calculator.Initialize | src/storage/crc32.cpp:12-28 | The nested loops fill the static table with the register after eight bit steps for each byte, once; `StepDivides` says what a bit step is |
| Crc32.Calculator.Calculate | src/storage/crc32.cpp:30-44 | The table-driven loop equals the bit-at-a-time reflected CRC-32 of section 8 of RFC 1952 on every byte sequence; `RegisterIsTheRemainder` and `CheckValue` say which polynomial |
| Crc32.TableStep | src/storage/crc32.cpp:35-41 | One table lookup does the work of eight bit steps |
| BurstErrors.BurstChangesChecksum | src/storage/crc32.cpp:33-44 | Payloads of one length that differ only within four consecutive bytes have different checksums |
| BurstErrors.FourBytesInjective | src/storage/crc32.cpp:35-41 | From one register state, different strings of up to four bytes lead to different states |
| CrcDivision.RegisterIsTheRemainder | src/storage/crc32.cpp:12-44 | After any bytes the register is the one and only value that stands, bits reversed, for the remainder of start register and message, times x to the 32, divided by x^32+x^26+x^23+x^22+x^16+x^12+x^11+x^10+x^8+x^7+x^5+x^4+x^2+x+1 |
| CrcDivision.StepDivides | src/storage/crc32.cpp:16-22 | One bit step multiplies by x and subtracts the generator exactly when the degree reaches 32 |
| CrcDivision.RemainderIsUnique | src/storage/crc32.cpp:33-44 | A polynomial has one remainder of degree below 32 |
| KnownValues.CheckValue | src/storage/crc32.cpp:5-45 | The checksum of the digits 1 to 9 is 0xCBF43926 |
| Serialization.AppendUint32 | src/storage/serialization.cpp:14-25 | Appends the four little-endian bytes of the value |
| Serialization.AppendUint64 | src/storage/serialization.cpp:27-38 | Appends the eight little-endian bytes of the value |
| Serialization.ReadUint32 | src/storage/serialization.cpp:60-84 | Fails exactly when fewer than four bytes are left, else reads the value and moves on by four |
| Serialization.ReadUint64 | src/storage/serialization.cpp:86-110 | Fails exactly when fewer than eight bytes are left, else reads the value and moves on by eight |
| Bytes.U32OfLe32 | src/storage/serialization.cpp:14-84 | Reading the four bytes of a value gives the value modulo 2^32 |
| Bytes.Le32OfU32 | src/storage/serialization.cpp:14-84 | Writing what was read gives the four bytes back |
| Bytes.LessIsLexicographic | src/storage/sstable.cpp:308-315 | The key order is that of unsigned bytes at the first difference, a proper prefix coming first |
| SSTable.ParseOfTableBytes | src/storage/sstable.cpp:181-400 | Loading a written table restores the map, for exactly the maps whose sizes fit the format's fields |
| SSTable.TableFilesPrefixFree | src/storage/sstable.cpp:181-285 | No accepted table file is a proper prefix of another, whatever the checksum bytes |
| SSTable.TornTableRejected | src/storage/sstable.cpp:317-350 | Every proper prefix of a written table is rejected |
| SSTable.CountIsDetermined | src/storage/sstable.cpp:56-129 | A payload is accepted with at most one entry count |
| SSTable.DamagedTableRejected | src/storage/sstable.cpp:259-270 | Damage within four bytes of the entries is rejected |
| SSTable.GetAgreesWithTable | src/storage/sstable.cpp:427-476 | The lookup with its key-range shortcut agrees with a lookup in the whole map for every key |
| SSTable.SortedItemsUnique | src/storage/sstable.cpp:302-315 | Any vector with a map's entries in increasing key order is the one the format theorems speak of, so the sorting algorithm does not matter |
| SSTable.SerializeEntries | src/storage/sstable.cpp:22-54 | The entry loop writes the entries' bytes in order |
| SSTable.DeserializeEntries | src/storage/sstable.cpp:56-129 | Succeeds exactly when the count's entries use up the buffer, and then yields their overlay |
| SSTable.ReadEntry | src/storage/sstable.cpp:64-125 | One round of the reader's loop takes one entry or fails on a short buffer |
| SSTable.Parse | src/storage/sstable.cpp:181-285 | Magic, version, count, checksum and entries are checked as the table theorems assume |
| KnownValues.OneEntryTable | src/storage/sstable.cpp:317-350 | The bytes of a table file with one entry, literally: magic, version 2, count, sized key, tombstone byte, sized value, checksum |
| KnownValues.AcceptedTable | src/storage/sstable.cpp:181-285 | Every accepted file begins with these magic and version bytes, ends with its entries' checksum, and its entries use up what lies between |
| KnownValues.AnyFlagReads | src/storage/sstable.cpp:97-98 | Any tombstone byte but zero reads as a tombstone |
| KnownValues.LaterEntryCounts | src/storage/sstable.cpp:121-125 | Of two entries with one key the later one counts |
| SSTable.SortByKey | src/storage/sstable.cpp:302-315 | The result is increasing by key, in byte-lexicographic order, and has the same members |
| KnownValues.TwoEntryOrder | src/storage/sstable.cpp:302-315 | Of two keys the one with the smaller byte at their first difference is written first and recorded as smallest |
| SSTable.Build | src/storage/sstable.cpp:289-400 | Builds exactly the specified file, and metadata with its least and greatest key and its size |
| SSTable.Write | src/storage/sstable.cpp:289-400 | Puts that file on disk through every byte-wise prefix, and changes nothing else |
| SSTable.LoadTable | src/storage/sstable.cpp:402-425 | A missing or rejected file fails, otherwise its map is returned |
| SSTable.GetEntry | src/storage/sstable.cpp:427-476 | Empty table, range shortcut, load failure and hit are answered as the specification the agreement lemma is about |
| ManifestText.ReadOfPrint | src/storage/manifest.cpp:35-79 | Loading what persist wrote restores next id and tables if and only if names and keys are non-empty words and numbers fit 64 bits |
| ManifestText.EmptyTableBlocksLoad | src/storage/manifest.cpp:316-328 | A line for a table without keys, anywhere in the list, makes load fail, unless the next file name begins like a number |
| KnownValues.OneTableText | src/storage/manifest.cpp:316-328 | The text of a MANIFEST with one table, literally |
| KnownValues.TrailingText | src/storage/manifest.cpp:69-77 | Behind a printed MANIFEST load accepts blanks and refuses anything else |
| Text.ReadSigned | src/storage/manifest.cpp:37-59 | Numbers are read with a sign, a minus sign counting down from 2 to the 64 |
| Text.ReadTooLarge | src/storage/manifest.cpp:37-59 | Numbers of more than 64 bits are not read |
| TableNames.IdOfTableName | src/storage/storage.cpp:541-549 | Extracting the id from a printed file name gives the id back |
| TableNames.IdOfExactly | src/storage/manifest.cpp:160-196 | A path gives an id if and only if it is a file of the directory named "table_", something that begins like the number, ".sst" |
| KnownValues.TwelfthName | src/storage/storage.cpp:541-549 | The name of table 12, literally |
| TableNames.TableNameInjective | src/storage/storage.cpp:541-549 | Different ids have different file names |
| Manifest.RebuiltFromMembers | src/storage/manifest.cpp:264-276 | Any id-sorted list of the directory's tables is the rebuilt list: directory order does not matter |
| Manifest.RebuiltMembers | src/storage/manifest.cpp:140-286 | A rebuilt list has strictly increasing ids and exactly the readable, non-empty tables |
| Manifest.NextAfterOrders | src/storage/manifest.cpp:278-283 | After a rebuild the ids stay below the next id if and only if none is the last 64-bit number |
| Manifest.NextAfterIsLeast | src/storage/manifest.cpp:278-283 | The next id after a rebuild is the least above all listed ones |
| Manifest.KeyRange | src/storage/manifest.cpp:224-248 | The recomputed range: the greatest key, some key, and the least one unless the empty key is among them |
| Manifest.SortById | src/storage/manifest.cpp:264-276 | The result is increasing by id and has the same members |
| Manifest.ReadTables | src/storage/manifest.cpp:49-67 | The loop over table lines yields the specified list or fails on the first bad line |
| Manifest.Manifest.LoadFile | src/storage/manifest.cpp:22-80 | Succeeds exactly on readable text or no file, and then holds the text's contents |
| Manifest.Manifest.Persist | src/storage/manifest.cpp:298-349 | Success replaces the MANIFEST in one durable step by the text of list and counter; failure changes nothing |
| Manifest.Manifest.AddTable | src/storage/manifest.cpp:82-104 | New list and 64-bit counter on success, rollback on failure; ordered ids are kept either way if and only if the new id is not the last of 64 bits |
| Manifest.Manifest.RemoveTables | src/storage/manifest.cpp:106-138 | The list without the given ids on success, the old list on failure, and ordered ids kept either way |
| Manifest.Manifest.Examine | src/storage/manifest.cpp:150-262 | A directory entry under any name is passed over, or described by printed id, name, size and key range; for the engine's own files that is the recomputed metadata |
| Manifest.Manifest.ScanDirectory | src/storage/manifest.cpp:150-262 | The scan describes every entry that is not passed over and nothing else, and finds the largest id |
| Manifest.Manifest.RebuildFromDirectory | src/storage/manifest.cpp:140-286 | The descriptions of all entries in id order and the 64-bit successor of the largest id, persisted; for the engine's own files that is the rebuilt list of the model |
| FileSystem.Disk.AppendWal | src/storage/wal.cpp:280-316 | The log grows by the bytes, passing every byte-wise prefix |
| FileSystem.Disk.TruncateWal | src/storage/wal.cpp:333-378 | The log becomes empty in one step |
| FileSystem.Disk.RenameManifest | src/storage/manifest.cpp:339-348 | The MANIFEST is replaced in one step |
| FileSystem.Disk.WriteFile | src/storage/sstable.cpp:352-386 | The file gets the contents, passing every prefix from the empty file on |
| CommandSafety.FlushPasses | src/storage/storage.cpp:240-305 | The durable states of a flush one by one: every prefix of the table's bytes from none on, the new list over the whole file, the empty log |
| CommandSafety.CompactPasses | src/storage/storage.cpp:450-517 | The durable states of a compaction one by one: every prefix of the table's bytes, both lists, the new list, each deletion |
| CrashSafety.TornTableReached | src/storage/sstable.cpp:352-378 | A crash can leave exactly the first j bytes of the new table behind a complete record, for every j |
| CrashSafety.TornRecordReached | src/storage/wal.cpp:279-316 | A crash can leave exactly the first j bytes of a record at the end of the log, for every j |
| FileSystem.Disk.RemoveFile | src/storage/storage.cpp:508-515 | The file is gone in one step |
| Storage.OverlayInto | src/storage/storage.cpp:194-197 | Entry-wise overwriting gives the overlay, in whatever order entries are visited |
| Storage.EraseTombstones | src/storage/storage.cpp:440-448 | Exactly the live entries remain |
| Storage.Storage.AppendRecord | src/storage/wal.cpp:247-316 | The log grows by length, payload and checksum of the record |
| Storage.Storage.OpenManifest | src/storage/storage.cpp:58-90 | Loads the list, and exactly when a listed file is missing replaces it by the descriptions of the directory's entries |
| Storage.Storage.LoadTables | src/storage/storage.cpp:178-198 | Tables overlaid oldest to newest; one unreadable table fails all |
| Storage.Storage.LoadData | src/storage/storage.cpp:156-238 | Tables under the replayed log, or failure on an unreadable table or a corrupted log |
| Storage.Storage.FlushMemtable | src/storage/storage.cpp:240-305 | Disk, list and trace follow the flush that crash safety is proved for |
| Storage.Storage.GetFromSSTables | src/storage/storage.cpp:327-383 | The reverse search loop equals the specified search |
| Storage.Storage.CompactTables | src/storage/storage.cpp:385-448 | Result, disk, list and trace follow the compaction that crash safety is proved for |
| Storage.Storage.ReplaceTables | src/storage/storage.cpp:450-517 | Write, publish, unpublish and the configured deletion loop, state by state |
| MemTable.MemTable.Put | src/database/memtable.cpp:7-39 | Stores the value, keeps the byte count equal to the sum over the entries, and while the sum fits 64 bits never subtracts more than the count |
| MemTable.MemTable.Erase | src/database/memtable.cpp:41-69 | Stores an empty tombstone, keeps the byte count equal to the sum, and while the sum fits 64 bits never subtracts more than the count |
| MemTable.MemTable.Get | src/database/memtable.cpp:71-91 | Says whether the key is present, deleted, and with which value |
| MemTable.MemTable.Clear | src/database/memtable.cpp:93-96 | Empties the map and the count |
| MemTable.MemTable.Replace | src/database/memtable.cpp:98-106 | Takes over recovered data with a recomputed count |
| MemTable.MemTable.RecomputeSize | src/database/memtable.cpp:123-134 | The summing loop gives the sum over the entries, in any order, as a 64-bit number |
| MemTable.NoUnderflow | src/database/memtable.cpp:13-23 | What put and erase subtract is part of the sum over the entries, and the count is that sum while it fits 64 bits |
| MemTable.TotalBytesSplit | src/database/memtable.cpp:123-134 | Any entry can be taken off the sum, so the order of counting does not matter |
| MemTable.TotalBytesIs | src/database/memtable.cpp:123-134 | A value counts its own and its key's bytes, a tombstone its key's only |
| Database.Database.Initialize | src/database/database.cpp:29-65 | Startup follows the start that crash safety is proved for |
| Database.Database.FillMemtable | src/database/database.cpp:43-57 | Tables under the replayed log become the memtable, or the start fails on an unreadable table or a corrupted log |
| Database.Database.ExecutePut | src/database/database.cpp:94-131 | Log, memtable, flush and compaction follow the specified command, trace and answer included; a memtable below the threshold is only logged, one that is not ends with memtable and log empty |
| Database.Database.ExecuteGet | src/database/database.cpp:133-174 | Answers as the specified read |
| Database.Database.ExecuteDelete | src/database/database.cpp:176-211 | Log, memtable, flush and compaction follow the specified command, trace and answer included; a memtable below the threshold is only logged, one that is not ends with memtable and log empty |
| Database.Database.FlushMemtable | src/database/database.cpp:213-233 | Flushes and clears a non-empty memtable, and does nothing otherwise |
| Database.Database.CompactIfNeeded | src/database/database.cpp:235-247 | Compacts exactly from the table threshold on |
| Database.Database.Execute | src/database/database.cpp:67-92 | Each command's effect on the process, the disk trace and the answer: below the flush threshold exactly the log append, otherwise an empty memtable and log, so that the count stays below the threshold or the memtable is empty; reads and refusals change nothing |
| Database.CommandDecides | src/database/database.cpp:112-128 | The flush decision in terms of the bytes the memtable would hold, modulo 2 to the 64 |
| Refinement.RecoverSafely | src/database/database.cpp:29-65 | The class started on a safe disk holds exactly the expected map, passes only safe disk states, and is in order for what follows |
| Refinement.ExecuteSafely | src/database/database.cpp:67-211 | A request to the class in any state of a run: it serves the new map, answers GETs exactly, reports a write as it should, and a permitted write passes only disk states that recover to the old or new map |
| Parser.PutRoundTrip | src/command/parser.cpp:42-66 | The bytes of "PUT key value" parse to key and value if and only if the key is a word and the value a non-empty line |
| Parser.PutTail | src/command/parser.cpp:42-66 | PUT in any spelling: one blank directly behind the key is taken off the value, another separator stays, a newline ends it |
| Parser.KeyRoundTrip | src/command/parser.cpp:68-100 | The bytes of "GET key", "DEL key" and "DELETE key" parse to a read and to deletes of that key if and only if it is a word |
| Parser.GetParses | src/command/parser.cpp:68-82 | GET in any spelling and with any separator reads the key behind it, and is invalid if another word follows |
| Parser.DeleteParses | src/command/parser.cpp:84-100 | DELETE and DEL in any spelling delete the key behind them, and are invalid if another word follows |
| Parser.ExitParses | src/command/parser.cpp:102-110 | EXIT and QUIT in any spelling end the session, whatever follows |
| Parser.ArgumentMissing | src/command/parser.cpp:43-45 | PUT, GET, DEL and DELETE without a key are invalid |
| Parser.UnknownOperation | src/command/parser.cpp:112 | Every other operation is invalid |
| Parser.ParsedKeysAreTokens | src/command/parser.cpp:40-100 | Every accepted key is a non-empty word, every accepted value a non-empty line |
| Parser.ParseCommand | src/command/parser.cpp:27-113 | The parser's branches equal the grammar that the lemmas above decide for every message |
| Protocol.ExtractOfFrame | src/network/protocol.cpp:9-77 | A created frame is extracted as its payload, whatever follows |
| Protocol.StreamIndependence | src/network/protocol.cpp:32-77 | What is extracted and left over is the same for every cut of the stream if and only if no oversized length comes before its last byte |
| Protocol.FramesSurviveAnyCut | src/network/protocol.cpp:9-77 | Frames cut anywhere give exactly the finished payloads in order, and the unfinished bytes wait |
| Protocol.Extract | src/network/protocol.cpp:32-77 | A successful extraction removes at least four bytes, so draining ends |
| Protocol.MakeFrame | src/network/protocol.cpp:9-30 | Length and payload, or nothing for an oversized payload |
| KnownValues.FrameBytes | src/network/protocol.cpp:9-30 | The bytes of a frame, literally, or none for an oversized payload |
| KnownValues.OversizedDrops | src/network/protocol.cpp:53-56 | An oversized length drops everything received |
| Protocol.TryExtractFrame | src/network/protocol.cpp:32-77 | The extraction code with its partial and oversized cases equals the specification |
| Connection.ServeIsDrain | src/network/connection.cpp:130-166 | Each extracted request is answered by its own response, in order, until a response is too large |
| Connection.ServeStopsAtOverflow | src/network/connection.cpp:130-195 | Serving answers the requests up to the first whose response exceeds the limit, and closes if and only if there is one |
| Connection.AnswerAt | src/network/connection.cpp:150-164 | The k-th response is the handler's to the k-th request |
| Connection.TranscriptOfFrames | src/network/connection.cpp:77-284 | However frames arrive and responses are sent, sent bytes and waiting bytes are the frames of exactly the answers to the whole requests |
| Connection.Connection.QueueResponse | src/network/connection.cpp:168-195 | Frames the response behind the waiting output, or closes on an oversized one |
| Connection.Connection.ProcessMessages | src/network/connection.cpp:130-166 | Serves the buffered requests in order, and stops when dry or closed |
| Connection.Connection.ReceiveAll | src/network/connection.cpp:84-125 | Appends the chunks that recv delivers, in order, up to the first answer that is neither a chunk nor an interrupt, and closes if and only if that is the end of the stream or an error |
| Connection.Connection.HandleReadable | src/network/connection.cpp:77-128 | Chunks followed by a would-block are appended and every complete request is answered; the end of the stream or an error closes; conservation of responses is kept |
| Connection.Connection.HandleWritable | src/network/connection.cpp:212-284 | Sends exactly as many of the next bytes as send took, closes only on an error or a count of zero, keeps conservation, and returns to reading when all is out |
| Connection.Connection.SendAll | src/network/connection.cpp:217-264 | The offset moves by the sum of the counts that send took, and the connection closes if and only if an error or a count of zero comes while bytes wait |
| Connection.AdvancedAsTaken | src/network/connection.cpp:236-263 | What a script of send answers comes to, by the sum of its counts and the first answer that stops the loop |
| Connection.PartialSend | src/network/connection.cpp:236-250 | Three of ten bytes taken, then a would-block: seven still wait |
| Connection.DeliveredChunks | src/network/connection.cpp:93-124 | What a script of recv answers comes to, by its chunks and the first answer that stops the loop |

## Left out

- Database.Database.Initialize: on a directory that needs a rebuild, states the loaded map only when every file is named as a table by the engine and no readable table has the empty key, which every disk of a run satisfies (`Refinement.SafeStartIsDefined`).
- Manifest.Manifest.RebuildFromDirectory: two foreign files that print the same id may be listed in either order, as std::sort leaves them.
- Storage.Storage.FlushMemtable: table write, publish and log reset succeed; of I/O failures only missing and unreadable tables are modelled. `Manifest.Manifest.Persist` takes its outcome as a parameter, and its callers' rollback is proved for both.
- Storage.Storage.CompactTables: write, publish and unpublish succeed.
- Storage.Storage.ReplaceTables: write, publish and unpublish succeed.
- Storage.Storage.AppendRecord: the append succeeds.
- SSTable.Write: the file is created and written.
- Database.Database.ExecutePut: the append and the flush succeed.
- Database.Database.ExecuteDelete: the append and the flush succeed.
- Database.Database.FlushMemtable: the flush succeeds.
- Database.Database.Execute: appends and flushes succeed.
- Bytes.U32OfLe32: the log's length and checksum fields are written in the host's byte order by the source, taken as little-endian here.
- ASYNC durability: a log shortened by a crash between publish and reset can be replayed over newer tables.
- Power loss and fsync: crashes are those of the process, and completed writes stay.
- Header constants are not part of this model: thresholds and the message bound are parameters, the two log type bytes are 1 and 2 (only that they differ is used).
- std::sort and the iteration orders of hash maps and directories: insertion sorts and arbitrary choices stand in; uniqueness lemmas show the result does not depend on them.
- The static CRC table is one object's field here, and `Crc32.CalculateCrc32` makes a fresh object, so the table is filled once per call.
- Files are read as whole byte sequences; a missing log reads as an empty one, and read errors below that level do not occur.
- Exceptions from the message handler and texts of error messages: a handler is a function, and a response is a datatype.
- Threads and the global lock: each command is one atomic call.
- Sockets, the event loop, the server, the command-line client, snapshots, fault injection and directory creation.
