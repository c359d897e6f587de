/** The classes keep what the value-level theorems promise: a start and a request on a safe disk. */
module Refinement {
  import opened Bytes
  import opened Text
  import opened Entries
  import opened FileSystem
  import opened WalRecord
  import opened Recovery
  import opened SSTable
  import opened TableNames
  import opened Engine
  import opened Invariant
  import opened CommandSafety
  import opened StartSafety
  import opened LiveState
  import opened LiveReads
  import opened CrashSafety
  import MemTable
  import M = Manifest
  import D = Database
  import P = Parser

  lemma GoodTombstones(space: set<bytes>, d: Data)
    requires GoodData(space, d)
    ensures MemTable.TombstonesEmpty(d)
  {
  }

  /** A rebuild on a safe disk only ever meets table files with proper keys. */
  lemma SafeIsRebuildable(c: Config, space: set<bytes>, d: Image, next: nat, tables: seq<Meta>, a: map<bytes, bytes>, m: nat)
    requires DiskOk(c, space, d, next, tables, a, m) && c.deletion.AsWritten?
    ensures M.Rebuildable(c.directory, d.files)
  {
    hide ManifestIs, ListOk, LogOk, Shows, AllOk, AllPresent, TableName, ParseTable, RecoverWal, FitsItem;
    forall name | name in d.files
      ensures exists i: nat :: i < TWO_64 && name == TableName(c.directory, i)
      ensures Load(d.files, name).Loaded? ==> [] !in Load(d.files, name).data
    {
      var i: nat :| i <= m && name == TableName(c.directory, i);
      assert GoodData(space, ContentsOf(d.files, TableName(c.directory, i)));
    }
  }

  /** On a safe disk either every listed table is there or a rebuild is well defined. */
  lemma SafeStartIsDefined(c: Config, space: set<bytes>, d: Image, a: map<bytes, bytes>, m: nat)
    requires Safe(c, space, d, a, m)
    ensures M.Rebuildable(c.directory, d.files)
            || (M.OnDisk(d.manifest).Contents? ==> AllPresent(d.files, M.OnDisk(d.manifest).tables))
  {
    hide DiskOk, M.Rebuildable;
    var next: nat, tables: seq<Meta> :| DiskOk(c, space, d, next, tables, a, m);
    DefinedOn(c, space, d, next, tables, a, m);
  }

  lemma DefinedOn(c: Config, space: set<bytes>, d: Image, next: nat, tables: seq<Meta>, a: map<bytes, bytes>, m: nat)
    requires DiskOk(c, space, d, next, tables, a, m)
    ensures M.Rebuildable(c.directory, d.files)
            || (M.OnDisk(d.manifest).Contents? ==> AllPresent(d.files, M.OnDisk(d.manifest).tables))
  {
    hide *;
    DiskParts(c, space, d, next, tables, a, m);
    ManifestReads(c.directory, d.manifest, next, tables);
    M.OnDiskIs(d.manifest);
    StructurePresent(c, space, d.files, next, tables);
    if c.deletion.AsWritten? {
      SafeIsRebuildable(c, space, d, next, tables, a, m);
    }
  }

  lemma RecoveredProcess(c: Config, space: set<bytes>, d: Image, a: map<bytes, bytes>, m: nat)
    requires ConfigOk(c, space) && Safe(c, space, d, a, m) && m + 1 < TWO_64
    ensures var s := Initialize(c, d);
            && s.Started? && AllSafe(c, space, s.trace, a, m + 1) && ProcessOk(c, space, s.process, a, m + 1)
            && Live(s.process.data) == a && MemTable.TombstonesEmpty(s.process.data)
  {
    hide *;
    StartSafe(c, space, d, a, m);
    RecoveredParts(c, space, d, Initialize(c, d), a, m + 1);
    ProcessParts(c, space, Initialize(c, d).process, a, m + 1);
    GoodTombstones(space, Initialize(c, d).process.data);
  }

  /** Constructing a database over a safe disk and initializing it recovers the map, safely at every step. */
  method RecoverSafely(c: Config, flushThreshold: nat, disk: Disk, ghost space: set<bytes>, ghost a: map<bytes, bytes>, ghost m: nat)
    returns (database: D.Database)
    requires ConfigOk(c, space) && Safe(c, space, disk.Now(), a, m) && m + 1 < TWO_64
    modifies disk
    ensures fresh(database) && fresh(database.memtable) && fresh(database.storage) && fresh(database.storage.manifest)
    ensures database.Valid() && database.config == c && database.disk == disk
    ensures ProcessOk(c, space, database.State(), a, m + 1) && Live(database.memtable.data) == a
    ensures |disk.trace| >= |old(disk.trace)| && AllSafe(c, space, disk.trace[|old(disk.trace)|..], a, m + 1)
    ensures m + 2 < TWO_64 ==> StateOk(c, space, Running(database.State()), true, a, m + 2)
  {
    if m + 2 < TWO_64 {
      StartedOk(c, space, disk.Now(), a, m);
    }
    database := new D.Database(c, flushThreshold, disk);
    SafeStartIsDefined(c, space, disk.Now(), a, m);
    RecoveredProcess(c, space, disk.Now(), a, m);
    hide AllSafe, ProcessOk, Safe, Live, StateOk, Engine.Initialize, M.Rebuildable, M.OnDisk, AllPresent;
    assert database.Wired() && (M.Rebuildable(database.config.directory, disk.files) || database.ListedPresent());
    var ok := database.Initialize();
  }

  /** The record a parsed PUT or DELETE logs. */
  function RecordOf(command: P.Command): Record
    requires command.Put? || command.Delete?
  {
    match command
    case Put(key, value) => Record(Put, key, value)
    case Delete(key) => Record(Delete, key, [])
  }

  /** What a PUT or DELETE needs for every disk state on its way to be one that a crash may leave. */
  ghost predicate Permitted(c: Config, p: Process, intact: bool, r: Record, a: map<bytes, bytes>)
  {
    && intact && ListsEntries(p.tables) && Appendable(Running(p), r)
    && (After(a, r) == map[] ==> !WillCompact(c, p, true))
  }

  lemma PermittedIs(c: Config, p: Process, intact: bool, r: Record, flush: bool, a: map<bytes, bytes>)
    requires Permitted(c, p, intact, r, a)
    ensures intact && ListsEntries(p.tables) && Appendable(Running(p), r)
    ensures WillCompact(c, p, flush) ==> After(a, r) != map[]
  {
    hide ListsEntries, Appendable, After, AllPresent;
  }

  /** The old map up to the log append, the new one from there on. */
  lemma PermittedKeeps(c: Config, space: set<bytes>, p: Process, intact: bool, r: Record, flush: bool, a: map<bytes, bytes>, m: nat)
    requires ConfigOk(c, space) && StateOk(c, space, Running(p), intact, a, m) && m + 2 < TWO_64
    requires Storable(space, r) && Permitted(c, p, intact, r, a)
    ensures SafeSplit(c, space, Engine.Command(c, p, r, flush).trace, |RecordBytes(r)| - 1, a, After(a, r), m + 2)
  {
    hide *;
    PermittedIs(c, p, intact, r, flush, a);
    RunningParts(c, space, p, intact, a, m);
    AppendableIs(space, Running(p), r);
    WriteSafe(c, space, p, r, flush, a, m);
  }

  lemma ReadsOf(c: Config, space: set<bytes>, p: Process, intact: bool, a: map<bytes, bytes>, m: nat, key: bytes)
    requires StateOk(c, space, Running(p), intact, a, m)
    ensures ReadKey(p, key) == if Lost(p, key) then Error else Answer(a, key)
  {
    hide *;
    RunningParts(c, space, p, intact, a, m);
    ReadsExactly(c, space, p, a, m, key);
  }

  /** The keys of parsed commands are words, so of a storable record only sizes and membership are left to ask. */
  predicate FitsTable(space: set<bytes>, command: P.Command)
  {
    match command
    case Put(key, value) => key in space && FitsItem(Item(key, Entry(value, false)))
    case Delete(key) => key in space && FitsItem(Item(key, TOMBSTONE))
    case _ => true
  }

  lemma FitsIsStorable(space: set<bytes>, command: P.Command)
    requires (command.Put? || command.Delete?) && FitsTable(space, command) && IsToken(command.key)
    ensures Storable(space, RecordOf(command))
  {
    hide IsToken;
  }

  /** A flush would find enough tables to merge and one of them missing. */
  predicate MergeFails(c: Config, p: Process)
  {
    |p.tables| + 1 >= c.compactionThreshold && |p.tables| + 1 >= 2 && !AllPresent(p.disk.files, p.tables)
  }

  lemma ReportOf(c: Config, space: set<bytes>, p: Process, r: Record, flush: bool, intact: bool, a: map<bytes, bytes>, m: nat)
    requires ConfigOk(c, space) && StateOk(c, space, Running(p), intact, a, m) && m + 2 < TWO_64 && Storable(space, r)
    ensures Engine.Command(c, p, r, flush).ok <==> !(flush && MergeFails(c, p))
  {
    RunningParts(c, space, p, intact, a, m);
    LiveCommand(c, space, p, r, flush, a, m);
    hide StateOk, Serves, Engine.Command, AllPresent, TablesOk, Logged, ProcessOk, ListsEntries, ConfigOk, Storable, After;
  }

  /**
   * One request message against a running database, whatever its log and its list are like. After a PUT or DELETE
   * the process is in order for the new map; if the write is permitted, the disk states on the way recover to the
   * old map up to the log append and to the new one from there on. A GET is answered exactly as `ReadsExactly`
   * says, and anything else changes nothing.
   */
  method ExecuteSafely(database: D.Database, input: bytes, ghost space: set<bytes>, ghost intact: bool, ghost a: map<bytes, bytes>, ghost m: nat)
    returns (response: Response, command: P.Command)
    requires database.Valid() && ConfigOk(database.config, space) && m + 2 < TWO_64
    requires StateOk(database.config, space, Running(database.State()), intact, a, m)
    modifies database.memtable, database.storage.manifest, database.disk
    ensures database.Valid() && command == P.Parse(input)
    ensures (command.Put? || command.Delete?) && FitsTable(space, command) ==>
              var r := RecordOf(command);
              var flushed := D.Count(Apply(old(database.memtable.data), r)) >= database.flushThreshold;
              StateOk(database.config, space, Running(database.State()),
                      flushed || (intact && Appendable(Running(old(database.State())), r)), After(a, r), m + 2)
              && response == if flushed && MergeFails(database.config, old(database.State())) then Error else Done
    ensures (command.Put? || command.Delete?) && FitsTable(space, command)
            && Permitted(database.config, old(database.State()), intact, RecordOf(command), a) ==>
              && |database.disk.trace| >= |old(database.disk.trace)|
              && SafeSplit(database.config, space, database.disk.trace[|old(database.disk.trace)|..],
                           |RecordBytes(RecordOf(command))| - 1, a, After(a, RecordOf(command)), m + 2)
    ensures !command.Put? && !command.Delete? ==>
              database.State() == old(database.State()) && database.disk.trace == old(database.disk.trace)
    ensures command.Get? ==> response == if Lost(old(database.State()), command.key) then Error else Answer(a, command.key)
  {
    hide ConfigOk, StateOk, Permitted, Engine.Command, P.Parse, ReadKey, Answer, IsToken, FitsTable, Lost, SafeSplit, RecordBytes, After, Appendable, Apply, MergeFails;
    command := P.ParseCommand(input);
    P.ParsedKeysAreTokens(input);
    ghost var before := database.State();
    response := database.Execute(command);
    if command.Get? {
      ReadsOf(database.config, space, before, intact, a, m, command.key);
    }
    if (command.Put? || command.Delete?) && FitsTable(space, command) {
      ghost var r := RecordOf(command);
      FitsIsStorable(space, command);
      ghost var flushed := D.Count(Apply(before.data, r)) >= database.flushThreshold;
      ReportOf(database.config, space, before, r, flushed, intact, a, m);
      ExecuteEvent(database.config, space, before, r, flushed, intact, a, m);
      if Permitted(database.config, before, intact, r, a) {
        PermittedKeeps(database.config, space, before, intact, r, flushed, a, m);
      }
    }
  }
}
