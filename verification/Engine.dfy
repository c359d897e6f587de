/**
 * The operations of storage.cpp and database.cpp as functions on values: what each does to the disk and
 * to memory, and which disk states it passes on the way. The classes in Storage.dfy and Database.dfy are
 * proved to follow these functions; CrashSafety.dfy and LiveReads.dfy prove what they are worth.
 */
module Engine {
  import opened Bytes
  import opened Entries
  import opened FileSystem
  import opened WalRecord
  import opened Recovery
  import opened SSTable
  import opened ManifestText
  import opened TableNames

  /**
   * The list the loop that deletes the merged tables' files runs over. As written it is a reference to the
   * manifest's own vector, which by then holds the new table only; its comment intends the old tables.
   */
  datatype DeletionLoop = AsWritten | AsIntended

  datatype Config = Config(directory: bytes, compactionThreshold: nat, deletion: DeletionLoop)

  /** A running process: its disk, its memtable, its copy of the MANIFEST. */
  datatype Process = Process(disk: Image, data: Data, tables: seq<Meta>, next: nat)

  /** An operation's outcome: the disk states passed, the process after it, and whether it reported success. */
  datatype Effect = Effect(trace: seq<Image>, process: Process, ok: bool)

  // ---------------------------------------------------------------------------
  // Reading
  // ---------------------------------------------------------------------------

  /** Tables laid over each other, oldest first; one unreadable table spoils the whole. */
  function LoadAll(files: Files, tables: seq<Meta>): TableResult
  {
    if tables == [] then Loaded(map[])
    else
      match LoadAll(files, tables[..|tables| - 1])
      case Rejected => Rejected
      case Loaded(older) =>
        match Load(files, tables[|tables| - 1].filename)
        case Rejected => Rejected
        case Loaded(newer) => Loaded(older + newer)
  }

  /** Newest table first, stopping at the first that knows the key. */
  function GetFromTables(files: Files, tables: seq<Meta>, key: bytes): Lookup
  {
    if tables == [] then Lookup.NotFound
    else
      match Get(files, tables[|tables| - 1], key)
      case NotFound => GetFromTables(files, tables[..|tables| - 1], key)
      case Found(entry) => Found(entry)
      case ReadFailed => ReadFailed
  }

  datatype Response = Done | Value(value: bytes) | Absent | Error | Bye | Refused

  function ReadKey(p: Process, key: bytes): Response
  {
    if key in p.data then
      if p.data[key].deleted then Absent else Value(p.data[key].value)
    else
      match GetFromTables(p.disk.files, p.tables, key)
      case NotFound => Absent
      case Found(entry) => if entry.deleted then Absent else Value(entry.value)
      case ReadFailed => Error
  }

  // ---------------------------------------------------------------------------
  // Writing
  // ---------------------------------------------------------------------------

  function LogWrite(p: Process, r: Record): Effect
  {
    var s := RecordBytes(r);
    Effect(AppendTrace(p.disk, s), p.(disk := p.disk.(wal := p.disk.wal + s), data := Apply(p.data, r)), true)
  }

  function WithManifest(d: Image, next: nat, tables: seq<Meta>): Image
  {
    d.(manifest := Some(Print(next, tables)))
  }

  /** The counter after a table of this id is added, in 64 bits. */
  function NextId(id: nat): nat
  {
    (id + 1) % TWO_64
  }

  /** Write the memtable to a new table, publish it, reset the log, clear the memtable. */
  ghost function Flush(c: Config, p: Process): Effect
  {
    if p.data == map[] then Effect([], p, true)
    else
      var name := TableName(c.directory, p.next);
      var tables := p.tables + [MetaOf(p.next, name, p.data)];
      var written := p.disk.(files := p.disk.files[name := TableBytes(p.data)]);
      var published := WithManifest(written, NextId(p.next), tables);
      var reset := published.(wal := []);
      Effect(WriteTrace(p.disk, name, TableBytes(p.data)) + [published] + [reset],
              Process(reset, map[], tables, NextId(p.next)), true)
  }

  /** The tables whose id is not listed. */
  function Without(tables: seq<Meta>, ids: set<nat>): seq<Meta>
  {
    if tables == [] then []
    else
      var last := tables[|tables| - 1];
      Without(tables[..|tables| - 1], ids) + if last.id in ids then [] else [last]
  }

  function Ids(tables: seq<Meta>): set<nat>
  {
    set t | t in tables :: t.id
  }

  function RemoveFiles(d: Image, tables: seq<Meta>): Image
  {
    if tables == [] then d
    else
      var before := RemoveFiles(d, tables[..|tables| - 1]);
      before.(files := before.files - {tables[|tables| - 1].filename})
  }

  function RemoveTrace(d: Image, tables: seq<Meta>): seq<Image>
  {
    if tables == [] then []
    else RemoveTrace(d, tables[..|tables| - 1]) + [RemoveFiles(d, tables)]
  }

  /** Write the merged table, publish it, unpublish the tables it replaces, delete files. */
  ghost function Replace(c: Config, p: Process, merged: Data): Effect
  {
    var name := TableName(c.directory, p.next);
    var both := p.tables + [MetaOf(p.next, name, merged)];
    var kept := Without(both, Ids(p.tables));
    var written := p.disk.(files := p.disk.files[name := TableBytes(merged)]);
    var published := WithManifest(written, NextId(p.next), both);
    var unpublished := WithManifest(published, NextId(p.next), kept);
    var victims := if c.deletion.AsWritten? then kept else p.tables;
    Effect(WriteTrace(p.disk, name, TableBytes(merged)) + [published] + [unpublished] + RemoveTrace(unpublished, victims),
           Process(RemoveFiles(unpublished, victims), p.data, kept, NextId(p.next)), true)
  }

  /** Merge all tables, oldest first, and keep the live entries in one table instead. */
  ghost function Compact(c: Config, p: Process): Effect
  {
    if |p.tables| < 2 then Effect([], p, true)
    else
      match LoadAll(p.disk.files, p.tables)
      case Rejected => Effect([], p, false)
      case Loaded(all) => Replace(c, p, DropTombstones(all))
  }

  ghost function MaybeCompact(c: Config, p: Process): Effect
  {
    if |p.tables| >= c.compactionThreshold then Compact(c, p) else Effect([], p, true)
  }

  /** A PUT or DELETE; `flush` says whether the memtable reached its threshold. */
  ghost function Command(c: Config, p: Process, r: Record, flush: bool): Effect
  {
    var logged := LogWrite(p, r);
    if !flush then logged
    else
      var flushed := Flush(c, logged.process);
      var compacted := MaybeCompact(c, flushed.process);
      Effect(logged.trace + flushed.trace + compacted.trace, compacted.process, compacted.ok)
  }

  // ---------------------------------------------------------------------------
  // Starting
  // ---------------------------------------------------------------------------

  predicate AllPresent(files: Files, tables: seq<Meta>)
  {
    forall i :: 0 <= i < |tables| ==> tables[i].filename in files
  }

  /** What the file of one id contributes to a rebuilt list: a readable, non-empty table. */
  ghost function Contribution(directory: bytes, files: Files, id: nat): seq<Meta>
  {
    match Load(files, TableName(directory, id))
    case Rejected => []
    case Loaded(data) => if data == map[] then [] else [MetaOf(id, TableName(directory, id), data)]
  }

  /** What a directory's tables with ids below n are listed as, in id order. */
  ghost function Rebuilt(directory: bytes, files: Files, n: nat): seq<Meta>
  {
    if n == 0 then [] else Rebuilt(directory, files, n - 1) + Contribution(directory, files, n - 1)
  }

  /** No table file has an id of n or more. */
  ghost predicate IdsBelow(directory: bytes, files: Files, n: nat)
  {
    forall i: nat :: TableName(directory, i) in files ==> i < n
  }

  lemma {:induction false} IdBoundExists(directory: bytes, files: Files)
    ensures exists n: nat :: IdsBelow(directory, files, n)
    decreases |files|
  {
    if files == map[] {
      assert IdsBelow(directory, files, 0);
    } else {
      var name :| name in files;
      var rest := files - {name};
      assert rest.Keys == files.Keys - {name};
      IdBoundExists(directory, rest);
      var n: nat :| IdsBelow(directory, rest, n);
      if id: nat :| name == TableName(directory, id) {
        var m: nat := if id < n then n else id + 1;
        forall i: nat | TableName(directory, i) in files
          ensures i < m
        {
          if TableName(directory, i) == name {
            TableNameInjective(directory, i, id);
          }
        }
        assert IdsBelow(directory, files, m);
      } else {
        assert IdsBelow(directory, files, n);
      }
    }
  }

  ghost function IdBound(directory: bytes, files: Files): (n: nat)
    ensures IdsBelow(directory, files, n)
  {
    IdBoundExists(directory, files);
    var n: nat :| IdsBelow(directory, files, n);
    n
  }

  ghost function RebuiltAll(directory: bytes, files: Files): seq<Meta>
  {
    Rebuilt(directory, files, IdBound(directory, files))
  }

  /** One past the largest id, in 64 bits, and never 0. */
  function NextAfter(tables: seq<Meta>): nat
  {
    var largest := if tables == [] then 0 else tables[|tables| - 1].id;
    if (largest + 1) % TWO_64 == 0 then 1 else (largest + 1) % TWO_64
  }

  datatype Start = Failed | Started(trace: seq<Image>, process: Process)

  /** Load tables and log into the memtable. */
  function LoadInto(d: Image, trace: seq<Image>, tables: seq<Meta>, next: nat): Start
  {
    var log := RecoverWal(d.wal);
    match LoadAll(d.files, tables)
    case Rejected => Failed
    case Loaded(data) =>
      if log.status.Corrupted? then Failed else Started(trace, Process(d, data + log.data, tables, next))
  }

  ghost function Initialize(c: Config, d: Image): Start
  {
    match (if d.manifest.None? then Contents(1, []) else Read(d.manifest.value))
    case Invalid => Failed
    case Contents(next, tables) =>
      if AllPresent(d.files, tables) then LoadInto(d, [], tables, next)
      else
        var rebuilt := RebuiltAll(c.directory, d.files);
        var after := WithManifest(d, NextAfter(rebuilt), rebuilt);
        LoadInto(after, [after], rebuilt, NextAfter(rebuilt))
  }
}
