/** database.cpp: commands against the memtable, the log and the tables. */
module Database {
  import opened Bytes
  import opened Entries
  import opened FileSystem
  import opened WalRecord
  import opened Recovery
  import opened SSTable
  import opened TableNames
  import opened Engine
  import opened MemTable
  import M = Manifest
  import S = Storage
  import P = Parser

  class Database {
    const config: Config
    const flushThreshold: nat
    const disk: Disk
    const memtable: MemTable
    const storage: S.Storage

    /** The process as a value: the disk, the memtable's map, the table list and the next id. */
    function State(): Process
      reads disk, memtable, storage.manifest
    {
      Process(disk.Now(), memtable.data, storage.manifest.tables, storage.manifest.next)
    }

    ghost predicate Wired()
    {
      storage.Valid() && storage.config == config && storage.disk == disk
    }

    ghost predicate Valid()
      reads memtable
    {
      Wired() && memtable.Accounted()
    }

    constructor (config: Config, flushThreshold: nat, disk: Disk)
      ensures Valid() && this.config == config && this.flushThreshold == flushThreshold && this.disk == disk
      ensures fresh(memtable) && fresh(storage) && fresh(storage.manifest)
      ensures disk.Now() == old(disk.Now()) && disk.trace == old(disk.trace)
    {
      this.config, this.flushThreshold, this.disk := config, flushThreshold, disk;
      memtable := new MemTable();
      storage := new S.Storage(config, disk);
    }

    /**
     * Startup follows the model's start, as long as a rebuild is not needed or finds only table files.
     * On failure the source gives up; what the memtable then holds is of no consequence.
     */
    method Initialize() returns (ok: bool)
      requires Wired()
      modifies memtable, storage.manifest, disk
      ensures (old(M.Rebuildable(config.directory, disk.files)) || old(ListedPresent())) ==>
                match Engine.Initialize(config, old(disk.Now()))
                case Failed => !ok
                case Started(trace, process) =>
                  && ok && State() == process && disk.trace == old(disk.trace) + trace
                  && (TombstonesEmpty(process.data) ==> Valid())
    {
      ghost var before, listed := disk.Now(), M.Rebuildable(config.directory, disk.files) || ListedPresent();
      StartCases(config, before);
      hide Engine.Initialize, LoadInto, RebuiltAll, NextAfter, M.OnDisk, M.Rebuildable, M.DescribesAll, M.NonDecreasing, AllPresent, TotalBytes, Wrap, WithManifest, LoadAll, RecoverWal, TombstonesEmpty;
      ok := storage.OpenManifest();
      if !ok {
        return;
      }
      if listed {
        StartIs(config, before, disk.Now(), disk.trace[|old(disk.trace)|..], storage.manifest.tables, storage.manifest.next);
      }
      ok := FillMemtable();
    }

    /** Tables and log into the memtable. */
    method FillMemtable() returns (ok: bool)
      requires Wired()
      modifies memtable
      ensures ok <==> LoadAll(disk.files, storage.manifest.tables).Loaded? && !RecoverWal(disk.wal).status.Corrupted?
      ensures ok ==>
                && memtable.data == LoadAll(disk.files, storage.manifest.tables).data + RecoverWal(disk.wal).data
                && (TombstonesEmpty(memtable.data) ==> Valid())
    {
      hide LoadAll, RecoverWal, TotalBytes, TombstonesEmpty;
      var data;
      ok, data := storage.LoadData();
      if !ok {
        return;
      }
      memtable.Replace(data);
    }

    /** Every table the MANIFEST on disk lists has its file. */
    ghost predicate ListedPresent()
      reads disk
    {
      M.OnDisk(disk.manifest).Contents? ==> AllPresent(disk.files, M.OnDisk(disk.manifest).tables)
    }

    method ExecutePut(key: bytes, value: bytes) returns (response: Response)
      requires Valid()
      modifies memtable, storage.manifest, disk
      ensures var r := Record(Put, key, value);
              var e := Engine.Command(config, old(State()), r, Count(Apply(old(memtable.data), r)) >= flushThreshold);
              && State() == e.process && disk.trace == old(disk.trace) + e.trace
              && response == (if e.ok then Done else Error)
              && Decided(flushThreshold, old(State()), r, e.trace, State())
      ensures Valid()
    {
      hide Flush, MaybeCompact, TotalBytes, Wrap, RecordBytes, Decided;
      ghost var before := State();
      CommandDecides(config, flushThreshold, before, Record(Put, key, value));
      storage.AppendRecord(Record(Put, key, value));
      memtable.Put(key, value);
      assert State() == LogWrite(before, Record(Put, key, value)).process;
      if memtable.sizeInBytes >= flushThreshold {
        var ok := FlushAndCompact();
        if !ok {
          return Error;
        }
      }
      return Done;
    }

    method ExecuteDelete(key: bytes) returns (response: Response)
      requires Valid()
      modifies memtable, storage.manifest, disk
      ensures var r := Record(Delete, key, []);
              var e := Engine.Command(config, old(State()), r, Count(Apply(old(memtable.data), r)) >= flushThreshold);
              && State() == e.process && disk.trace == old(disk.trace) + e.trace
              && response == (if e.ok then Done else Error)
              && Decided(flushThreshold, old(State()), r, e.trace, State())
      ensures Valid()
    {
      hide Flush, MaybeCompact, TotalBytes, Wrap, RecordBytes, Decided;
      ghost var before := State();
      CommandDecides(config, flushThreshold, before, Record(Delete, key, []));
      storage.AppendRecord(Record(Delete, key, []));
      memtable.Erase(key);
      assert State() == LogWrite(before, Record(Delete, key, [])).process;
      if memtable.sizeInBytes >= flushThreshold {
        var ok := FlushAndCompact();
        if !ok {
          return Error;
        }
      }
      return Done;
    }

    method FlushAndCompact() returns (ok: bool)
      requires Valid()
      modifies memtable, storage.manifest, disk
      ensures var flushed := Flush(config, old(State()));
              var e := MaybeCompact(config, flushed.process);
              && State() == e.process && disk.trace == old(disk.trace) + flushed.trace + e.trace && ok == e.ok
      ensures Valid()
    {
      hide Flush, MaybeCompact, TotalBytes, Wrap;
      FlushMemtable();
      ok := CompactIfNeeded();
    }

    method FlushMemtable()
      requires Valid()
      modifies memtable, storage.manifest, disk
      ensures var e := Flush(config, old(State()));
              State() == e.process && disk.trace == old(disk.trace) + e.trace
      ensures Valid()
    {
      hide Flush, TotalBytes, TombstonesEmpty;
      var snapshot := memtable.data;
      FlushNothing(config, State());
      if snapshot == map[] {
        return;
      }
      storage.FlushMemtable(snapshot);
      memtable.Clear();
      FlushClears(config, old(State()));
    }

    method CompactIfNeeded() returns (ok: bool)
      requires Valid()
      modifies storage.manifest, disk
      ensures var e := MaybeCompact(config, old(State()));
              State() == e.process && disk.trace == old(disk.trace) + e.trace && ok == e.ok
    {
      hide Compact;
      if |storage.manifest.tables| < config.compactionThreshold {
        return true;
      }
      ok := storage.CompactTables(memtable.data);
    }

    method ExecuteGet(key: bytes) returns (response: Response)
      requires Valid()
      ensures response == ReadKey(State(), key)
    {
      hide GetFromTables;
      var found, value, deleted := memtable.Get(key);
      if found {
        return if deleted then Absent else Value(value);
      }
      var lookup := storage.GetFromSSTables(key);
      match lookup {
        case ReadFailed => return Error;
        case NotFound => return Absent;
        case Found(entry) => return if entry.deleted then Absent else Value(entry.value);
      }
    }

    /** The dispatcher: what each command does to the process, the disk trace and the answer. */
    method Execute(command: P.Command) returns (response: Response)
      requires Valid()
      modifies memtable, storage.manifest, disk
      ensures Valid()
      ensures command.Put? || command.Delete? ==>
                var r := if command.Put? then Record(Put, command.key, command.value) else Record(Delete, command.key, []);
                var e := Engine.Command(config, old(State()), r, Count(Apply(old(memtable.data), r)) >= flushThreshold);
                && State() == e.process && disk.trace == old(disk.trace) + e.trace
                && response == (if e.ok then Done else Error)
      ensures command.Put? || command.Delete? ==>
                var r := if command.Put? then Record(Put, command.key, command.value) else Record(Delete, command.key, []);
                var data := Apply(old(memtable.data), r);
                && (TotalBytes(data) % 0x1_0000_0000_0000_0000 < flushThreshold ==>
                      && memtable.data == data && disk.Now() == old(disk.Now()).(wal := old(disk.wal) + RecordBytes(r))
                      && disk.trace == old(disk.trace) + AppendTrace(old(disk.Now()), RecordBytes(r))
                      && storage.manifest.tables == old(storage.manifest.tables) && storage.manifest.next == old(storage.manifest.next))
                && (TotalBytes(data) % 0x1_0000_0000_0000_0000 >= flushThreshold ==> memtable.data == map[] && disk.wal == [])
      ensures command.Put? || command.Delete? ==> memtable.sizeInBytes < flushThreshold || memtable.data == map[]
      ensures !command.Put? && !command.Delete? ==> State() == old(State()) && disk.trace == old(disk.trace)
      ensures command.Get? ==> response == ReadKey(old(State()), command.key)
      ensures command.Exit? ==> response == Bye
      ensures command.Invalid? ==> response == Refused
    {
      hide Engine.Command, ReadKey, TotalBytes, Apply, RecordBytes;
      match command {
        case Put(key, value) => response := ExecutePut(key, value);
        case Get(key) => response := ExecuteGet(key);
        case Delete(key) => response := ExecuteDelete(key);
        case Exit => response := Bye;
        case Invalid => response := Refused;
      }
    }
  }

  /** The memtable's count once it holds d, as a size_t. */
  ghost function Count(d: Data): nat
  {
    Wrap(TotalBytes(d))
  }

  /**
   * A write that leaves the memtable below the threshold is logged and nothing else; one that does not leaves both
   * memtable and log empty.
   */
  ghost predicate Decided(flushThreshold: nat, p: Process, r: Record, trace: seq<Image>, q: Process)
  {
    var data := Apply(p.data, r);
    && (TotalBytes(data) % 0x1_0000_0000_0000_0000 < flushThreshold ==>
          && trace == AppendTrace(p.disk, RecordBytes(r))
          && q == Process(p.disk.(wal := p.disk.wal + RecordBytes(r)), data, p.tables, p.next))
    && (TotalBytes(data) % 0x1_0000_0000_0000_0000 >= flushThreshold ==> q.data == map[] && q.disk.wal == [])
  }

  lemma LoggedOnly(p: Process, r: Record)
    ensures LogWrite(p, r) == Effect(AppendTrace(p.disk, RecordBytes(r)),
                                     Process(p.disk.(wal := p.disk.wal + RecordBytes(r)), Apply(p.data, r), p.tables, p.next), true)
    ensures Apply(p.data, r) != map[]
  {
    assert r.key in Apply(p.data, r);
    hide RecordBytes, Apply;
  }

  lemma FlushEmpties(c: Config, p: Process)
    requires p.data != map[]
    ensures Flush(c, p).process.data == map[] && Flush(c, p).process.disk.wal == []
  {
    hide TableBytes, TableName, MetaOf, WithManifest, NextId;
  }

  lemma {:induction false} RemovingKeepsLog(d: Image, tables: seq<Meta>)
    ensures RemoveFiles(d, tables).wal == d.wal
  {
    if tables != [] {
      RemovingKeepsLog(d, tables[..|tables| - 1]);
    }
  }

  lemma CompactKeepsLog(c: Config, p: Process)
    ensures MaybeCompact(c, p).process.data == p.data && MaybeCompact(c, p).process.disk.wal == p.disk.wal
  {
    hide LoadAll, Replace, DropTombstones;
    if |p.tables| >= 2 && LoadAll(p.disk.files, p.tables).Loaded? {
      ReplaceKeepsLog(c, p, DropTombstones(LoadAll(p.disk.files, p.tables).data));
    }
  }

  lemma ListingKeepsLog(d: Image, next: nat, tables: seq<Meta>)
    ensures WithManifest(d, next, tables).wal == d.wal
  {
  }

  lemma ReplaceKeepsLog(c: Config, p: Process, merged: Data)
    ensures Replace(c, p, merged).process.data == p.data && Replace(c, p, merged).process.disk.wal == p.disk.wal
  {
    hide TableBytes, TableName, MetaOf, WithManifest, NextId, Without, Ids, RemoveFiles, RemoveTrace, WriteTrace;
    var name := TableName(c.directory, p.next);
    var both := p.tables + [MetaOf(p.next, name, merged)];
    var kept := Without(both, Ids(p.tables));
    var written := p.disk.(files := p.disk.files[name := TableBytes(merged)]);
    var unpublished := WithManifest(WithManifest(written, NextId(p.next), both), NextId(p.next), kept);
    ListingKeepsLog(written, NextId(p.next), both);
    ListingKeepsLog(WithManifest(written, NextId(p.next), both), NextId(p.next), kept);
    RemovingKeepsLog(unpublished, if c.deletion.AsWritten? then kept else p.tables);
  }

  /** The flush decision in terms of the bytes the memtable would hold. */
  lemma CommandDecides(c: Config, flushThreshold: nat, p: Process, r: Record)
    ensures var e := Engine.Command(c, p, r, Count(Apply(p.data, r)) >= flushThreshold);
            Decided(flushThreshold, p, r, e.trace, e.process)
  {
    hide TotalBytes, LogWrite, Flush, MaybeCompact, RecordBytes, Apply;
    var x := LogWrite(p, r).process;
    LoggedOnly(p, r);
    FlushEmpties(c, x);
    CompactKeepsLog(c, Flush(c, x).process);
  }

  lemma FlushNothing(c: Config, p: Process)
    ensures p.data == map[] ==> Flush(c, p) == Effect([], p, true)
  {
    hide TableBytes, TableName, MetaOf;
  }

  lemma FlushClears(c: Config, p: Process)
    ensures p.data != map[] ==> Flush(c, p).process.data == map[]
  {
    hide TableBytes, TableName, MetaOf;
  }

  lemma StartCases(c: Config, d: Image)
    ensures M.OnDisk(d.manifest).Invalid? ==> Engine.Initialize(c, d) == Failed
    ensures M.OnDisk(d.manifest).Contents? ==>
              var Contents(next, tables) := M.OnDisk(d.manifest);
              var rebuilt := RebuiltAll(c.directory, d.files);
              var after := WithManifest(d, NextAfter(rebuilt), rebuilt);
              Engine.Initialize(c, d) == if AllPresent(d.files, tables) then LoadInto(d, [], tables, next)
                                         else LoadInto(after, [after], rebuilt, NextAfter(rebuilt))
  {
    hide LoadInto, RebuiltAll, NextAfter, AllPresent, WithManifest;
  }

  /** The start from a disk, given what opening the MANIFEST left. */
  lemma StartIs(c: Config, d: Image, e: Image, trace: seq<Image>, tables: seq<Meta>, next: nat)
    requires M.OnDisk(d.manifest).Contents?
    requires var Contents(first, listed) := M.OnDisk(d.manifest);
             if AllPresent(d.files, listed) then tables == listed && next == first && e == d && trace == []
             else tables == RebuiltAll(c.directory, d.files) && next == NextAfter(tables)
                  && e == WithManifest(d, next, tables) && trace == [e]
    ensures Engine.Initialize(c, d) ==
            if LoadAll(e.files, tables).Rejected? || RecoverWal(e.wal).status.Corrupted? then Failed
            else Started(trace, Process(e, LoadAll(e.files, tables).data + RecoverWal(e.wal).data, tables, next))
  {
    hide *;
    StartCases(c, d);
    LoadCases(e, trace, tables, next);
  }

  lemma LoadCases(d: Image, trace: seq<Image>, tables: seq<Meta>, next: nat)
    ensures LoadInto(d, trace, tables, next) ==
              if LoadAll(d.files, tables).Rejected? || RecoverWal(d.wal).status.Corrupted? then Failed
              else Started(trace, Process(d, LoadAll(d.files, tables).data + RecoverWal(d.wal).data, tables, next))
  {
    hide LoadAll, RecoverWal;
  }
}
