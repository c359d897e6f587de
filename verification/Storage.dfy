/** storage.cpp and the appending half of wal.cpp: the durable operations, in the order the code runs them. */
module Storage {
  import opened Bytes
  import opened Entries
  import opened Crc32
  import opened Serialization
  import opened FileSystem
  import opened WalRecord
  import opened Recovery
  import opened SSTable
  import opened ManifestText
  import opened TableNames
  import opened Engine
  import M = Manifest

  /** Assigning every entry of a newer map into an older one, in whatever order the newer one is visited. */
  method OverlayInto(older: Data, newer: Data) returns (data: Data)
    ensures data == older + newer
  {
    data := older;
    var left := newer.Keys;
    NothingLaid(older, newer);
    while left != {}
      invariant left <= newer.Keys && data == older + (newer - left)
      decreases |left|
    {
      var key :| key in left;
      LayOne(older, newer, left, key);
      data := data[key := newer[key]];
      left := left - {key};
    }
    assert newer - {} == newer;
  }

  lemma NothingLaid(older: Data, newer: Data)
    ensures older + (newer - newer.Keys) == older
  {
  }

  lemma LayOne(older: Data, newer: Data, left: set<bytes>, key: bytes)
    requires left <= newer.Keys && key in left
    ensures (older + (newer - left))[key := newer[key]] == older + (newer - (left - {key}))
  {
    assert newer - (left - {key}) == (newer - left)[key := newer[key]];
  }

  method EraseTombstones(merged: Data) returns (data: Data)
    ensures data == DropTombstones(merged)
  {
    data := merged;
    var left := merged.Keys;
    while left != {}
      invariant left <= merged.Keys
      invariant data == map k | k in merged && (k in left || !merged[k].deleted) :: merged[k]
      decreases |left|
    {
      var key :| key in left;
      left := left - {key};
      if merged[key].deleted {
        data := data - {key};
      }
    }
  }

  class Storage {
    const config: Config
    const disk: Disk
    const manifest: M.Manifest

    /** The process this storage is part of, given its memtable. */
    function State(data: Data): Process
      reads disk, manifest
    {
      Process(disk.Now(), data, manifest.tables, manifest.next)
    }

    ghost predicate Valid()
    {
      manifest.disk == disk
    }

    constructor (config: Config, disk: Disk)
      ensures Valid() && this.config == config && this.disk == disk
      ensures fresh(manifest) && manifest.tables == [] && manifest.next == 1
    {
      this.config := config;
      this.disk := disk;
      manifest := new M.Manifest(disk);
    }

    /** Wal::append_record in SYNC mode: length, payload, checksum, flushed before returning. */
    method AppendRecord(r: Record)
      modifies disk
      ensures disk.Now() == old(disk.Now()).(wal := old(disk.wal) + RecordBytes(r))
      ensures disk.trace == old(disk.trace) + AppendTrace(old(disk.Now()), RecordBytes(r))
    {
      var payload := SerializeWalRecord(r);
      var checksum := CalculateCrc32(payload);
      hide Checksum, Le32;
      var bytes := AppendUint32([], |payload|);
      bytes := bytes + payload;
      bytes := AppendUint32(bytes, checksum);
      assert bytes == RecordBytes(r);
      disk.AppendWal(bytes);
    }

    /** Every table the MANIFEST lists must exist; if one does not, the list is rebuilt from the directory. */
    method OpenManifest() returns (ok: bool)
      requires Valid()
      modifies manifest, disk
      ensures ok <==> M.OnDisk(old(disk.manifest)).Contents?
      ensures ok ==> var Contents(next, tables) := M.OnDisk(old(disk.manifest));
                if AllPresent(old(disk.files), tables)
                then manifest.tables == tables && manifest.next == next
                     && disk.Now() == old(disk.Now()) && disk.trace == old(disk.trace)
                else
                  && M.DescribesAll(config.directory, old(disk.files), old(disk.files).Keys, manifest.tables)
                  && M.NonDecreasing(manifest.tables)
                  && (old(M.Rebuildable(config.directory, disk.files)) ==>
                        manifest.tables == RebuiltAll(config.directory, old(disk.files)))
                  && manifest.next == NextAfter(manifest.tables)
                  && disk.Now() == WithManifest(old(disk.Now()), manifest.next, manifest.tables)
                  && disk.trace == old(disk.trace) + [disk.Now()]
    {
      assert manifest.disk == disk;
      hide *;
      ok := manifest.LoadFile();
      if !ok {
        return;
      }
      var missing := FindMissing();
      if missing {
        ok := manifest.RebuildFromDirectory(config.directory, true);
      }
    }

    method FindMissing() returns (missing: bool)
      ensures missing <==> !AllPresent(disk.files, manifest.tables)
    {
      missing := false;
      for i := 0 to |manifest.tables|
        invariant !missing && forall j :: 0 <= j < i ==> manifest.tables[j].filename in disk.files
      {
        if manifest.tables[i].filename !in disk.files {
          return true;
        }
      }
    }

    /** Tables oldest to newest, each overwriting what is there; one unreadable table fails the load. */
    method LoadTables() returns (r: TableResult)
      ensures r == LoadAll(disk.files, manifest.tables)
    {
      hide ParseTable;
      var data: Data := map[];
      for i := 0 to |manifest.tables|
        invariant LoadAll(disk.files, manifest.tables[..i]) == Loaded(data)
      {
        assert manifest.tables[..i + 1][..i] == manifest.tables[..i];
        var table := LoadTable(disk, manifest.tables[i].filename);
        if table.Rejected? {
          LoadStops(disk.files, manifest.tables, i + 1);
          return Rejected;
        }
        data := OverlayInto(data, table.data);
      }
      assert manifest.tables[..|manifest.tables|] == manifest.tables;
      r := Loaded(data);
    }

    /** Tables first, then the log replayed over them. */
    method LoadData() returns (ok: bool, data: Data)
      ensures ok <==> LoadAll(disk.files, manifest.tables).Loaded? && !RecoverWal(disk.wal).status.Corrupted?
      ensures ok ==> data == LoadAll(disk.files, manifest.tables).data + RecoverWal(disk.wal).data
    {
      hide LoadAll, RecoverWal;
      data := map[];
      var tables := LoadTables();
      if tables.Rejected? {
        return false, data;
      }
      var status, log := Recover(disk.wal);
      if status == Corrupted {
        return false, data;
      }
      data := OverlayInto(tables.data, log);
      ok := true;
    }

    /** Write the table, publish it, reset the log. */
    method FlushMemtable(data: Data)
      requires Valid()
      modifies manifest, disk
      ensures var e := Flush(config, old(State(data)));
              State(map[]) == (if data == map[] then old(State(map[])) else e.process)
              && disk.trace == old(disk.trace) + e.trace
    {
      hide TableBytes, TableName, MetaOf, Print, M.IdsOrdered, NextId;
      if data == map[] {
        return;
      }
      var id := manifest.next;
      var filename := TableName(config.directory, id);
      var metadata := Write(disk, id, filename, data);
      MetaId(id, filename, data);
      var published := manifest.AddTable(metadata, true);
      disk.TruncateWal();
    }

    /** Newest table first; a tombstone ends the search like a value does. */
    method GetFromSSTables(key: bytes) returns (r: Lookup)
      ensures r == GetFromTables(disk.files, manifest.tables, key)
    {
      hide Get;
      assert manifest.tables[..|manifest.tables|] == manifest.tables;
      for i := |manifest.tables| downto 0
        invariant GetFromTables(disk.files, manifest.tables, key) == GetFromTables(disk.files, manifest.tables[..i], key)
      {
        assert manifest.tables[..i + 1][..i] == manifest.tables[..i];
        var lookup := GetEntry(disk, manifest.tables[i], key);
        if !lookup.NotFound? {
          return lookup;
        }
      }
      r := Lookup.NotFound;
    }

    /** Merge the tables and drop the tombstones; a table that cannot be read ends the compaction. */
    method CompactTables(ghost data: Data) returns (ok: bool)
      requires Valid()
      modifies manifest, disk
      ensures var e := Compact(config, old(State(data)));
              ok == e.ok && State(data) == e.process && disk.trace == old(disk.trace) + e.trace
    {
      hide LoadAll, Replace, DropTombstones;
      if |manifest.tables| < 2 {
        return true;
      }
      var loaded := LoadTables();
      if loaded.Rejected? {
        return false;
      }
      var merged := EraseTombstones(loaded.data);
      ReplaceTables(merged, data);
      ok := true;
    }

    /**
     * Write, publish, unpublish, delete. The deletion loop runs over the list the manifest holds by then,
     * or over the list it held at the start, as the configuration says.
     */
    method ReplaceTables(merged: Data, ghost data: Data)
      requires Valid()
      modifies manifest, disk
      ensures var e := Replace(config, old(State(data)), merged);
              e.ok && State(data) == e.process && disk.trace == old(disk.trace) + e.trace
    {
      hide TableBytes, TableName, MetaOf, Print, Without, Ids, RemoveFiles, RemoveTrace, WriteTrace, M.IdsOrdered, NextId;
      var tables := manifest.tables;
      var id := manifest.next;
      var filename := TableName(config.directory, id);
      var metadata := Write(disk, id, filename, merged);
      MetaId(id, filename, merged);
      var oldIds := CollectIds(tables);
      var published := manifest.AddTable(metadata, true);
      var removed := manifest.RemoveTables(oldIds, true);
      RemoveAll(if config.deletion.AsWritten? then manifest.tables else tables);
    }

    method CollectIds(tables: seq<Meta>) returns (ids: set<nat>)
      ensures ids == Ids(tables)
    {
      ids := {};
      for i := 0 to |tables|
        invariant ids == Ids(tables[..i])
      {
        assert tables[..i + 1] == tables[..i] + [tables[i]];
        ids := ids + {tables[i].id};
      }
      assert tables[..|tables|] == tables;
    }

    method RemoveAll(tables: seq<Meta>)
      modifies disk
      ensures disk.Now() == RemoveFiles(old(disk.Now()), tables)
      ensures disk.trace == old(disk.trace) + RemoveTrace(old(disk.Now()), tables)
    {
      for i := 0 to |tables|
        invariant disk.Now() == RemoveFiles(old(disk.Now()), tables[..i])
        invariant disk.trace == old(disk.trace) + RemoveTrace(old(disk.Now()), tables[..i])
      {
        assert tables[..i + 1][..i] == tables[..i];
        disk.RemoveFile(tables[i].filename);
      }
      assert tables[..|tables|] == tables;
    }
  }

  lemma MetaId(id: nat, name: bytes, d: Data)
    ensures MetaOf(id, name, d).id == id
  {
    hide SortedItems;
  }

  /** An unreadable table among the first n spoils the load of all. */
  lemma {:induction false} LoadStops(files: Files, tables: seq<Meta>, n: nat)
    requires n <= |tables| && LoadAll(files, tables[..n]).Rejected?
    ensures LoadAll(files, tables).Rejected?
    decreases |tables|
  {
    hide Load;
    if n == |tables| {
      assert tables[..n] == tables;
    } else {
      var init := tables[..|tables| - 1];
      assert init[..n] == tables[..n];
      LoadStops(files, init, n);
    }
  }
}
