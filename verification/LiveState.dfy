/**
 * What a running process keeps whatever becomes of its log, its MANIFEST or a merge that left nothing:
 * enough to say how every key reads.
 */
module LiveState {
  import opened Bytes
  import opened Entries
  import opened FileSystem
  import opened WalRecord
  import opened SSTable
  import opened ManifestText
  import opened TableNames
  import opened Engine
  import opened Invariant
  import opened Frames
  import opened CommandSafety
  import opened StartSafety
  import opened CompactionMeaning
  import M = Manifest

  /** Maps laid over each other, oldest first. */
  function Stack(contents: seq<Data>): Data
  {
    if contents == [] then map[] else Stack(contents[..|contents| - 1]) + contents[|contents| - 1]
  }

  /**
   * Table i was written from the map d and its file holds d. The loop as written leaves one exception: the
   * oldest table, made by the last merge, may have lost its file.
   */
  ghost predicate Backs(c: Config, space: set<bytes>, files: Files, tables: seq<Meta>, i: nat, d: Data)
    requires i < |tables|
  {
    && GoodData(space, d)
    && tables[i] == NewMeta(c, tables[i].id, d)
    && (|| (Load(files, tables[i].filename) == Loaded(d) && (c.deletion.AsWritten? ==> d != map[]))
        || (c.deletion.AsWritten? && i == 0 && tables[i].filename !in files))
  }

  ghost predicate ListBacked(c: Config, space: set<bytes>, files: Files, tables: seq<Meta>, contents: seq<Data>)
  {
    |contents| == |tables| && forall i :: 0 <= i < |tables| ==> Backs(c, space, files, tables, i, contents[i])
  }

  /** The process shows a: its tables, read as they were written, under its memtable. */
  ghost predicate LiveOk(c: Config, space: set<bytes>, p: Process, contents: seq<Data>, a: map<bytes, bytes>, m: nat)
  {
    && ManifestIs(p.disk.manifest, p.next, p.tables)
    && M.IdsOrdered(p.tables, p.next) && 1 <= p.next <= m < TWO_64
    && NamesOk(c.directory, p.disk.files, m)
    && ListBacked(c, space, p.disk.files, p.tables, contents)
    && GoodData(space, p.data)
    && Live(Stack(contents) + p.data) == a
  }

  ghost predicate Serves(c: Config, space: set<bytes>, p: Process, a: map<bytes, bytes>, m: nat)
  {
    exists contents: seq<Data> :: LiveOk(c, space, p, contents, a, m)
  }

  /** No listed table is without entries. */
  predicate ListsEntries(tables: seq<Meta>)
  {
    forall i :: 0 <= i < |tables| ==> tables[i].entryCount != 0
  }

  // ---------------------------------------------------------------------------
  // Taking it apart and putting it together
  // ---------------------------------------------------------------------------

  lemma LiveParts(c: Config, space: set<bytes>, p: Process, contents: seq<Data>, a: map<bytes, bytes>, m: nat)
    requires LiveOk(c, space, p, contents, a, m)
    ensures ManifestIs(p.disk.manifest, p.next, p.tables)
    ensures M.IdsOrdered(p.tables, p.next) && 1 <= p.next <= m < TWO_64
    ensures NamesOk(c.directory, p.disk.files, m) && GoodData(space, p.data)
    ensures ListBacked(c, space, p.disk.files, p.tables, contents)
    ensures Live(Stack(contents) + p.data) == a
  {
    hide ManifestIs, M.IdsOrdered, NamesOk, ListBacked, GoodData, Live, Stack;
  }

  lemma MakeLive(c: Config, space: set<bytes>, p: Process, contents: seq<Data>, a: map<bytes, bytes>, m: nat)
    requires ManifestIs(p.disk.manifest, p.next, p.tables)
    requires M.IdsOrdered(p.tables, p.next) && 1 <= p.next <= m < TWO_64
    requires NamesOk(c.directory, p.disk.files, m) && GoodData(space, p.data)
    requires ListBacked(c, space, p.disk.files, p.tables, contents)
    requires Live(Stack(contents) + p.data) == a
    ensures LiveOk(c, space, p, contents, a, m) && Serves(c, space, p, a, m)
  {
    hide ManifestIs, M.IdsOrdered, NamesOk, ListBacked, GoodData, Live, Stack;
  }

  lemma LiveWeaken(c: Config, space: set<bytes>, p: Process, contents: seq<Data>, a: map<bytes, bytes>, m: nat, n: nat)
    requires LiveOk(c, space, p, contents, a, m) && m <= n < TWO_64
    ensures LiveOk(c, space, p, contents, a, n)
  {
    hide *;
    LiveParts(c, space, p, contents, a, m);
    NamesWeaken(c.directory, p.disk.files, m, n);
    MakeLive(c, space, p, contents, a, n);
  }

  lemma StackSnoc(contents: seq<Data>, d: Data)
    ensures Stack(contents + [d]) == Stack(contents) + d
  {
    assert (contents + [d])[..|contents + [d]| - 1] == contents;
  }

  lemma StackOne(d: Data)
    ensures Stack([d]) == d
  {
    StackSnoc([], d);
    assert [] + [d] == [d];
    AddNothing(d, map[]);
  }

  lemma BackedPrefix(c: Config, space: set<bytes>, files: Files, tables: seq<Meta>, contents: seq<Data>, n: nat)
    requires ListBacked(c, space, files, tables, contents) && n <= |tables|
    ensures ListBacked(c, space, files, tables[..n], contents[..n])
  {
    hide GoodData, NewMeta, Load;
    forall i | 0 <= i < n
      ensures Backs(c, space, files, tables[..n], i, contents[..n][i])
    {
      assert Backs(c, space, files, tables, i, contents[i]);
    }
  }

  lemma BackedNames(c: Config, space: set<bytes>, files: Files, tables: seq<Meta>, contents: seq<Data>, i: nat)
    requires ListBacked(c, space, files, tables, contents) && i < |tables|
    ensures Backs(c, space, files, tables, i, contents[i]) && GoodData(space, contents[i])
    ensures tables[i].filename == TableName(c.directory, tables[i].id) && tables[i] == NewMeta(c, tables[i].id, contents[i])
    ensures tables[i].filename in files ==> Load(files, tables[i].filename) == Loaded(contents[i])
    ensures tables[i].filename !in files ==> c.deletion.AsWritten? && i == 0
    ensures c.deletion.AsWritten? && tables[i].filename in files ==> contents[i] != map[]
    ensures tables[i].entryCount != 0 <==> contents[i] != map[]
  {
    assert Backs(c, space, files, tables, i, contents[i]);
    NewMetaNames(c, tables[i].id, contents[i]);
    NewMetaCount(c, tables[i].id, contents[i]);
    hide GoodData, NewMeta, ParseTable, TableName;
  }

  lemma NewMetaCount(c: Config, id: nat, d: Data)
    ensures NewMeta(c, id, d).entryCount == |d|
  {
    SortedItemsHold(d);
    hide SortedItems, TableName;
  }

  /** The same files for the listed names, or none for the oldest: still backed. */
  lemma BackedFrame(c: Config, space: set<bytes>, files: Files, files': Files, tables: seq<Meta>, contents: seq<Data>)
    requires ListBacked(c, space, files, tables, contents)
    requires forall i :: 0 <= i < |tables| ==> Load(files', tables[i].filename) == Load(files, tables[i].filename)
    requires forall i :: 0 <= i < |tables| ==> (tables[i].filename in files' <==> tables[i].filename in files)
    ensures ListBacked(c, space, files', tables, contents)
  {
    hide GoodData, NewMeta, Load;
    forall i | 0 <= i < |tables|
      ensures Backs(c, space, files', tables, i, contents[i])
    {
      assert Backs(c, space, files, tables, i, contents[i]);
    }
  }

  lemma BackedSnoc(c: Config, space: set<bytes>, files: Files, tables: seq<Meta>, contents: seq<Data>, next: nat, d: Data)
    requires ListBacked(c, space, files, tables, contents)
    requires GoodData(space, d) && d != map[] && Load(files, TableName(c.directory, next)) == Loaded(d)
    ensures ListBacked(c, space, files, tables + [NewMeta(c, next, d)], contents + [d])
  {
    NewMetaNames(c, next, d);
    hide GoodData, NewMeta, Load, TableName;
    var more, all := tables + [NewMeta(c, next, d)], contents + [d];
    forall i | 0 <= i < |more|
      ensures Backs(c, space, files, more, i, all[i])
    {
      if i < |tables| {
        assert Backs(c, space, files, tables, i, contents[i]);
      }
    }
  }

  // ---------------------------------------------------------------------------
  // The log append
  // ---------------------------------------------------------------------------

  lemma LogWriteParts(p: Process, r: Record)
    ensures var q := LogWrite(p, r).process;
            && q.disk.manifest == p.disk.manifest && q.disk.files == p.disk.files
            && q.tables == p.tables && q.next == p.next && q.data == Apply(p.data, r) != map[]
  {
    assert r.key in Apply(p.data, r);
    hide RecordBytes, Apply;
  }

  /** No bound on the record and no care for the log: the process shows the new map. */
  lemma LiveLogWrite(c: Config, space: set<bytes>, p: Process, contents: seq<Data>, r: Record, a: map<bytes, bytes>, m: nat)
    requires LiveOk(c, space, p, contents, a, m) && Storable(space, r)
    ensures LiveOk(c, space, LogWrite(p, r).process, contents, After(a, r), m)
  {
    hide *;
    LiveParts(c, space, p, contents, a, m);
    LogWriteParts(p, r);
    ApplyGood(space, p.data, r);
    LiveApply(Stack(contents), p.data, r);
    MakeLive(c, space, LogWrite(p, r).process, contents, After(a, r), m);
  }

  // ---------------------------------------------------------------------------
  // The flush
  // ---------------------------------------------------------------------------

  /** Listed tables have smaller ids, so their files are not the one written. */
  lemma BackedAfterWrite(c: Config, space: set<bytes>, files: Files, tables: seq<Meta>, contents: seq<Data>, next: nat, s: bytes)
    requires ListBacked(c, space, files, tables, contents) && M.IdsOrdered(tables, next)
    ensures ListBacked(c, space, NewFile(c, files, next, s), tables, contents)
    ensures AllPresent(NewFile(c, files, next, s), tables) <==> AllPresent(files, tables)
    ensures forall i :: 0 <= i < |tables| ==> tables[i].filename != TableName(c.directory, next)
  {
    hide Load, TableName, Backs;
    var files' := NewFile(c, files, next, s);
    forall i | 0 <= i < |tables|
      ensures tables[i].filename != TableName(c.directory, next)
      ensures Load(files', tables[i].filename) == Load(files, tables[i].filename)
    {
      BackedNames(c, space, files, tables, contents, i);
      if TableName(c.directory, tables[i].id) == TableName(c.directory, next) {
        TableNameInjective(c.directory, tables[i].id, next);
      }
      OtherFile(files, TableName(c.directory, next), s, tables[i].filename);
    }
    BackedFrame(c, space, files, files', tables, contents);
  }

  lemma OtherFile(files: Files, written: bytes, s: bytes, name: bytes)
    ensures name != written ==> Load(files[written := s], name) == Load(files, name)
  {
    hide ParseTable;
  }

  lemma MoreOrdered(tables: seq<Meta>, next: nat, t: Meta)
    requires M.IdsOrdered(tables, next) && t.id == next
    ensures M.IdsOrdered(tables + [t], next + 1) && M.IdsOrdered([t], next + 1)
  {
  }

  /** The list with the new table behind it, over the directory with its file. */
  lemma FlushBacked(c: Config, space: set<bytes>, p: Process, contents: seq<Data>, m: nat)
    requires ConfigOk(c, space) && m + 1 < TWO_64 && p.next <= m && GoodData(space, p.data) && p.data != map[]
    requires ListBacked(c, space, p.disk.files, p.tables, contents) && M.IdsOrdered(p.tables, p.next)
    requires NamesOk(c.directory, p.disk.files, m)
    ensures var files := NewFile(c, p.disk.files, p.next, TableBytes(p.data));
            var more := p.tables + [NewMeta(c, p.next, p.data)];
            && ListBacked(c, space, files, more, contents + [p.data]) && M.IdsOrdered(more, p.next + 1)
            && NamesOk(c.directory, files, m + 1)
            && (AllPresent(files, more) <==> AllPresent(p.disk.files, p.tables))
  {
    hide *;
    ConfigParts(c, space);
    var t, s := NewMeta(c, p.next, p.data), TableBytes(p.data);
    var files := NewFile(c, p.disk.files, p.next, s);
    NewMetaNames(c, p.next, p.data);
    MoreOrdered(p.tables, p.next, t);
    NewFileIs(c, p.disk.files, p.next, s);
    NamesAfterWrite(c.directory, p.disk.files, p.next, s, m, m + 1);
    BackedAfterWrite(c, space, p.disk.files, p.tables, contents, p.next, s);
    NewFileLoads(c, space, p.disk.files, p.next, p.data);
    BackedSnoc(c, space, files, p.tables, contents, p.next, p.data);
    PresentSnoc(files, p.tables, t);
  }

  lemma FlushedState(c: Config, p: Process)
    requires p.data != map[] && p.next + 1 < TWO_64
    ensures var q := Flush(c, p).process;
            && q.tables == p.tables + [NewMeta(c, p.next, p.data)] && q.next == p.next + 1 && q.data == map[]
            && q.disk.wal == [] && q.disk.files == NewFile(c, p.disk.files, p.next, TableBytes(p.data))
            && ManifestIs(q.disk.manifest, q.next, q.tables)
  {
    hide *;
    FlushSteps(c, p);
    NextIdIs(p.next);
    var files := NewFile(c, p.disk.files, p.next, TableBytes(p.data));
    WithManifestIs(Image([], p.disk.manifest, files), p.next + 1, p.tables + [NewMeta(c, p.next, p.data)]);
  }

  lemma LiveFlush(c: Config, space: set<bytes>, p: Process, contents: seq<Data>, a: map<bytes, bytes>, m: nat)
    requires ConfigOk(c, space) && LiveOk(c, space, p, contents, a, m) && m + 1 < TWO_64 && p.data != map[]
    ensures var q := Flush(c, p).process;
            && LiveOk(c, space, q, contents + [p.data], a, m + 1)
            && q.data == map[] && q.disk.wal == [] && q.tables == p.tables + [NewMeta(c, p.next, p.data)]
            && (AllPresent(q.disk.files, q.tables) <==> AllPresent(p.disk.files, p.tables))
  {
    hide *;
    LiveParts(c, space, p, contents, a, m);
    FlushedState(c, p);
    FlushBacked(c, space, p, contents, m);
    StackSnoc(contents, p.data);
    AddNothing(Stack(contents) + p.data, map[]);
    NoData(space);
    MakeLive(c, space, Flush(c, p).process, contents + [p.data], a, m + 1);
  }

  lemma PresentSnoc(files: Files, tables: seq<Meta>, t: Meta)
    requires t.filename in files
    ensures AllPresent(files, tables + [t]) <==> AllPresent(files, tables)
  {
    assert forall i :: 0 <= i < |tables| ==> (tables + [t])[i] == tables[i];
  }

  // ---------------------------------------------------------------------------
  // The compaction
  // ---------------------------------------------------------------------------

  lemma LoadAllSnoc(files: Files, tables: seq<Meta>, older: Data, newer: Data)
    requires tables != [] && LoadAll(files, tables[..|tables| - 1]) == Loaded(older)
    requires Load(files, tables[|tables| - 1].filename) == Loaded(newer)
    ensures LoadAll(files, tables) == Loaded(older + newer)
  {
    hide Load;
  }

  lemma LoadNone(files: Files)
    ensures LoadAll(files, []) == Loaded(map[])
  {
  }

  lemma StackGood(space: set<bytes>, x: Data, y: Data)
    requires GoodData(space, x) && GoodData(space, y)
    ensures GoodData(space, x + y)
  {
  }

  lemma StackSplit(contents: seq<Data>)
    ensures Stack([]) == map[]
    ensures contents != [] ==> Stack(contents) == Stack(contents[..|contents| - 1]) + contents[|contents| - 1]
  {
  }

  lemma SomePresent(files: Files, tables: seq<Meta>, n: nat)
    requires AllPresent(files, tables) && n <= |tables|
    ensures AllPresent(files, tables[..n])
    ensures forall i :: 0 <= i < |tables| ==> tables[i].filename in files
  {
  }

  lemma {:induction false} StackLoads(c: Config, space: set<bytes>, files: Files, tables: seq<Meta>, contents: seq<Data>)
    requires ListBacked(c, space, files, tables, contents) && AllPresent(files, tables)
    ensures LoadAll(files, tables) == Loaded(Stack(contents)) && GoodData(space, Stack(contents))
  {
    hide *;
    BackedSize(c, space, files, tables, contents);
    StackSplit(contents);
    if tables == [] {
      LoadNone(files);
      NoData(space);
    } else {
      var n := |tables| - 1;
      SomePresent(files, tables, n);
      BackedPrefix(c, space, files, tables, contents, n);
      StackLoads(c, space, files, tables[..n], contents[..n]);
      BackedNames(c, space, files, tables, contents, n);
      LoadAllSnoc(files, tables, Stack(contents[..n]), contents[n]);
      StackGood(space, Stack(contents[..n]), contents[n]);
    }
  }

  lemma BackedSize(c: Config, space: set<bytes>, files: Files, tables: seq<Meta>, contents: seq<Data>)
    requires ListBacked(c, space, files, tables, contents)
    ensures |contents| == |tables|
  {
    hide Backs;
  }

  /** After the deletions by either loop the new table stands alone, with its file or, as written, without. */
  lemma AloneBacked(c: Config, space: set<bytes>, files: Files, next: nat, d: Data)
    requires GoodData(space, d)
    requires if c.deletion.AsWritten? then TableName(c.directory, next) !in files
             else Load(files, TableName(c.directory, next)) == Loaded(d)
    ensures ListBacked(c, space, files, [NewMeta(c, next, d)], [d])
  {
    NewMetaNames(c, next, d);
    hide GoodData, NewMeta, Load, TableName;
    assert Backs(c, space, files, [NewMeta(c, next, d)], 0, d);
  }

  lemma NamesAfterRemoval(directory: bytes, d: Image, tables: seq<Meta>, m: nat)
    requires NamesOk(directory, d.files, m)
    ensures NamesOk(directory, RemoveFiles(d, tables).files, m)
  {
    hide TableName, RemoveFiles;
    forall name | name in RemoveFiles(d, tables).files
      ensures exists i: nat :: i <= m && name == TableName(directory, i)
    {
      RemovedContents(d, tables, name);
    }
  }

  lemma {:induction false} RemovalKeepsRest(d: Image, tables: seq<Meta>)
    ensures RemoveFiles(d, tables).manifest == d.manifest && RemoveFiles(d, tables).wal == d.wal
  {
    if tables != [] {
      RemovalKeepsRest(d, tables[..|tables| - 1]);
    }
  }

  lemma RemovedKeeps(d: Image, tables: seq<Meta>, name: bytes)
    requires forall i :: 0 <= i < |tables| ==> tables[i].filename != name
    ensures Load(RemoveFiles(d, tables).files, name) == Load(d.files, name)
  {
    RemovedReads(d, tables, name);
  }

  lemma RemovedGone(d: Image, t: Meta)
    ensures t.filename !in RemoveFiles(d, [t]).files
  {
    RemovedContents(d, [t], t.filename);
    hide RemoveFiles;
    assert [t][0].filename == t.filename;
  }

  /** What the deletion leaves of the merged table's file. */
  lemma Deleted(c: Config, space: set<bytes>, p: Process, contents: seq<Data>, d: Image, merged: Data)
    requires ListBacked(c, space, p.disk.files, p.tables, contents) && M.IdsOrdered(p.tables, p.next)
    requires d.files == NewFile(c, p.disk.files, p.next, TableBytes(merged))
    requires GoodData(space, merged) && |space| < TWO_64
    ensures var victims := if c.deletion.AsWritten? then [NewMeta(c, p.next, merged)] else p.tables;
            var files := RemoveFiles(d, victims).files;
            if c.deletion.AsWritten? then TableName(c.directory, p.next) !in files
            else Load(files, TableName(c.directory, p.next)) == Loaded(merged)
  {
    hide *;
    NewMetaNames(c, p.next, merged);
    if c.deletion.AsWritten? {
      RemovedGone(d, NewMeta(c, p.next, merged));
    } else {
      BackedAfterWrite(c, space, p.disk.files, p.tables, contents, p.next, TableBytes(merged));
      NewFileLoads(c, space, p.disk.files, p.next, merged);
      RemovedKeeps(d, p.tables, TableName(c.directory, p.next));
    }
  }

  /** The intended loop deletes the merged tables' files, the loop as written none of them. */
  lemma OldFiles(c: Config, space: set<bytes>, p: Process, contents: seq<Data>, d: Image, merged: Data)
    requires ListBacked(c, space, p.disk.files, p.tables, contents) && M.IdsOrdered(p.tables, p.next)
    requires AllPresent(p.disk.files, p.tables)
    requires d.files == NewFile(c, p.disk.files, p.next, TableBytes(merged))
    ensures var victims := if c.deletion.AsWritten? then [NewMeta(c, p.next, merged)] else p.tables;
            forall i :: 0 <= i < |p.tables| ==> (p.tables[i].filename in RemoveFiles(d, victims).files <==> c.deletion.AsWritten?)
  {
    hide *;
    NewMetaNames(c, p.next, merged);
    BackedAfterWrite(c, space, p.disk.files, p.tables, contents, p.next, TableBytes(merged));
    var victims := if c.deletion.AsWritten? then [NewMeta(c, p.next, merged)] else p.tables;
    SomePresent(d.files, p.tables, 0);
    forall i | 0 <= i < |p.tables|
      ensures p.tables[i].filename in RemoveFiles(d, victims).files <==> c.deletion.AsWritten?
    {
      RemovedContents(d, victims, p.tables[i].filename);
    }
  }

  lemma OrderedIsBelow(tables: seq<Meta>, next: nat)
    requires M.IdsOrdered(tables, next)
    ensures IdsBelowNext(tables, next)
  {
  }

  /** Any merge of tables that are all there, even one that leaves nothing, keeps what the process shows. */
  lemma LiveCompact(c: Config, space: set<bytes>, p: Process, contents: seq<Data>, a: map<bytes, bytes>, m: nat)
    requires ConfigOk(c, space) && LiveOk(c, space, p, contents, a, m) && m + 1 < TWO_64
    requires |p.tables| >= 2 && AllPresent(p.disk.files, p.tables)
    ensures var merged := DropTombstones(Stack(contents));
            var q := Compact(c, p).process;
            && Compact(c, p).ok && q.tables == [NewMeta(c, p.next, merged)]
            && q.data == p.data && q.disk.wal == p.disk.wal
            && LiveOk(c, space, q, [merged], a, m + 1)
            && (c.deletion.AsWritten? ==> q.tables[0].filename !in q.disk.files)
            && (forall i :: 0 <= i < |p.tables| ==> (p.tables[i].filename in q.disk.files <==> c.deletion.AsWritten?))
  {
    hide *;
    ConfigParts(c, space);
    LiveParts(c, space, p, contents, a, m);
    StackLoads(c, space, p.disk.files, p.tables, contents);
    OrderedIsBelow(p.tables, p.next);
    CompactSteps(c, p, Stack(contents));
    NextIdIs(p.next);
    var merged := DropTombstones(Stack(contents));
    MergeGood(space, Stack(contents));
    var t := NewMeta(c, p.next, merged);
    var image := Image(p.disk.wal, p.disk.manifest, NewFile(c, p.disk.files, p.next, TableBytes(merged)));
    var unpublished := WithManifest(image, p.next + 1, [t]);
    WithManifestIs(image, p.next + 1, [t]);
    var victims := if c.deletion.AsWritten? then [t] else p.tables;
    RemovalKeepsRest(unpublished, victims);
    Deleted(c, space, p, contents, unpublished, merged);
    OldFiles(c, space, p, contents, unpublished, merged);
    NewFileIs(c, p.disk.files, p.next, TableBytes(merged));
    NamesAfterWrite(c.directory, p.disk.files, p.next, TableBytes(merged), m, m + 1);
    NamesAfterRemoval(c.directory, unpublished, victims, m + 1);
    NewMetaNames(c, p.next, merged);
    MoreOrdered(p.tables, p.next, t);
    AloneBacked(c, space, RemoveFiles(unpublished, victims).files, p.next, merged);
    StackOne(merged);
    DropTombstonesLive(Stack(contents));
    LiveOverlay(merged, Stack(contents), p.data);
    MakeLive(c, space, Compact(c, p).process, [merged], a, m + 1);
  }

  lemma CompactIdle(c: Config, p: Process)
    ensures |p.tables| < 2 ==> Compact(c, p) == Effect([], p, true)
    ensures |p.tables| >= 2 && !AllPresent(p.disk.files, p.tables) ==> Compact(c, p) == Effect([], p, false)
  {
    hide Replace, DropTombstones, LoadAll, AllPresent;
    if !AllPresent(p.disk.files, p.tables) {
      MissingFailsLoad(p.disk.files, p.tables);
    }
  }

  // ---------------------------------------------------------------------------
  // The whole command
  // ---------------------------------------------------------------------------

  lemma EntriesSnoc(tables: seq<Meta>, t: Meta)
    ensures ListsEntries(tables + [t]) <==> ListsEntries(tables) && t.entryCount != 0
  {
    var more := tables + [t];
    assert more[|tables|] == t;
    if ListsEntries(more) {
      assert forall i :: 0 <= i < |tables| ==> more[i] == tables[i];
    }
  }

  lemma EntriesOfNew(c: Config, tables: seq<Meta>, next: nat, d: Data)
    ensures ListsEntries(tables + [NewMeta(c, next, d)]) <==> ListsEntries(tables) && d != map[]
    ensures ListsEntries([NewMeta(c, next, d)]) <==> d != map[]
  {
    hide *;
    NewMetaCount(c, next, d);
    EntriesSnoc(tables, NewMeta(c, next, d));
    EntriesSnoc([], NewMeta(c, next, d));
    assert [] + [NewMeta(c, next, d)] == [NewMeta(c, next, d)];
    NoEntries();
  }

  lemma NoEntries()
    ensures ListsEntries([])
  {
  }

  lemma MaybeCompactSplit(c: Config, p: Process)
    ensures MaybeCompact(c, p) == if |p.tables| >= c.compactionThreshold then Compact(c, p) else Effect([], p, true)
  {
    hide Compact;
  }

  /** Enough tables for a merge. */
  predicate EnoughTables(c: Config, tables: seq<Meta>)
  {
    |tables| >= c.compactionThreshold && |tables| >= 2
  }

  lemma LiveMaybeCompact(c: Config, space: set<bytes>, p: Process, contents: seq<Data>, a: map<bytes, bytes>, m: nat)
    requires ConfigOk(c, space) && LiveOk(c, space, p, contents, a, m) && m + 1 < TWO_64 && p.data == map[]
    ensures var e := MaybeCompact(c, p);
            && Serves(c, space, e.process, a, m + 1)
            && e.process.data == map[] && e.process.disk.wal == p.disk.wal
            && |e.process.tables| == (if EnoughTables(c, p.tables) && AllPresent(p.disk.files, p.tables) then 1 else |p.tables|)
            && (e.ok <==> (EnoughTables(c, p.tables) ==> AllPresent(p.disk.files, p.tables)))
            && (ListsEntries(e.process.tables) <==>
                  if EnoughTables(c, p.tables) && AllPresent(p.disk.files, p.tables) then a != map[] else ListsEntries(p.tables))
  {
    EnoughIs(c, p.tables);
    hide *;
    MaybeCompactSplit(c, p);
    LiveParts(c, space, p, contents, a, m);
    if EnoughTables(c, p.tables) && AllPresent(p.disk.files, p.tables) {
      LiveCompact(c, space, p, contents, a, m);
      MergeShows(Stack(contents), a);
      EntriesOfNew(c, [], p.next, DropTombstones(Stack(contents)));
      MakeServes(c, space, Compact(c, p).process, [DropTombstones(Stack(contents))], a, m + 1);
    } else {
      CompactIdle(c, p);
      LiveWeaken(c, space, p, contents, a, m, m + 1);
      MakeServes(c, space, p, contents, a, m + 1);
    }
  }

  lemma EnoughIs(c: Config, tables: seq<Meta>)
    ensures EnoughTables(c, tables) <==> |tables| >= c.compactionThreshold && |tables| >= 2
  {
  }

  lemma MakeServes(c: Config, space: set<bytes>, p: Process, contents: seq<Data>, a: map<bytes, bytes>, m: nat)
    requires LiveOk(c, space, p, contents, a, m)
    ensures Serves(c, space, p, a, m)
  {
    hide LiveOk;
  }

  lemma GetContents(c: Config, space: set<bytes>, p: Process, a: map<bytes, bytes>, m: nat) returns (contents: seq<Data>)
    requires Serves(c, space, p, a, m)
    ensures LiveOk(c, space, p, contents, a, m)
  {
    hide LiveOk;
    contents :| LiveOk(c, space, p, contents, a, m);
  }

  /**
   * Any PUT or DELETE that a table can hold, whatever the log is like and whatever a merge leaves: the process
   * shows the new map. It reports success unless it comes to a merge and finds a table missing, and it lists a
   * table without entries afterwards exactly if it merged to nothing, or merged not and listed one before. A flush
   * adds a table, and a merge leaves one.
   */
  lemma LiveCommand(c: Config, space: set<bytes>, p: Process, r: Record, flush: bool, a: map<bytes, bytes>, m: nat)
    requires ConfigOk(c, space) && Serves(c, space, p, a, m) && m + 2 < TWO_64 && Storable(space, r)
    ensures var e := Command(c, p, r, flush);
            && Serves(c, space, e.process, After(a, r), m + 2)
            && (e.ok <==> (flush && |p.tables| + 1 >= c.compactionThreshold && |p.tables| + 1 >= 2
                           ==> AllPresent(p.disk.files, p.tables)))
            && (ListsEntries(e.process.tables) <==>
                  if WillCompact(c, p, flush) then After(a, r) != map[] else ListsEntries(p.tables))
            && (flush ==> e.process.data == map[] && e.process.disk.wal == [])
            && |e.process.tables| == (if WillCompact(c, p, flush) then 1 else if flush then |p.tables| + 1 else |p.tables|)
  {
    hide *;
    var contents := GetContents(c, space, p, a, m);
    var b, x := After(a, r), LogWrite(p, r).process;
    WriteIs(c, p, r, flush);
    WillCompactIs(c, p, flush);
    LogWriteParts(p, r);
    LiveLogWrite(c, space, p, contents, r, a, m);
    if flush {
      LiveFlush(c, space, x, contents, b, m);
      var f := Flush(c, x).process;
      EntriesOfNew(c, x.tables, x.next, x.data);
      EnoughIs(c, f.tables);
      LiveMaybeCompact(c, space, f, contents + [x.data], b, m + 1);
    } else {
      LogWriteReports(p, r);
      LiveWeaken(c, space, x, contents, b, m, m + 2);
      MakeServes(c, space, x, contents, b, m + 2);
    }
  }

  lemma LogWriteReports(p: Process, r: Record)
    ensures LogWrite(p, r).ok
  {
    hide RecordBytes, Apply;
  }

  // ---------------------------------------------------------------------------
  // Into this state from a start, and out of it into one that survives a crash
  // ---------------------------------------------------------------------------

  function ContentsOfAll(files: Files, tables: seq<Meta>): (contents: seq<Data>)
    ensures |contents| == |tables|
  {
    seq(|tables|, i requires 0 <= i < |tables| => ContentsOf(files, tables[i].filename))
  }

  lemma {:induction false} StackIsFold(files: Files, tables: seq<Meta>)
    ensures Stack(ContentsOfAll(files, tables)) == Fold(files, tables)
  {
    hide ContentsOf;
    if tables != [] {
      StackIsFold(files, tables[..|tables| - 1]);
      var contents := ContentsOfAll(files, tables);
      assert contents[..|contents| - 1] == ContentsOfAll(files, tables[..|tables| - 1]);
    }
  }

  lemma OkIsBacked(c: Config, space: set<bytes>, files: Files, tables: seq<Meta>)
    requires AllOk(c.directory, space, files, tables)
    ensures ListBacked(c, space, files, tables, ContentsOfAll(files, tables))
  {
    hide GoodData, Load, MetaOf, TableName;
    forall i | 0 <= i < |tables|
      ensures Backs(c, space, files, tables, i, ContentsOfAll(files, tables)[i])
    {
      assert TableOk(c.directory, space, files, tables[i]);
    }
  }

  lemma ListIsOrdered(directory: bytes, tables: seq<Meta>, next: nat)
    requires ListOk(directory, tables, next)
    ensures M.IdsOrdered(tables, next)
  {
    hide TableName, Printable;
  }

  /** A process that a start has produced. */
  lemma StartedServes(c: Config, space: set<bytes>, p: Process, a: map<bytes, bytes>, m: nat)
    requires ProcessOk(c, space, p, a, m) && AllPresent(p.disk.files, p.tables)
    ensures Serves(c, space, p, a, m)
  {
    hide *;
    ProcessParts(c, space, p, a, m);
    DiskParts(c, space, p.disk, p.next, p.tables, a, m);
    ListIsOrdered(c.directory, p.tables, p.next);
    StructurePresent(c, space, p.disk.files, p.next, p.tables);
    ShowsParts(c, p.disk.files, p.next, p.tables, p.data, a);
    OkIsBacked(c, space, p.disk.files, p.tables);
    StackIsFold(p.disk.files, p.tables);
    MakeLive(c, space, p, ContentsOfAll(p.disk.files, p.tables), a, m);
  }

  lemma BackedIsOk(c: Config, space: set<bytes>, files: Files, tables: seq<Meta>, contents: seq<Data>)
    requires ListBacked(c, space, files, tables, contents) && ListsEntries(tables) && c.deletion.AsIntended?
    ensures AllOk(c.directory, space, files, tables) && contents == ContentsOfAll(files, tables)
  {
    hide GoodData, Load, MetaOf, TableName, Backs;
    forall i | 0 <= i < |tables|
      ensures TableOk(c.directory, space, files, tables[i]) && contents[i] == ContentsOf(files, tables[i].filename)
    {
      BackedNames(c, space, files, tables, contents, i);
    }
  }

  lemma BackedIsListed(c: Config, space: set<bytes>, files: Files, tables: seq<Meta>, contents: seq<Data>, next: nat)
    requires ConfigOk(c, space) && ListBacked(c, space, files, tables, contents) && ListsEntries(tables)
    requires M.IdsOrdered(tables, next) && next < TWO_64
    ensures ListOk(c.directory, tables, next)
  {
    hide GoodData, MetaOf, TableName, Backs, Printable, Load;
    forall i | 0 <= i < |tables|
      ensures Printable(tables[i]) && tables[i].filename == TableName(c.directory, tables[i].id)
    {
      BackedNames(c, space, files, tables, contents, i);
      MetaIsPrintable(c.directory, space, tables[i].id, contents[i]);
    }
  }

  /** With the intended loop a list without empty tables is all that a start needs besides the log. */
  lemma ServesTables(c: Config, space: set<bytes>, p: Process, a: map<bytes, bytes>, m: nat)
    requires ConfigOk(c, space) && Serves(c, space, p, a, m) && ListsEntries(p.tables) && c.deletion.AsIntended?
    ensures TablesOk(c, space, p, a, m)
  {
    hide *;
    var contents := GetContents(c, space, p, a, m);
    LiveParts(c, space, p, contents, a, m);
    BackedIsOk(c, space, p.disk.files, p.tables, contents);
    BackedIsListed(c, space, p.disk.files, p.tables, contents, p.next);
    StackIsFold(p.disk.files, p.tables);
    MakeIntended(c, space, p.disk.files, p.next, p.tables);
    MakeIntendedShows(c, p.disk.files, p.next, p.tables, p.data, a);
    MakeTables(c, space, p, a, m);
  }

  lemma MakeIntendedShows(c: Config, files: Files, next: nat, tables: seq<Meta>, r: Data, a: map<bytes, bytes>)
    requires c.deletion.AsIntended? && Live(Fold(files, tables) + r) == a
    ensures Shows(c, files, next, tables, r, a)
  {
    hide Fold, Live, AllPresent;
  }

  lemma MakeTables(c: Config, space: set<bytes>, p: Process, a: map<bytes, bytes>, m: nat)
    requires ManifestIs(p.disk.manifest, p.next, p.tables)
    requires ListOk(c.directory, p.tables, p.next) && 1 <= p.next <= m < TWO_64
    requires NamesOk(c.directory, p.disk.files, m) && Structure(c, space, p.disk.files, p.next, p.tables)
    requires GoodData(space, p.data) && Shows(c, p.disk.files, p.next, p.tables, p.data, a)
    ensures TablesOk(c, space, p, a, m)
  {
    hide ManifestIs, ListOk, NamesOk, Structure, GoodData, Shows;
  }

  /** With the loop as written a table without entries is a table without its file. */
  lemma WrittenEmptyIsMissing(c: Config, space: set<bytes>, p: Process, a: map<bytes, bytes>, m: nat)
    requires Serves(c, space, p, a, m) && c.deletion.AsWritten? && !ListsEntries(p.tables)
    ensures !AllPresent(p.disk.files, p.tables)
  {
    hide LiveOk, Backs, Load, GoodData;
    var contents := GetContents(c, space, p, a, m);
    LiveParts(c, space, p, contents, a, m);
    var i :| 0 <= i < |p.tables| && p.tables[i].entryCount == 0;
    BackedNames(c, space, p.disk.files, p.tables, contents, i);
  }
}
