/** Every disk state a PUT or DELETE passes through recovers to the map before it or to the map after it. */
module CommandSafety {
  import opened Bytes
  import opened Text
  import opened Entries
  import opened FileSystem
  import opened WalRecord
  import opened Recovery
  import opened SSTable
  import opened ManifestText
  import opened TableNames
  import opened Engine
  import opened Invariant
  import opened Frames

  /** The plain key-value map after one logged command. */
  function After(a: map<bytes, bytes>, r: Record): map<bytes, bytes>
  {
    match r.kind
    case Put => a[r.key := r.value]
    case Delete => a - {r.key}
  }

  /** Every state of the trace is safe for the map a. */
  ghost predicate AllSafe(c: Config, space: set<bytes>, trace: seq<Image>, a: map<bytes, bytes>, m: nat)
  {
    forall i :: 0 <= i < |trace| ==> Safe(c, space, trace[i], a, m)
  }

  lemma SafeWeaken(c: Config, space: set<bytes>, d: Image, a: map<bytes, bytes>, m: nat, n: nat)
    requires Safe(c, space, d, a, m) && m <= n < TWO_64
    ensures Safe(c, space, d, a, n)
  {
    hide DiskOk;
    var next: nat, tables: seq<Meta> :| DiskOk(c, space, d, next, tables, a, m);
    DiskOkWeaken(c, space, d, next, tables, a, m, n);
  }

  lemma AllSafeWeaken(c: Config, space: set<bytes>, trace: seq<Image>, a: map<bytes, bytes>, m: nat, n: nat)
    requires AllSafe(c, space, trace, a, m) && m <= n < TWO_64
    ensures AllSafe(c, space, trace, a, n)
  {
    hide Safe;
    forall i | 0 <= i < |trace|
      ensures Safe(c, space, trace[i], a, n)
    {
      SafeWeaken(c, space, trace[i], a, m, n);
    }
  }

  lemma AllSafeConcat(c: Config, space: set<bytes>, s: seq<Image>, t: seq<Image>, a: map<bytes, bytes>, m: nat)
    requires AllSafe(c, space, s, a, m) && AllSafe(c, space, t, a, m)
    ensures AllSafe(c, space, s + t, a, m)
  {
    hide Safe;
  }

  // ---------------------------------------------------------------------------
  // The log append
  // ---------------------------------------------------------------------------

  lemma LiveApply(x: Data, d: Data, r: Record)
    ensures Live(x + Apply(d, r)) == After(Live(x + d), r)
  {
    match r.kind
    case Put => LivePut(x + d, r.key, r.value); assert x + d[r.key := Entry(r.value, false)] == (x + d)[r.key := Entry(r.value, false)];
    case Delete => LiveDelete(x + d, r.key); assert x + d[r.key := TOMBSTONE] == (x + d)[r.key := TOMBSTONE];
  }

  lemma LivePut(d: Data, key: bytes, value: bytes)
    ensures Live(d[key := Entry(value, false)]) == Live(d)[key := value]
  {
  }

  lemma LiveDelete(d: Data, key: bytes)
    ensures Live(d[key := TOMBSTONE]) == Live(d) - {key}
  {
  }

  lemma ShowsApply(c: Config, files: Files, next: nat, tables: seq<Meta>, d: Data, r: Record, a: map<bytes, bytes>)
    requires Shows(c, files, next, tables, d, a)
    ensures Shows(c, files, next, tables, Apply(d, r), After(a, r))
  {
    hide Fold, FoldBelow, Live, AllPresent, Apply, After;
    LiveApply(Fold(files, tables), d, r);
    LiveApply(FoldBelow(c.directory, files, next), d, r);
    LiveApply(FoldBelow(c.directory, files, next + 1), d, r);
  }

  lemma ContainsApply(d: Data, e: Data, r: Record)
    requires Contains(d, e)
    ensures Contains(Apply(d, r), Apply(e, r))
  {
  }

  /** A torn append leaves the old map, a whole one the new. */
  lemma AppendSafe(c: Config, space: set<bytes>, p: Process, r: Record, a: map<bytes, bytes>, m: nat, j: nat)
    requires ProcessOk(c, space, p, a, m)
    requires RecoverWal(p.disk.wal).rest == [] && Acceptable(space, r) && j <= |RecordBytes(r)|
    ensures var d := p.disk.(wal := p.disk.wal + RecordBytes(r)[..j]);
            DiskOk(c, space, d, p.next, p.tables, if j < |RecordBytes(r)| then a else After(a, r), m)
  {
    LogAppend(space, p.disk.wal, r, j);
    hide RecoverWal, RecordBytes, Structure, Shows, LogOk, ListOk, NamesOk, ManifestIs, Apply, After, Acceptable;
    if j == |RecordBytes(r)| {
      ShowsApply(c, p.disk.files, p.next, p.tables, RecoverWal(p.disk.wal).data, r, a);
    }
  }

  lemma LogWriteSafe(c: Config, space: set<bytes>, p: Process, r: Record, a: map<bytes, bytes>, m: nat)
    requires ProcessOk(c, space, p, a, m)
    requires RecoverWal(p.disk.wal).rest == [] && Acceptable(space, r)
    ensures var e := LogWrite(p, r);
            && |e.trace| == |RecordBytes(r)|
            && ProcessOk(c, space, e.process, After(a, r), m)
            && (forall i :: 0 <= i < |e.trace| - 1 ==> Safe(c, space, e.trace[i], a, m))
            && (forall i :: i == |e.trace| - 1 ==> Safe(c, space, e.trace[i], After(a, r), m))
            && RecoverWal(e.process.disk.wal).rest == [] && e.process.data != map[]
  {
    hide *;
    LogWriteSteps(p, r);
    var e, s := LogWrite(p, r), RecordBytes(r);
    forall i | 0 <= i < |s|
      ensures Safe(c, space, e.trace[i], if i < |s| - 1 then a else After(a, r), m)
    {
      AppendSafe(c, space, p, r, a, m, i + 1);
      MakeSafe(c, space, e.trace[i], p.next, p.tables, if i < |s| - 1 then a else After(a, r), m);
    }
    assert s[..|s|] == s;
    AppendSafe(c, space, p, r, a, m, |s|);
    AppendedProcess(c, space, p, r, a, m);
    MakeRunning(c, space, e.process, After(a, r), m);
  }

  lemma MakeSafe(c: Config, space: set<bytes>, d: Image, next: nat, tables: seq<Meta>, a: map<bytes, bytes>, m: nat)
    requires DiskOk(c, space, d, next, tables, a, m)
    ensures Safe(c, space, d, a, m)
  {
    hide DiskOk;
  }

  lemma MakeRunning(c: Config, space: set<bytes>, p: Process, a: map<bytes, bytes>, m: nat)
    requires DiskOk(c, space, p.disk, p.next, p.tables, a, m) && GoodData(space, p.data)
    requires Contains(p.data, RecoverWal(p.disk.wal).data) && Shows(c, p.disk.files, p.next, p.tables, p.data, a)
    ensures ProcessOk(c, space, p, a, m)
  {
    hide DiskOk, GoodData, RecoverWal, Shows, Contains;
  }

  /** The states of an append, spelled out. */
  lemma LogWriteSteps(p: Process, r: Record)
    ensures var e := LogWrite(p, r);
            && |e.trace| == |RecordBytes(r)| > 0
            && (forall i :: 0 <= i < |e.trace| ==> e.trace[i] == p.disk.(wal := p.disk.wal + RecordBytes(r)[..i + 1]))
            && e.process.disk == p.disk.(wal := p.disk.wal + RecordBytes(r))
            && e.process.next == p.next && e.process.tables == p.tables
  {
    hide RecordBytes, Apply;
    RecordIsLong(r);
  }

  lemma AppendedProcess(c: Config, space: set<bytes>, p: Process, r: Record, a: map<bytes, bytes>, m: nat)
    requires ProcessOk(c, space, p, a, m)
    requires RecoverWal(p.disk.wal).rest == [] && Acceptable(space, r)
    ensures var q := LogWrite(p, r).process;
            && GoodData(space, q.data) && q.data != map[]
            && Contains(q.data, RecoverWal(q.disk.wal).data)
            && RecoverWal(q.disk.wal).rest == []
            && Shows(c, q.disk.files, q.next, q.tables, q.data, After(a, r))
  {
    var s := RecordBytes(r);
    assert s[..|s|] == s;
    LogAppend(space, p.disk.wal, r, |s|);
    assert r.key in Apply(p.data, r);
    AcceptableIsStorable(space, r);
    ApplyGood(space, p.data, r);
    hide RecoverWal, RecordBytes, Shows, DiskOk, Apply, After, Contains, GoodData, Acceptable;
    ShowsApply(c, p.disk.files, p.next, p.tables, p.data, r, a);
    ContainsApply(p.data, RecoverWal(p.disk.wal).data, r);
  }

  // ---------------------------------------------------------------------------
  // A new table: written, then published
  // ---------------------------------------------------------------------------

  function NewFile(c: Config, files: Files, next: nat, s: bytes): Files
  {
    files[TableName(c.directory, next) := s]
  }

  ghost function NewMeta(c: Config, next: nat, d: Data): Meta
  {
    MetaOf(next, TableName(c.directory, next), d)
  }

  /** The new table d, under r, adds nothing to what the directory shows. */
  ghost predicate Harmless(c: Config, files: Files, next: nat, d: Data, r: Data, a: map<bytes, bytes>)
  {
    c.deletion.AsWritten? ==> Live(FoldBelow(c.directory, files, next) + d + r) == a
  }

  /** The new table d, under r, shows a together with the listed tables and with the directory. */
  ghost predicate Fitting(c: Config, files: Files, next: nat, tables: seq<Meta>, d: Data, r: Data, a: map<bytes, bytes>)
  {
    && (AllPresent(files, tables) ==> Live(Fold(files, tables) + d + r) == a)
    && Harmless(c, files, next, d, r, a)
  }

  lemma HoldingWritten(space: set<bytes>, d: Data, j: nat)
    requires GoodData(space, d) && |space| < TWO_64 && j <= |TableBytes(d)|
    ensures Holding(TableBytes(d)[..j]) == if j == |TableBytes(d)| then d else map[]
  {
    WrittenParses(space, d, j);
    hide ParseTable, TableBytes;
  }

  lemma NothingIsHarmless(c: Config, files: Files, next: nat, tables: seq<Meta>, r: Data, a: map<bytes, bytes>)
    requires Shows(c, files, next, tables, r, a)
    ensures Harmless(c, files, next, map[], r, a)
  {
    hide FoldBelow, Live, Fold;
    AddNothing(FoldBelow(c.directory, files, next), map[]);
  }

  /** A table file torn at any byte, or whole but not yet published. */
  lemma WriteStateSafe(c: Config, space: set<bytes>, d: Image, next: nat, tables: seq<Meta>, a: map<bytes, bytes>, m: nat, table: Data, j: nat)
    requires ConfigOk(c, space) && DiskOk(c, space, d, next, tables, a, m)
    requires GoodData(space, table) && Harmless(c, d.files, next, table, RecoverWal(d.wal).data, a)
    requires j <= |TableBytes(table)|
    ensures DiskOk(c, space, d.(files := NewFile(c, d.files, next, TableBytes(table)[..j])), next, tables, a, m)
  {
    var s, r := TableBytes(table)[..j], RecoverWal(d.wal).data;
    HoldingWritten(space, table, j);
    hide RecoverWal, TableBytes, Holding, TableName, ListOk, LogOk, ManifestIs, GoodData;
    NothingIsHarmless(c, d.files, next, tables, r, a);
    assert GoodData(space, map[]) by { NoData(space); }
    WriteKeepsStructure(c, space, d.files, next, tables, s);
    WriteKeepsShowing(c, d.files, next, tables, s, r, a);
    NamesAfterWrite(c.directory, d.files, next, s, m, m);
  }

  lemma NoData(space: set<bytes>)
    ensures GoodData(space, map[])
  {
  }

  lemma WriteTraceSafe(c: Config, space: set<bytes>, d: Image, next: nat, tables: seq<Meta>, a: map<bytes, bytes>, m: nat, table: Data)
    requires ConfigOk(c, space) && DiskOk(c, space, d, next, tables, a, m)
    requires GoodData(space, table) && Harmless(c, d.files, next, table, RecoverWal(d.wal).data, a)
    ensures AllSafe(c, space, WriteTrace(d, TableName(c.directory, next), TableBytes(table)), a, m)
    ensures DiskOk(c, space, d.(files := NewFile(c, d.files, next, TableBytes(table))), next, tables, a, m)
  {
    hide DiskOk, TableBytes, TableName, RecoverWal, GoodData, Harmless;
    var t := WriteTrace(d, TableName(c.directory, next), TableBytes(table));
    forall i | 0 <= i < |t|
      ensures Safe(c, space, t[i], a, m)
    {
      WriteStateSafe(c, space, d, next, tables, a, m, table, i);
    }
    var whole := |TableBytes(table)|;
    assert TableBytes(table)[..whole] == TableBytes(table);
    WriteStateSafe(c, space, d, next, tables, a, m, table, whole);
  }

  lemma NewFileLoads(c: Config, space: set<bytes>, files: Files, next: nat, table: Data)
    requires GoodData(space, table) && |space| < TWO_64
    ensures var files' := NewFile(c, files, next, TableBytes(table));
            && Load(files', TableName(c.directory, next)) == Loaded(table)
            && ContentsOf(files', TableName(c.directory, next)) == table
            && Holding(TableBytes(table)) == table
  {
    var whole := |TableBytes(table)|;
    assert TableBytes(table)[..whole] == TableBytes(table);
    WrittenParses(space, table, whole);
    hide TableBytes, ParseTable, TableName, GoodData;
  }

  /** Once the MANIFEST names the whole new file, the tables show a under r. */
  lemma PublishedShows(c: Config, space: set<bytes>, files: Files, next: nat, tables: seq<Meta>, table: Data, r: Data, a: map<bytes, bytes>)
    requires ConfigOk(c, space) && ListOk(c.directory, tables, next) && Structure(c, space, files, next, tables)
    requires GoodData(space, table) && Fitting(c, files, next, tables, table, r, a)
    ensures Shows(c, NewFile(c, files, next, TableBytes(table)), next + 1, tables + [NewMeta(c, next, table)], r, a)
  {
    var s := TableBytes(table);
    var files' := NewFile(c, files, next, s);
    NewFileLoads(c, space, files, next, table);
    MetaNames(next, TableName(c.directory, next), table);
    FoldAfterWrite(c.directory, files, tables, next, s);
    ContentsAfterWrite(c.directory, files, next, s);
    FoldBelowFrame(c.directory, files, files', next);
    hide MetaOf, TableName, ListOk, ContentsOf, Holding, Fold, FoldBelow, Live, AllPresent, TableBytes, GoodData, AllOk, DirectoryOk;
    if c.deletion.AsWritten? {
      DirectoryAfterWrite(c.directory, space, files, next, s);
    }
    PublishShows(c, space, files', next, tables, NewMeta(c, next, table), r, a);
  }

  lemma PublishedStructure(c: Config, space: set<bytes>, files: Files, next: nat, tables: seq<Meta>, table: Data)
    requires ConfigOk(c, space) && ListOk(c.directory, tables, next) && Structure(c, space, files, next, tables)
    requires GoodData(space, table) && table != map[]
    ensures Structure(c, space, NewFile(c, files, next, TableBytes(table)), next + 1, tables + [NewMeta(c, next, table)])
  {
    hide ListOk, Structure, GoodData, TableName, TableBytes, MetaOf, Load, Holding;
    NewFileLoads(c, space, files, next, table);
    WriteKeepsStructure(c, space, files, next, tables, TableBytes(table));
    PublishKeepsStructure(c, space, NewFile(c, files, next, TableBytes(table)), next, tables, table);
  }

  /** The disk after the rename that makes the new table the last of the list, whatever the log then is. */
  lemma PublishedOk(c: Config, space: set<bytes>, d: Image, next: nat, tables: seq<Meta>, a: map<bytes, bytes>, m: nat, table: Data, wal: bytes)
    requires ConfigOk(c, space) && ListOk(c.directory, tables, next) && next <= m && m + 1 < TWO_64
    requires NamesOk(c.directory, d.files, m) && Structure(c, space, d.files, next, tables)
    requires GoodData(space, table) && table != map[] && LogOk(space, wal)
    requires Fitting(c, d.files, next, tables, table, RecoverWal(wal).data, a)
    ensures var image := Image(wal, d.manifest, NewFile(c, d.files, next, TableBytes(table)));
            var more := tables + [NewMeta(c, next, table)];
            DiskOk(c, space, WithManifest(image, next + 1, more), next + 1, more, a, m + 1)
  {
    hide *;
    ConfigParts(c, space);
    var image := Image(wal, d.manifest, NewFile(c, d.files, next, TableBytes(table)));
    var more := tables + [NewMeta(c, next, table)];
    PublishedShows(c, space, d.files, next, tables, table, RecoverWal(wal).data, a);
    PublishedStructure(c, space, d.files, next, tables, table);
    PublishedList(c.directory, space, tables, next, table);
    NewMetaIs(c, next, table);
    NamesAfterWrite(c.directory, d.files, next, TableBytes(table), m, m + 1);
    NewFileIs(c, d.files, next, TableBytes(table));
    WithManifestIs(image, next + 1, more);
    MakeDisk(c, space, WithManifest(image, next + 1, more), next + 1, more, a, m + 1);
  }

  lemma NewMetaIs(c: Config, next: nat, d: Data)
    ensures NewMeta(c, next, d) == MetaOf(next, TableName(c.directory, next), d)
  {
    hide MetaOf, TableName;
  }

  lemma NewFileIs(c: Config, files: Files, next: nat, s: bytes)
    ensures NewFile(c, files, next, s) == files[TableName(c.directory, next) := s]
  {
    hide TableName;
  }

  lemma ConfigParts(c: Config, space: set<bytes>)
    requires ConfigOk(c, space)
    ensures AllIn(Visible, c.directory) && |space| < TWO_64
  {
  }

  lemma WithManifestIs(d: Image, next: nat, tables: seq<Meta>)
    ensures var e := WithManifest(d, next, tables);
            ManifestIs(e.manifest, next, tables) && e.wal == d.wal && e.files == d.files
  {
    hide Print;
  }

  // ---------------------------------------------------------------------------
  // Flush
  // ---------------------------------------------------------------------------

  /** The memtable, with or without its own log replayed above it, fits as the newest table. */
  lemma MemtableFits(c: Config, space: set<bytes>, p: Process, a: map<bytes, bytes>, m: nat)
    requires ProcessOk(c, space, p, a, m)
    ensures Fitting(c, p.disk.files, p.next, p.tables, p.data, RecoverWal(p.disk.wal).data, a)
    ensures Fitting(c, p.disk.files, p.next, p.tables, p.data, map[], a)
  {
    hide RecoverWal, Fold, FoldBelow, Live, AllPresent, GoodData, Contains, LogOk, Structure, ListOk, NamesOk, ManifestIs;
    var r := RecoverWal(p.disk.wal).data;
    ReplayContained(Fold(p.disk.files, p.tables), p.data, r);
    ReplayContained(FoldBelow(c.directory, p.disk.files, p.next), p.data, r);
    AddNothing(Fold(p.disk.files, p.tables) + p.data, map[]);
    AddNothing(FoldBelow(c.directory, p.disk.files, p.next) + p.data, map[]);
  }

  lemma ClearedProcess(c: Config, space: set<bytes>, p: Process, a: map<bytes, bytes>, m: nat)
    requires DiskOk(c, space, p.disk, p.next, p.tables, a, m) && p.data == map[] && p.disk.wal == []
    ensures ProcessOk(c, space, p, a, m) && RecoverWal(p.disk.wal).rest == []
  {
    EmptyLog(space);
    hide RecoverWal, Shows, Structure, ListOk, NamesOk, LogOk, ManifestIs;
    NoData(space);
  }

  /** A flush changes nothing a reader or a recovery can see, at any of its durable steps. */
  lemma FlushSafe(c: Config, space: set<bytes>, p: Process, a: map<bytes, bytes>, m: nat)
    requires ConfigOk(c, space) && ProcessOk(c, space, p, a, m) && m + 1 < TWO_64
    ensures var e := Flush(c, p);
            && AllSafe(c, space, e.trace, a, m + 1)
            && ProcessOk(c, space, e.process, a, m + 1)
            && (p.data != map[] ==> e.process.disk.wal == [] && e.process.data == map[])
  {
    hide *;
    FlushSteps(c, p);
    if p.data != map[] {
      var files := NewFile(c, p.disk.files, p.next, TableBytes(p.data));
      var more := p.tables + [NewMeta(c, p.next, p.data)];
      var published := WithManifest(Image(p.disk.wal, p.disk.manifest, files), p.next + 1, more);
      var reset := WithManifest(Image([], p.disk.manifest, files), p.next + 1, more);
      var writing := WriteTrace(p.disk, TableName(c.directory, p.next), TableBytes(p.data));
      ProcessParts(c, space, p, a, m);
      NextIdIs(p.next);
      MemtableFits(c, space, p, a, m);
      FittingIsHarmless(c, p, a);
      WriteTraceSafe(c, space, p.disk, p.next, p.tables, a, m, p.data);
      AllSafeWeaken(c, space, writing, a, m, m + 1);
      PublishedOk(c, space, p.disk, p.next, p.tables, a, m, p.data, p.disk.wal);
      AllSafeSnoc(c, space, writing, published, p.next + 1, more, a, m + 1);
      EmptyLog(space);
      PublishedOk(c, space, p.disk, p.next, p.tables, a, m, p.data, []);
      AllSafeSnoc(c, space, writing + [published], reset, p.next + 1, more, a, m + 1);
      ManifestKeepsLog(Image([], p.disk.manifest, files), p.next + 1, more);
      ClearedProcess(c, space, Process(reset, map[], more, p.next + 1), a, m + 1);
    } else {
      ProcessWeaken(c, space, p, a, m, m + 1);
      NoStates(c, space, a, m + 1);
    }
  }

  lemma NoStates(c: Config, space: set<bytes>, a: map<bytes, bytes>, m: nat)
    ensures AllSafe(c, space, [], a, m)
  {
  }

  lemma ManifestKeepsLog(d: Image, next: nat, tables: seq<Meta>)
    ensures WithManifest(d, next, tables).wal == d.wal && WithManifest(d, next, tables).files == d.files
  {
    hide Print;
  }

  lemma AllSafeSnoc(c: Config, space: set<bytes>, s: seq<Image>, d: Image, next: nat, tables: seq<Meta>, a: map<bytes, bytes>, m: nat)
    requires AllSafe(c, space, s, a, m) && DiskOk(c, space, d, next, tables, a, m)
    ensures AllSafe(c, space, s + [d], a, m)
  {
    hide DiskOk;
    assert Safe(c, space, d, a, m);
    hide Safe;
  }

  lemma ProcessParts(c: Config, space: set<bytes>, p: Process, a: map<bytes, bytes>, m: nat)
    requires ProcessOk(c, space, p, a, m)
    ensures DiskOk(c, space, p.disk, p.next, p.tables, a, m) && GoodData(space, p.data) && LogOk(space, p.disk.wal)
    ensures ListOk(c.directory, p.tables, p.next) && Structure(c, space, p.disk.files, p.next, p.tables)
    ensures p.next <= m && NamesOk(c.directory, p.disk.files, m)
    ensures Shows(c, p.disk.files, p.next, p.tables, RecoverWal(p.disk.wal).data, a)
    ensures Shows(c, p.disk.files, p.next, p.tables, p.data, a)
    ensures Contains(p.data, RecoverWal(p.disk.wal).data)
  {
    hide GoodData, LogOk, Shows, Structure, ListOk, NamesOk, ManifestIs, Contains, RecoverWal;
  }

  lemma FittingIsHarmless(c: Config, p: Process, a: map<bytes, bytes>)
    requires Fitting(c, p.disk.files, p.next, p.tables, p.data, RecoverWal(p.disk.wal).data, a)
    ensures Harmless(c, p.disk.files, p.next, p.data, RecoverWal(p.disk.wal).data, a)
  {
    hide Harmless, RecoverWal, Live, Fold;
  }

  lemma ProcessWeaken(c: Config, space: set<bytes>, p: Process, a: map<bytes, bytes>, m: nat, n: nat)
    requires ProcessOk(c, space, p, a, m) && m <= n < TWO_64
    ensures ProcessOk(c, space, p, a, n)
  {
    hide DiskOk, RecoverWal, GoodData, Contains, Shows;
    DiskOkWeaken(c, space, p.disk, p.next, p.tables, a, m, n);
  }

  /** The states of a flush, spelled out. */
  lemma FlushSteps(c: Config, p: Process)
    ensures p.data == map[] ==> Flush(c, p) == Effect([], p, true)
    ensures p.data != map[] ==>
      var files := NewFile(c, p.disk.files, p.next, TableBytes(p.data));
      var more := p.tables + [NewMeta(c, p.next, p.data)];
      var published := WithManifest(Image(p.disk.wal, p.disk.manifest, files), NextId(p.next), more);
      var reset := WithManifest(Image([], p.disk.manifest, files), NextId(p.next), more);
      Flush(c, p) == Effect(WriteTrace(p.disk, TableName(c.directory, p.next), TableBytes(p.data)) + [published] + [reset],
                            Process(reset, map[], more, NextId(p.next)), true)
  {
    hide TableBytes, TableName, MetaOf, Print, NextId;
  }

  /** State j of a table write holds exactly the first j bytes. */
  lemma WriteStates(d: Image, name: bytes, s: bytes)
    ensures |WriteTrace(d, name, s)| == |s| + 1
    ensures forall j :: 0 <= j <= |s| ==>
              var torn := WriteTrace(d, name, s)[j];
              torn.wal == d.wal && torn.manifest == d.manifest && torn.files == d.files[name := s[..j]]
  {
  }

  /** The states of a flush one by one: every prefix of the table's bytes, the new list, the empty log. */
  lemma FlushPasses(c: Config, p: Process)
    requires p.data != map[]
    ensures var trace, s, name := Flush(c, p).trace, TableBytes(p.data), TableName(c.directory, p.next);
            var more := p.tables + [MetaOf(p.next, name, p.data)];
            var whole := p.disk.files[name := s];
            && |trace| == |s| + 3
            && (forall j :: 0 <= j <= |s| ==> trace[j] == Image(p.disk.wal, p.disk.manifest, p.disk.files[name := s[..j]]))
            && trace[|s| + 1] == Image(p.disk.wal, Some(Print(NextId(p.next), more)), whole)
            && trace[|s| + 2] == Image([], Some(Print(NextId(p.next), more)), whole)
  {
    var s, name := TableBytes(p.data), TableName(c.directory, p.next);
    WriteStates(p.disk, name, s);
    hide TableBytes, TableName, MetaOf, Print, NextId, WriteTrace;
  }

  /** The states of a removal one by one. */
  lemma {:induction false} RemovalPasses(d: Image, tables: seq<Meta>)
    ensures |RemoveTrace(d, tables)| == |tables|
    ensures forall k :: 0 <= k < |tables| ==> RemoveTrace(d, tables)[k] == RemoveFiles(d, tables[..k + 1])
  {
    hide RemoveFiles;
    if tables != [] {
      var n := |tables| - 1;
      RemovalPasses(d, tables[..n]);
      forall k | 0 <= k < |tables|
        ensures RemoveTrace(d, tables)[k] == RemoveFiles(d, tables[..k + 1])
      {
        if k < n {
          assert tables[..n][..k + 1] == tables[..k + 1];
        } else {
          assert tables[..k + 1] == tables;
        }
      }
    }
  }

  lemma NextIdIs(id: nat)
    requires id + 1 < TWO_64
    ensures NextId(id) == id + 1
  {
  }

  // ---------------------------------------------------------------------------
  // Compaction
  // ---------------------------------------------------------------------------

  /** The live entries of all tables fit both behind the old list and as the only table. */
  lemma MergeFits(c: Config, space: set<bytes>, p: Process, a: map<bytes, bytes>, m: nat)
    requires ProcessOk(c, space, p, a, m) && p.data == map[] && AllPresent(p.disk.files, p.tables)
    ensures var merged := DropTombstones(Fold(p.disk.files, p.tables));
            && RecoverWal(p.disk.wal).data == map[]
            && Fitting(c, p.disk.files, p.next, p.tables, merged, map[], a)
            && Fitting(c, p.disk.files, p.next, [], merged, map[], a)
            && (merged == map[] <==> a == map[])
  {
    hide RecoverWal, FoldBelow, GoodData, LogOk, Structure, ListOk, NamesOk, ManifestIs;
    var all := Fold(p.disk.files, p.tables);
    var merged := DropTombstones(all);
    assert RecoverWal(p.disk.wal).data == map[] by {
      assert forall k :: k in RecoverWal(p.disk.wal).data ==> k in p.data;
    }
    MergeShows(all, a);
    AddNothing(map[], map[]);
    AddNothing(merged, map[]);
    assert Fold(p.disk.files, []) == map[];
    hide Fold, Live;
    StackSame(all, merged, map[], a);
    if c.deletion.AsWritten? {
      StackSame(FoldBelow(c.directory, p.disk.files, p.next), merged, map[], a);
    }
  }

  lemma MergeShows(all: Data, a: map<bytes, bytes>)
    requires Live(all + map[]) == a
    ensures Live(DropTombstones(all) + map[]) == a
    ensures DropTombstones(all) == map[] <==> a == map[]
  {
    AddNothing(all, map[]);
    AddNothing(DropTombstones(all), map[]);
    DropTombstonesLive(all);
    assert forall k :: k in DropTombstones(all) <==> k in a;
  }

  lemma MergeGood(space: set<bytes>, all: Data)
    requires GoodData(space, all)
    ensures GoodData(space, DropTombstones(all))
  {
  }

  lemma {:induction false} WithoutListed(tables: seq<Meta>, ids: set<nat>)
    requires forall i :: 0 <= i < |tables| ==> tables[i].id in ids
    ensures Without(tables, ids) == []
  {
    if tables != [] {
      WithoutListed(tables[..|tables| - 1], ids);
    }
  }

  predicate IdsBelowNext(tables: seq<Meta>, next: nat)
  {
    forall i :: 0 <= i < |tables| ==> tables[i].id < next
  }

  lemma ListIdsBelow(directory: bytes, tables: seq<Meta>, next: nat)
    requires ListOk(directory, tables, next)
    ensures IdsBelowNext(tables, next)
  {
    hide TableName, Printable;
  }

  /** Removing the merged ids from the list leaves the new table alone. */
  lemma OnlyNewKept(tables: seq<Meta>, next: nat, t: Meta)
    requires IdsBelowNext(tables, next) && t.id == next
    ensures Without(tables + [t], Ids(tables)) == [t]
  {
    var both, ids := tables + [t], Ids(tables);
    assert both[..|both| - 1] == tables;
    forall i | 0 <= i < |tables|
      ensures tables[i].id in ids
    {
      assert tables[i] in tables;
    }
    WithoutListed(tables, ids);
    assert forall x :: x in tables ==> x.id != next;
  }

  lemma AloneList(c: Config, space: set<bytes>, tables: seq<Meta>, files: Files, next: nat)
    requires Structure(c, space, files, next, tables)
    ensures ListOk(c.directory, [], next) && Structure(c, space, files, next, [])
  {
    hide DirectoryOk, GoodData, TableOk;
  }

  /** Intended loop: deleting any file but the new table's. */
  lemma RemoveOtherSafe(c: Config, space: set<bytes>, d: Image, next: nat, t: Meta, name: bytes, a: map<bytes, bytes>, m: nat)
    requires c.deletion.AsIntended? && name != t.filename
    requires DiskOk(c, space, d, next, [t], a, m)
    ensures DiskOk(c, space, d.(files := d.files - {name}), next, [t], a, m)
  {
    hide *;
    var files' := d.files - {name};
    DiskParts(c, space, d, next, [t], a, m);
    IntendedParts(c, space, d.files, next, [t]);
    RemoveOtherFolds(d.files, name, t);
    RemoveOtherStructure(c, space, d.files, name, t);
    MakeIntended(c, space, files', next, [t]);
    NamesAfterRemove(c.directory, d.files, name, m);
    SameShows(c, d.files, files', next, [t], RecoverWal(d.wal).data, a);
    MakeDisk(c, space, d.(files := files'), next, [t], a, m);
  }

  lemma IntendedParts(c: Config, space: set<bytes>, files: Files, next: nat, tables: seq<Meta>)
    requires c.deletion.AsIntended? && Structure(c, space, files, next, tables)
    ensures AllOk(c.directory, space, files, tables)
  {
    hide AllOk;
  }

  lemma MakeIntended(c: Config, space: set<bytes>, files: Files, next: nat, tables: seq<Meta>)
    requires c.deletion.AsIntended? && AllOk(c.directory, space, files, tables)
    ensures Structure(c, space, files, next, tables)
  {
    hide AllOk;
  }

  lemma SameShows(c: Config, files: Files, files': Files, next: nat, tables: seq<Meta>, r: Data, a: map<bytes, bytes>)
    requires c.deletion.AsIntended? && Shows(c, files, next, tables, r, a)
    requires Fold(files', tables) == Fold(files, tables) && (AllPresent(files', tables) <==> AllPresent(files, tables))
    ensures Shows(c, files', next, tables, r, a)
  {
    hide Fold, FoldBelow, Live, AllPresent;
  }

  lemma RemoveOtherFolds(files: Files, name: bytes, t: Meta)
    requires name != t.filename
    ensures Fold(files - {name}, [t]) == Fold(files, [t])
    ensures AllPresent(files - {name}, [t]) <==> AllPresent(files, [t])
  {
    hide ParseTable;
    FoldFrame(files, files - {name}, [t]);
  }

  lemma RemoveOtherStructure(c: Config, space: set<bytes>, files: Files, name: bytes, t: Meta)
    requires name != t.filename && AllOk(c.directory, space, files, [t])
    ensures AllOk(c.directory, space, files - {name}, [t])
  {
    assert Load(files - {name}, t.filename) == Load(files, t.filename) by { hide ParseTable; }
    hide *;
    AllOkFrame(c.directory, space, files, files - {name}, [t]);
  }

  lemma {:induction false} RemoveOldSafe(c: Config, space: set<bytes>, d: Image, next: nat, t: Meta, tables: seq<Meta>, a: map<bytes, bytes>, m: nat)
    requires c.deletion.AsIntended? && DiskOk(c, space, d, next, [t], a, m)
    requires forall i :: 0 <= i < |tables| ==> tables[i].filename != t.filename
    ensures AllSafe(c, space, RemoveTrace(d, tables), a, m)
    ensures DiskOk(c, space, RemoveFiles(d, tables), next, [t], a, m)
    ensures RemoveFiles(d, tables).wal == d.wal
  {
    hide DiskOk, AllSafe;
    if tables == [] {
      NoStates(c, space, a, m);
    } else {
      var init, last := tables[..|tables| - 1], tables[|tables| - 1];
      RemoveOldSafe(c, space, d, next, t, init, a, m);
      RemoveOtherSafe(c, space, RemoveFiles(d, init), next, t, last.filename, a, m);
      AllSafeSnoc(c, space, RemoveTrace(d, init), RemoveFiles(d, tables), next, [t], a, m);
    }
  }

  /** Loop as written: the new table's file is deleted; the old ones, all still there, show the same map. */
  lemma RemoveNewSafe(c: Config, space: set<bytes>, before: Files, d: Image, next: nat, t: Meta, s: bytes, a: map<bytes, bytes>, m: nat)
    requires c.deletion.AsWritten? && t.filename == TableName(c.directory, next)
    requires DirectoryOk(c.directory, space, before, next) && d.files == NewFile(c, before, next, s)
    requires Live(FoldBelow(c.directory, before, next) + RecoverWal(d.wal).data) == a
    requires DiskOk(c, space, d, next + 1, [t], a, m)
    ensures DiskOk(c, space, d.(files := d.files - {t.filename}), next + 1, [t], a, m)
  {
    hide *;
    var after := d.files - {t.filename};
    DiskParts(c, space, d, next + 1, [t], a, m);
    RemoveNewDirectory(c, space, before, next, s, after);
    NamesAfterRemove(c.directory, d.files, t.filename, m);
    AloneMissing(after, t);
    MissingShows(c, space, after, next + 1, [t], RecoverWal(d.wal).data, a);
    MakeDisk(c, space, d.(files := after), next + 1, [t], a, m);
  }

  lemma DiskParts(c: Config, space: set<bytes>, d: Image, next: nat, tables: seq<Meta>, a: map<bytes, bytes>, m: nat)
    requires DiskOk(c, space, d, next, tables, a, m)
    ensures ManifestIs(d.manifest, next, tables) && ListOk(c.directory, tables, next) && 1 <= next <= m < TWO_64
    ensures NamesOk(c.directory, d.files, m) && LogOk(space, d.wal)
    ensures Structure(c, space, d.files, next, tables)
    ensures Shows(c, d.files, next, tables, RecoverWal(d.wal).data, a)
  {
    hide ManifestIs, ListOk, NamesOk, LogOk, Structure, Shows, RecoverWal;
  }

  lemma MakeDisk(c: Config, space: set<bytes>, d: Image, next: nat, tables: seq<Meta>, a: map<bytes, bytes>, m: nat)
    requires ManifestIs(d.manifest, next, tables) && ListOk(c.directory, tables, next) && 1 <= next <= m < TWO_64
    requires NamesOk(c.directory, d.files, m) && LogOk(space, d.wal)
    requires Structure(c, space, d.files, next, tables)
    requires Shows(c, d.files, next, tables, RecoverWal(d.wal).data, a)
    ensures DiskOk(c, space, d, next, tables, a, m)
  {
    hide ManifestIs, ListOk, NamesOk, LogOk, Structure, Shows, RecoverWal;
  }

  lemma NamesAfterRemove(directory: bytes, files: Files, name: bytes, m: nat)
    requires NamesOk(directory, files, m)
    ensures NamesOk(directory, files - {name}, m)
  {
    hide TableName;
  }

  lemma AloneMissing(after: Files, t: Meta)
    requires t.filename !in after
    ensures !AllPresent(after, [t])
  {
    assert [t][0].filename !in after;
  }

  lemma MissingShows(c: Config, space: set<bytes>, files: Files, next: nat, tables: seq<Meta>, r: Data, a: map<bytes, bytes>)
    requires c.deletion.AsWritten? && !AllPresent(files, tables) && DirectoryOk(c.directory, space, files, next)
    requires Live(FoldBelow(c.directory, files, next) + r) == a && Live(FoldBelow(c.directory, files, next + 1) + r) == a
    ensures Structure(c, space, files, next, tables) && Shows(c, files, next, tables, r, a)
  {
    hide AllPresent, DirectoryOk, AllOk, Live, FoldBelow, Fold;
  }

  lemma RemoveNewDirectory(c: Config, space: set<bytes>, before: Files, next: nat, s: bytes, after: Files)
    requires DirectoryOk(c.directory, space, before, next)
    requires after == NewFile(c, before, next, s) - {TableName(c.directory, next)}
    ensures DirectoryOk(c.directory, space, after, next + 1)
    ensures FoldBelow(c.directory, after, next + 1) == FoldBelow(c.directory, before, next)
    ensures FoldBelow(c.directory, after, next + 2) == FoldBelow(c.directory, before, next)
  {
    hide TableName, FoldBelow, ContentsOf, GoodData;
    ContentsAfterRemove(c.directory, before, next, s, after);
    FoldBelowFrame(c.directory, before, after, next);
    FoldBelowStep(c.directory, after, next);
    FoldBelowStep(c.directory, after, next + 1);
    NoData(space);
    AddNothing(FoldBelow(c.directory, before, next), map[]);
  }

  lemma ContentsAfterRemove(directory: bytes, before: Files, next: nat, s: bytes, after: Files)
    requires after == before[TableName(directory, next) := s] - {TableName(directory, next)}
    ensures ContentsOf(after, TableName(directory, next)) == map[]
    ensures forall i: nat :: i != next ==> ContentsOf(after, TableName(directory, i)) == ContentsOf(before, TableName(directory, i))
  {
    hide ParseTable, TableName;
    forall i: nat | i != next
      ensures ContentsOf(after, TableName(directory, i)) == ContentsOf(before, TableName(directory, i))
    {
      if TableName(directory, i) == TableName(directory, next) {
        TableNameInjective(directory, i, next);
      }
    }
  }

  /** The states of a compaction, spelled out. */
  lemma CompactSteps(c: Config, p: Process, all: Data)
    requires IdsBelowNext(p.tables, p.next)
    requires |p.tables| >= 2 && LoadAll(p.disk.files, p.tables) == Loaded(all)
    ensures
      var merged := DropTombstones(all);
      var t := NewMeta(c, p.next, merged);
      var image := Image(p.disk.wal, p.disk.manifest, NewFile(c, p.disk.files, p.next, TableBytes(merged)));
      var published := WithManifest(image, NextId(p.next), p.tables + [t]);
      var unpublished := WithManifest(image, NextId(p.next), [t]);
      var victims := if c.deletion.AsWritten? then [t] else p.tables;
      Compact(c, p) == Effect(WriteTrace(p.disk, TableName(c.directory, p.next), TableBytes(merged))
                              + [published] + [unpublished] + RemoveTrace(unpublished, victims),
                              Process(RemoveFiles(unpublished, victims), p.data, [t], NextId(p.next)), true)
  {
    hide *;
    NewMetaNames(c, p.next, DropTombstones(all));
    OnlyNewKept(p.tables, p.next, NewMeta(c, p.next, DropTombstones(all)));
    CompactUnfolded(c, p, all);
  }

  /** Every prefix of a table's bytes, both lists, the new list, each deletion. */
  ghost predicate Passes(trace: seq<Image>, d: Image, name: bytes, s: bytes, both: Image, alone: Image, victims: seq<Meta>)
  {
    && |trace| == |s| + 3 + |victims|
    && (forall j :: 0 <= j <= |s| ==> trace[j] == Image(d.wal, d.manifest, d.files[name := s[..j]]))
    && trace[|s| + 1] == both && trace[|s| + 2] == alone
    && var deleting := trace[|s| + 3..];
       forall k :: 0 <= k < |victims| ==> deleting[k] == RemoveFiles(alone, victims[..k + 1])
  }

  lemma MakePasses(d: Image, name: bytes, s: bytes, both: Image, alone: Image, victims: seq<Meta>)
    ensures Passes(WriteTrace(d, name, s) + [both] + [alone] + RemoveTrace(alone, victims), d, name, s, both, alone, victims)
  {
    WriteStates(d, name, s);
    RemovalPasses(alone, victims);
    hide WriteTrace, RemoveTrace, RemoveFiles;
    var trace := WriteTrace(d, name, s) + [both] + [alone] + RemoveTrace(alone, victims);
    assert trace[|s| + 3..] == RemoveTrace(alone, victims);
  }

  /** The states of a compaction one by one. */
  lemma CompactPasses(c: Config, p: Process, all: Data)
    requires IdsBelowNext(p.tables, p.next)
    requires |p.tables| >= 2 && LoadAll(p.disk.files, p.tables) == Loaded(all)
    ensures var s, name := TableBytes(DropTombstones(all)), TableName(c.directory, p.next);
            var t := NewMeta(c, p.next, DropTombstones(all));
            var written := Image(p.disk.wal, p.disk.manifest, p.disk.files[name := s]);
            Passes(Compact(c, p).trace, p.disk, name, s,
                   WithManifest(written, NextId(p.next), p.tables + [t]), WithManifest(written, NextId(p.next), [t]),
                   if c.deletion.AsWritten? then [t] else p.tables)
  {
    hide *;
    CompactSteps(c, p, all);
    var s, t := TableBytes(DropTombstones(all)), NewMeta(c, p.next, DropTombstones(all));
    NewFileIs(c, p.disk.files, p.next, s);
    var written := Image(p.disk.wal, p.disk.manifest, NewFile(c, p.disk.files, p.next, s));
    MakePasses(p.disk, TableName(c.directory, p.next), s, WithManifest(written, NextId(p.next), p.tables + [t]),
               WithManifest(written, NextId(p.next), [t]), if c.deletion.AsWritten? then [t] else p.tables);
  }

  lemma NewMetaNames(c: Config, next: nat, d: Data)
    ensures NewMeta(c, next, d).id == next && NewMeta(c, next, d).filename == TableName(c.directory, next)
  {
    MetaNames(next, TableName(c.directory, next), d);
    hide TableName, MetaOf;
  }

  lemma CompactUnfolded(c: Config, p: Process, all: Data)
    requires |p.tables| >= 2 && LoadAll(p.disk.files, p.tables) == Loaded(all)
    ensures
      var merged := DropTombstones(all);
      var both := p.tables + [NewMeta(c, p.next, merged)];
      var kept := Without(both, Ids(p.tables));
      var image := Image(p.disk.wal, p.disk.manifest, NewFile(c, p.disk.files, p.next, TableBytes(merged)));
      var published := WithManifest(image, NextId(p.next), both);
      var unpublished := WithManifest(image, NextId(p.next), kept);
      var victims := if c.deletion.AsWritten? then kept else p.tables;
      Compact(c, p) == Effect(WriteTrace(p.disk, TableName(c.directory, p.next), TableBytes(merged))
                              + [published] + [unpublished] + RemoveTrace(unpublished, victims),
                              Process(RemoveFiles(unpublished, victims), p.data, kept, NextId(p.next)), true)
  {
    hide TableBytes, TableName, MetaOf, Print, NextId, LoadAll, Without, Ids, RemoveTrace, RemoveFiles, DropTombstones, WriteTrace;
  }

  /** The last steps of a compaction: deleting files, by either loop. */
  lemma DeletionSafe(c: Config, space: set<bytes>, p: Process, merged: Data, d: Image, a: map<bytes, bytes>, m: nat)
    requires ProcessOk(c, space, p, a, m) && RecoverWal(p.disk.wal).data == map[]
    requires d.files == NewFile(c, p.disk.files, p.next, TableBytes(merged)) && d.wal == p.disk.wal
    requires DiskOk(c, space, d, p.next + 1, [NewMeta(c, p.next, merged)], a, m + 1)
    ensures var victims := if c.deletion.AsWritten? then [NewMeta(c, p.next, merged)] else p.tables;
            && AllSafe(c, space, RemoveTrace(d, victims), a, m + 1)
            && DiskOk(c, space, RemoveFiles(d, victims), p.next + 1, [NewMeta(c, p.next, merged)], a, m + 1)
            && RemoveFiles(d, victims).wal == d.wal
  {
    hide *;
    var t := NewMeta(c, p.next, merged);
    NewMetaNames(c, p.next, merged);
    ProcessParts(c, space, p, a, m);
    if c.deletion.AsWritten? {
      DirectoryShows(c, space, p, a);
      RemoveNewSafe(c, space, p.disk.files, d, p.next, t, TableBytes(merged), a, m + 1);
      RemoveOne(d, t);
      NoStates(c, space, a, m + 1);
      AllSafeSnoc(c, space, [], RemoveFiles(d, [t]), p.next + 1, [t], a, m + 1);
    } else {
      ListedUnaffected(c.directory, p.disk.files, p.tables, p.next, []);
      RemoveOldSafe(c, space, d, p.next + 1, t, p.tables, a, m + 1);
    }
  }

  lemma DirectoryShows(c: Config, space: set<bytes>, p: Process, a: map<bytes, bytes>)
    requires c.deletion.AsWritten? && Structure(c, space, p.disk.files, p.next, p.tables)
    requires Shows(c, p.disk.files, p.next, p.tables, RecoverWal(p.disk.wal).data, a)
    ensures DirectoryOk(c.directory, space, p.disk.files, p.next)
    ensures Live(FoldBelow(c.directory, p.disk.files, p.next) + RecoverWal(p.disk.wal).data) == a
  {
    hide RecoverWal, DirectoryOk, AllOk, AllPresent, Live, FoldBelow;
  }

  lemma RemoveOne(d: Image, t: Meta)
    ensures RemoveFiles(d, [t]) == d.(files := d.files - {t.filename})
    ensures RemoveTrace(d, [t]) == [] + [RemoveFiles(d, [t])]
  {
    assert [t][..0] == [];
  }

  /**
   * A compaction that leaves a live key changes nothing a recovery can see, at any of its durable steps,
   * with either deletion loop; one that finds a table missing does nothing.
   */
  lemma CompactSafe(c: Config, space: set<bytes>, p: Process, a: map<bytes, bytes>, m: nat)
    requires ConfigOk(c, space) && ProcessOk(c, space, p, a, m) && m + 1 < TWO_64
    requires p.data == map[] && (|p.tables| >= 2 && AllPresent(p.disk.files, p.tables) ==> a != map[])
    ensures var e := Compact(c, p);
            && AllSafe(c, space, e.trace, a, m + 1)
            && ProcessOk(c, space, e.process, a, m + 1)
            && e.process.disk.wal == p.disk.wal
  {
    hide *;
    ProcessParts(c, space, p, a, m);
    CompactCases(c, space, p);
    if |p.tables| >= 2 && AllPresent(p.disk.files, p.tables) {
      var all := Fold(p.disk.files, p.tables);
      var merged := DropTombstones(all);
      var t := NewMeta(c, p.next, merged);
      var image := Image(p.disk.wal, p.disk.manifest, NewFile(c, p.disk.files, p.next, TableBytes(merged)));
      var published := WithManifest(image, p.next + 1, p.tables + [t]);
      var unpublished := WithManifest(image, p.next + 1, [t]);
      var victims := if c.deletion.AsWritten? then [t] else p.tables;
      var writing := WriteTrace(p.disk, TableName(c.directory, p.next), TableBytes(merged));
      LoadAllIsFold(c.directory, space, p.disk.files, p.tables);
      ListIdsBelow(c.directory, p.tables, p.next);
      NextIdIs(p.next);
      CompactSteps(c, p, all);
      MergeFits(c, space, p, a, m);
      MergeGood(space, all);
      FittingHarmless(c, p.disk.files, p.next, p.tables, merged, map[], a);
      WriteTraceSafe(c, space, p.disk, p.next, p.tables, a, m, merged);
      AllSafeWeaken(c, space, writing, a, m, m + 1);
      PublishedOk(c, space, p.disk, p.next, p.tables, a, m, merged, p.disk.wal);
      AllSafeSnoc(c, space, writing, published, p.next + 1, p.tables + [t], a, m + 1);
      AloneList(c, space, p.tables, p.disk.files, p.next);
      PublishedOk(c, space, p.disk, p.next, [], a, m, merged, p.disk.wal);
      assert [] + [t] == [t];
      AllSafeSnoc(c, space, writing + [published], unpublished, p.next + 1, [t], a, m + 1);
      ManifestKeepsLog(image, p.next + 1, [t]);
      DeletionSafe(c, space, p, merged, unpublished, a, m);
      AllSafeConcat(c, space, writing + [published] + [unpublished], RemoveTrace(unpublished, victims), a, m + 1);
      EmptyMemtable(c, space, Compact(c, p).process, a, m + 1);
    } else {
      ProcessWeaken(c, space, p, a, m, m + 1);
      NoStates(c, space, a, m + 1);
    }
  }

  lemma FittingHarmless(c: Config, files: Files, next: nat, tables: seq<Meta>, d: Data, r: Data, a: map<bytes, bytes>)
    requires Fitting(c, files, next, tables, d, r, a)
    ensures Harmless(c, files, next, d, r, a)
  {
    hide Harmless, Live, Fold;
  }

  lemma CompactCases(c: Config, space: set<bytes>, p: Process)
    requires Structure(c, space, p.disk.files, p.next, p.tables)
    ensures |p.tables| < 2 ==> Compact(c, p) == Effect([], p, true)
    ensures |p.tables| >= 2 && !AllPresent(p.disk.files, p.tables) ==> Compact(c, p) == Effect([], p, false)
    ensures AllPresent(p.disk.files, p.tables) ==> AllOk(c.directory, space, p.disk.files, p.tables)
  {
    hide DirectoryOk, TableOk, TableBytes, TableName, MetaOf, Print, Without, Ids, RemoveTrace, RemoveFiles, LoadAll;
    if !AllPresent(p.disk.files, p.tables) {
      MissingFailsLoad(p.disk.files, p.tables);
    }
  }

  lemma EmptyMemtable(c: Config, space: set<bytes>, p: Process, a: map<bytes, bytes>, m: nat)
    requires DiskOk(c, space, p.disk, p.next, p.tables, a, m)
    requires p.data == map[] && RecoverWal(p.disk.wal).data == map[]
    ensures ProcessOk(c, space, p, a, m)
  {
    hide RecoverWal, Shows, Structure, ListOk, NamesOk, LogOk, ManifestIs;
    NoData(space);
  }

  // ---------------------------------------------------------------------------
  // The whole command
  // ---------------------------------------------------------------------------

  /** Whether the command will flush and then find enough tables to merge, all of them there. */
  predicate WillCompact(c: Config, p: Process, flush: bool)
  {
    && flush && |p.tables| + 1 >= c.compactionThreshold && |p.tables| + 1 >= 2
    && AllPresent(p.disk.files, p.tables)
  }

  /** The disk after the first `at` durable states of a trace. */
  function DiskAt(d: Image, trace: seq<Image>, at: nat): Image
    requires at <= |trace|
  {
    if at == 0 then d else trace[at - 1]
  }

  lemma MaybeCompactSafe(c: Config, space: set<bytes>, p: Process, a: map<bytes, bytes>, m: nat)
    requires ConfigOk(c, space) && ProcessOk(c, space, p, a, m) && m + 1 < TWO_64
    requires p.data == map[]
    requires |p.tables| >= 2 && |p.tables| >= c.compactionThreshold && AllPresent(p.disk.files, p.tables) ==> a != map[]
    ensures var e := MaybeCompact(c, p);
            && AllSafe(c, space, e.trace, a, m + 1)
            && ProcessOk(c, space, e.process, a, m + 1)
            && e.process.disk.wal == p.disk.wal
  {
    hide Compact, AllSafe, ProcessOk, ConfigOk, AllPresent;
    if |p.tables| >= c.compactionThreshold {
      CompactSafe(c, space, p, a, m);
    } else {
      ProcessWeaken(c, space, p, a, m, m + 1);
      NoStates(c, space, a, m + 1);
    }
  }

  /** A flush adds one table, and its file is there. */
  lemma FlushAddsOne(c: Config, p: Process)
    requires p.data != map[]
    ensures var q := Flush(c, p).process;
            && |q.tables| == |p.tables| + 1 && q.data == map[]
            && (AllPresent(q.disk.files, q.tables) ==> AllPresent(p.disk.files, p.tables) || !ListOk(c.directory, p.tables, p.next))
            && (AllPresent(p.disk.files, p.tables) ==> AllPresent(q.disk.files, q.tables))
  {
    FlushSteps(c, p);
    NewMetaNames(c, p.next, p.data);
    hide Flush, TableBytes, MetaOf, Print, NewMeta;
    var q := Flush(c, p).process;
    if AllPresent(q.disk.files, q.tables) && ListOk(c.directory, p.tables, p.next) {
      ListedUnaffected(c.directory, p.disk.files, p.tables, p.next, TableBytes(p.data));
      hide ListOk, TableName;
      assert forall i :: 0 <= i < |p.tables| ==> q.tables[i] == p.tables[i];
    }
  }

  lemma WriteIs(c: Config, p: Process, r: Record, flush: bool)
    ensures !flush ==> Command(c, p, r, flush) == LogWrite(p, r)
    ensures flush ==>
      var logged := LogWrite(p, r);
      var flushed := Flush(c, logged.process);
      var compacted := MaybeCompact(c, flushed.process);
      Command(c, p, r, flush) == Effect(logged.trace + flushed.trace + compacted.trace, compacted.process, compacted.ok)
  {
    hide LogWrite, Flush, MaybeCompact;
  }

  /** The first n states are safe for a, the later ones for b. */
  ghost predicate SafeSplit(c: Config, space: set<bytes>, trace: seq<Image>, n: nat, a: map<bytes, bytes>, b: map<bytes, bytes>, m: nat)
  {
    forall i :: 0 <= i < |trace| ==> Safe(c, space, trace[i], if i < n then a else b, m)
  }

  lemma SafeSplitConcat(c: Config, space: set<bytes>, s: seq<Image>, t: seq<Image>, n: nat, a: map<bytes, bytes>, b: map<bytes, bytes>, m: nat)
    requires SafeSplit(c, space, s, n, a, b, m) && AllSafe(c, space, t, b, m) && n <= |s|
    ensures SafeSplit(c, space, s + t, n, a, b, m)
  {
    hide Safe;
  }

  lemma SafeSplitWeaken(c: Config, space: set<bytes>, s: seq<Image>, k: nat, a: map<bytes, bytes>, b: map<bytes, bytes>, m: nat, n: nat)
    requires SafeSplit(c, space, s, k, a, b, m) && m <= n < TWO_64
    ensures SafeSplit(c, space, s, k, a, b, n)
  {
    hide Safe;
    forall i | 0 <= i < |s|
      ensures Safe(c, space, s[i], if i < k then a else b, n)
    {
      SafeWeaken(c, space, s[i], if i < k then a else b, m, n);
    }
  }

  lemma ProcessIsSafe(c: Config, space: set<bytes>, p: Process, a: map<bytes, bytes>, m: nat)
    requires ProcessOk(c, space, p, a, m)
    ensures Safe(c, space, p.disk, a, m)
  {
    hide DiskOk, GoodData, Shows, Contains, RecoverWal;
  }

  lemma SplitAt(c: Config, space: set<bytes>, d: Image, trace: seq<Image>, n: nat, a: map<bytes, bytes>, b: map<bytes, bytes>, m: nat, at: nat)
    requires SafeSplit(c, space, trace, n, a, b, m) && Safe(c, space, d, a, m) && at <= |trace|
    ensures Safe(c, space, DiskAt(d, trace, at), if at >= n + 1 then b else a, m)
  {
    hide Safe;
  }

  lemma LogWriteSplit(c: Config, space: set<bytes>, p: Process, r: Record, a: map<bytes, bytes>, m: nat)
    requires ProcessOk(c, space, p, a, m) && RecoverWal(p.disk.wal).rest == [] && Acceptable(space, r)
    ensures var e := LogWrite(p, r);
            && |e.trace| == |RecordBytes(r)| > 0
            && SafeSplit(c, space, e.trace, |RecordBytes(r)| - 1, a, After(a, r), m)
            && ProcessOk(c, space, e.process, After(a, r), m)
            && RecoverWal(e.process.disk.wal).rest == [] && e.process.data != map[]
            && e.process.tables == p.tables && e.process.disk.files == p.disk.files
  {
    hide ProcessOk, Safe, RecoverWal, Acceptable, After, RecordBytes, LogWrite;
    LogWriteSafe(c, space, p, r, a, m);
    LogWriteSteps(p, r);
  }

  /**
   * A PUT or DELETE with whatever flush and compaction it triggers: every durable state before the log
   * append is complete recovers to the old map, every later one to the new map, and the process goes on
   * with the new map.
   */
  lemma WriteSafe(c: Config, space: set<bytes>, p: Process, r: Record, flush: bool, a: map<bytes, bytes>, m: nat)
    requires ConfigOk(c, space) && ProcessOk(c, space, p, a, m) && m + 2 < TWO_64
    requires RecoverWal(p.disk.wal).rest == [] && Acceptable(space, r)
    requires WillCompact(c, p, flush) ==> After(a, r) != map[]
    ensures var e := Command(c, p, r, flush);
            && 0 < |RecordBytes(r)| <= |e.trace|
            && SafeSplit(c, space, e.trace, |RecordBytes(r)| - 1, a, After(a, r), m + 2)
            && ProcessOk(c, space, e.process, After(a, r), m + 2)
            && RecoverWal(e.process.disk.wal).rest == []
  {
    hide *;
    var b := After(a, r);
    var logged := LogWrite(p, r);
    WriteIs(c, p, r, flush);
    LogWriteSplit(c, space, p, r, a, m);
    SafeSplitWeaken(c, space, logged.trace, |RecordBytes(r)| - 1, a, b, m, m + 2);
    if flush {
      var flushed := Flush(c, logged.process);
      FlushSafe(c, space, logged.process, b, m);
      FlushAddsOne(c, logged.process);
      AllSafeWeaken(c, space, flushed.trace, b, m + 1, m + 2);
      ProcessParts(c, space, logged.process, b, m);
      WillCompactIs(c, p, flush);
      MaybeCompactSafe(c, space, flushed.process, b, m + 1);
      EmptyLog(space);
      SafeSplitConcat(c, space, logged.trace, flushed.trace, |RecordBytes(r)| - 1, a, b, m + 2);
      SafeSplitConcat(c, space, logged.trace + flushed.trace, MaybeCompact(c, flushed.process).trace, |RecordBytes(r)| - 1, a, b, m + 2);
    } else {
      ProcessWeaken(c, space, logged.process, b, m, m + 2);
    }
  }

  lemma WillCompactIs(c: Config, p: Process, flush: bool)
    ensures WillCompact(c, p, flush) <==>
            flush && |p.tables| + 1 >= c.compactionThreshold && |p.tables| + 1 >= 2 && AllPresent(p.disk.files, p.tables)
  {
    hide AllPresent;
  }
}
