/** Exactly where the conditions on a run are needed. */
module Limits {
  import opened Bytes
  import opened Text
  import opened Entries
  import opened FileSystem
  import opened WalRecord
  import opened Recovery
  import opened SSTable
  import opened ManifestText
  import opened TableNames
  import opened Engine
  import opened Invariant
  import opened Frames
  import opened CommandSafety
  import opened StartSafety
  import opened LiveState
  import opened LogReset
  import opened TornTails
  import opened CrashSafety
  import M = Manifest

  // ---------------------------------------------------------------------------
  // A compaction that leaves no live key
  // ---------------------------------------------------------------------------

  lemma {:induction false} RemoveFilesKeepsManifest(d: Image, tables: seq<Meta>)
    ensures RemoveFiles(d, tables).manifest == d.manifest
  {
    if tables != [] {
      RemoveFilesKeepsManifest(d, tables[..|tables| - 1]);
    }
  }

  lemma EmptyMeta(c: Config, next: nat)
    ensures NewMeta(c, next, map[]) == Meta(next, TableName(c.directory, next), [], [], 0)
  {
    hide TableName;
  }

  lemma BadManifestFails(c: Config, d: Image)
    requires d.manifest.Some? && Read(d.manifest.value) == Invalid
    ensures Initialize(c, d) == Failed
  {
    hide Read;
  }

  lemma EmptyListFails(c: Config, space: set<bytes>, d: Image, next: nat, id: nat)
    requires ConfigOk(c, space) && next < TWO_64 && id < TWO_64
    requires d.manifest == Some(Print(next, [Meta(id, TableName(c.directory, id), [], [], 0)]))
    ensures Initialize(c, d) == Failed
  {
    hide *;
    ConfigParts(c, space);
    TableNameIsToken(c.directory, id);
    NonePrintable();
    EmptyTableBlocksLoad(next, [], id, TableName(c.directory, id), []);
    assert [] + [Meta(id, TableName(c.directory, id), [], [], 0)] + [] == [Meta(id, TableName(c.directory, id), [], [], 0)];
    BadManifestFails(c, d);
  }

  lemma NonePrintable()
    ensures AllPrintable([]) && 1 < TWO_64
  {
  }

  /** A compaction that finds nothing live leaves a MANIFEST that no start can read. */
  lemma EmptyCompactionFails(c: Config, space: set<bytes>, p: Process, m: nat)
    requires ConfigOk(c, space) && ProcessOk(c, space, p, map[], m) && m + 1 < TWO_64
    requires p.data == map[] && |p.tables| >= 2 && AllPresent(p.disk.files, p.tables)
    ensures Initialize(c, Compact(c, p).process.disk) == Failed
  {
    hide *;
    ProcessParts(c, space, p, map[], m);
    StructurePresent(c, space, p.disk.files, p.next, p.tables);
    LoadAllIsFold(c.directory, space, p.disk.files, p.tables);
    ListIdsBelow(c.directory, p.tables, p.next);
    NextIdIs(p.next);
    CompactSteps(c, p, Fold(p.disk.files, p.tables));
    MergeFits(c, space, p, map[], m);
    EmptyMeta(c, p.next);
    var merged := DropTombstones(Fold(p.disk.files, p.tables));
    var image := Image(p.disk.wal, p.disk.manifest, NewFile(c, p.disk.files, p.next, TableBytes(merged)));
    var t := NewMeta(c, p.next, merged);
    var unpublished := WithManifest(image, p.next + 1, [t]);
    WithManifestText(image, p.next + 1, [t]);
    RemoveFilesKeepsManifest(unpublished, if c.deletion.AsWritten? then [t] else p.tables);
    EmptyListFails(c, space, Compact(c, p).process.disk, p.next + 1, p.next);
  }

  lemma WithManifestText(d: Image, next: nat, tables: seq<Meta>)
    ensures WithManifest(d, next, tables).manifest == Some(Print(next, tables))
  {
    hide Print;
  }

  lemma MaybeCompactIs(c: Config, p: Process)
    ensures MaybeCompact(c, p) == if |p.tables| >= c.compactionThreshold then Compact(c, p) else Effect([], p, true)
  {
    hide Compact;
  }

  /** Only deleting the last live key can leave nothing. */
  lemma OnlyLastDeleteEmpties(a: map<bytes, bytes>, r: Record)
    ensures After(a, r) == map[] <==> r.kind.Delete? && a.Keys <= {r.key}
  {
    if r.kind.Put? {
      assert r.key in After(a, r);
    } else {
      assert (a - {r.key}).Keys == a.Keys - {r.key};
      assert a - {r.key} == map[] <==> (a - {r.key}).Keys == {};
    }
  }

  /**
   * After a completed command that flushes, whatever its record and the log before it, or that appends to a log
   * in order, a restart succeeds if and only if the command did not delete the last live key and trigger a compaction.
   */
  lemma RestartAfterCommand(c: Config, space: set<bytes>, p: Process, r: Record, flush: bool, a: map<bytes, bytes>, m: nat)
    requires ConfigOk(c, space) && TablesOk(c, space, p, a, m) && m + 3 < TWO_64 && Storable(space, r)
    requires flush || (Logged(c, space, p, a) && Appendable(Running(p), r))
    ensures Initialize(c, Command(c, p, r, flush).process.disk).Started?
            <==> !(WillCompact(c, p, flush) && r.kind.Delete? && a.Keys <= {r.key})
  {
    hide *;
    OnlyLastDeleteEmpties(a, r);
    if WillCompact(c, p, flush) ==> After(a, r) != map[] {
      OrderlyCommand(c, space, p, r, flush, a, m);
      var q := Command(c, p, r, flush).process;
      ProcessSplit(c, space, q, After(a, r), m + 2);
      ProcessIsSafe(c, space, q, After(a, r), m + 2);
      StartSafe(c, space, q.disk, After(a, r), m + 2);
      RecoveredParts(c, space, q.disk, Initialize(c, q.disk), After(a, r), m + 3);
    } else {
      var x := LogWrite(p, r).process;
      WillCompactIs(c, p, flush);
      WriteIs(c, p, r, flush);
      LogWriteKeepsTables(c, space, p, r, a, m);
      LogWriteParts(p, r);
      FlushedOk(c, space, x, After(a, r), m);
      FlushAddsOne(c, x);
      MaybeCompactIs(c, Flush(c, x).process);
      EmptyCompactionFails(c, space, Flush(c, x).process, m + 1);
    }
  }

  lemma FirstEmpty(tables: seq<Meta>) returns (i: nat)
    requires !ListsEntries(tables)
    ensures i < |tables| && tables[i].entryCount == 0 && ListsEntries(tables[..i])
  {
    i := 0;
    while tables[i].entryCount != 0
      invariant i < |tables| && ListsEntries(tables[..i])
      invariant exists j :: i <= j < |tables| && tables[j].entryCount == 0
      decreases |tables| - i
    {
      i := i + 1;
    }
  }

  lemma {:induction false} OrderedLength(tables: seq<Meta>, next: nat)
    requires M.IdsOrdered(tables, next)
    ensures |tables| <= next
  {
    if tables != [] {
      OrderedLength(tables[..|tables| - 1], tables[|tables| - 1].id);
    }
  }

  lemma OrderedPrefix(tables: seq<Meta>, next: nat, n: nat)
    requires M.IdsOrdered(tables, next) && n <= |tables|
    ensures M.IdsOrdered(tables[..n], next) && (n < |tables| ==> tables[n].id < next)
  {
  }

  lemma ListedPrintable(directory: bytes, tables: seq<Meta>, next: nat)
    requires ListOk(directory, tables, next)
    ensures AllPrintable(tables)
  {
    hide Printable, TableName;
  }

  lemma ServedManifest(c: Config, space: set<bytes>, p: Process, contents: seq<Data>, a: map<bytes, bytes>, m: nat)
    requires LiveOk(c, space, p, contents, a, m) && p.tables != []
    ensures p.disk.manifest == Some(Print(p.next, p.tables))
  {
    hide Print, M.IdsOrdered, NamesOk, ListBacked, GoodData, Live, Stack;
  }

  /** The directory does not begin like a number, as the default one does not. */
  predicate PlainDirectory(directory: bytes)
  {
    directory == [] || Plain(directory)
  }

  lemma PlainName(directory: bytes, id: nat)
    requires PlainDirectory(directory)
    ensures Plain(TableName(directory, id))
  {
    hide BaseName;
    var name := TableName(directory, id);
    assert name[0] == if directory == [] then SLASH else directory[0];
  }

  lemma PlainBehind(c: Config, space: set<bytes>, p: Process, contents: seq<Data>, i: nat)
    requires ListBacked(c, space, p.disk.files, p.tables, contents) && i < |p.tables|
    requires PlainDirectory(c.directory)
    ensures var more := p.tables[i + 1..];
            more != [] ==> Plain(more[0].filename)
  {
    hide Backs, Plain, TableName, PlainDirectory;
    if i + 1 < |p.tables| {
      BackedNames(c, space, p.disk.files, p.tables, contents, i + 1);
      PlainName(c.directory, p.tables[i + 1].id);
    }
  }

  /** A process that lists a table without entries would not survive a crash: no start can read its MANIFEST. */
  lemma EmptyListedBlocksStart(c: Config, space: set<bytes>, p: Process, a: map<bytes, bytes>, m: nat)
    requires ConfigOk(c, space) && Serves(c, space, p, a, m) && !ListsEntries(p.tables) && PlainDirectory(c.directory)
    ensures Initialize(c, p.disk) == Failed
  {
    hide *;
    var contents := GetContents(c, space, p, a, m);
    LiveParts(c, space, p, contents, a, m);
    ConfigParts(c, space);
    var i := FirstEmpty(p.tables);
    var t, before, more := p.tables[i], p.tables[..i], p.tables[i + 1..];
    BackedSize(c, space, p.disk.files, p.tables, contents);
    BackedNames(c, space, p.disk.files, p.tables, contents, i);
    EmptyMeta(c, t.id);
    OrderedLength(p.tables, p.next);
    OrderedPrefix(p.tables, p.next, i);
    BackedPrefix(c, space, p.disk.files, p.tables, contents, i);
    BackedIsListed(c, space, p.disk.files, before, contents[..i], p.next);
    ListedPrintable(c.directory, before, p.next);
    TableNameIsToken(c.directory, t.id);
    PlainBehind(c, space, p, contents, i);
    EmptyTableBlocksLoad(p.next, before, t.id, TableName(c.directory, t.id), more);
    assert p.tables == before + [t] + more;
    ServedManifest(c, space, p, contents, a, m);
    BadManifestFails(c, p.disk);
  }

  /**
   * Exactly the running processes that list no empty table can be started again, as long as their log is intact:
   * of what a run asks before a crash, the list's half is exact.
   */
  lemma StartsIffListsEntries(c: Config, space: set<bytes>, states: seq<State>, events: seq<Event>)
    requires ConfigOk(c, space) && IsRun(c, space, states, events) && 2 * |events| + 2 < TWO_64
    requires |states| == |events| + 1 && states[|events|].Running? && Intact(states, events)
    requires PlainDirectory(c.directory)
    ensures Initialize(c, states[|events|].process.disk).Started? <==> ListsEntries(states[|events|].process.tables)
  {
    hide *;
    var m, a, p := 2 * |events| + 1, Expected(events), states[|events|].process;
    RunOk(c, space, states, events);
    RunningParts(c, space, p, true, a, m);
    if ListsEntries(p.tables) {
      ProcessIsSafe(c, space, p, a, m);
      StartSafe(c, space, p.disk, a, m);
      RecoveredParts(c, space, p.disk, Initialize(c, p.disk), a, m + 1);
    } else {
      EmptyListedBlocksStart(c, space, p, a, m);
    }
  }

  // ---------------------------------------------------------------------------
  // An append behind a torn tail
  // ---------------------------------------------------------------------------

  /** Of the log, a start uses the replayed map and whether it was refused. */
  lemma StartUsesReplay(c: Config, d: Image, e: Image)
    requires d.manifest == e.manifest && d.files == e.files
    requires RecoverWal(d.wal).data == RecoverWal(e.wal).data
    ensures RecoverWal(e.wal).status.Corrupted? ==> Initialize(c, e) == Failed
    ensures !RecoverWal(e.wal).status.Corrupted? && Initialize(c, d).Started?
            ==> Initialize(c, e).Started? && Initialize(c, e).process.data == Initialize(c, d).process.data
  {
    hide Read, RebuiltAll, NextAfter, LoadAll, RecoverWal, Print, AllPresent;
  }

  /**
   * A process that recovered from a torn append and logs a short record behind the tail: the command is
   * acknowledged, but after a crash the start either is refused or shows the map without it.
   */
  lemma AcknowledgedWriteIsLost(c: Config, space: set<bytes>, p: Process, rs: seq<Record>, torn: Record, j: nat, r: Record, a: map<bytes, bytes>, m: nat)
    requires ConfigOk(c, space) && ProcessOk(c, space, p, a, m) && m + 1 < TWO_64
    requires AllLoggable(rs) && Loggable(torn) && 1 <= j <= 3 && |Payload(r)| < 256
    requires p.disk.wal == LogBytes(rs) + RecordBytes(torn)[..j]
    ensures var start := Initialize(c, LogWrite(p, r).process.disk);
            if j == 3 then start == Failed else start.Started? && Live(start.process.data) == a
  {
    hide *;
    RecordIsLong(torn);
    TornAppend(rs, torn, j);
    AppendBehindShortTailIsLost(rs, torn, j, r);
    var d, e := p.disk, LogWrite(p, r).process.disk;
    LogWriteDisk(p, r);
    ProcessIsSafe(c, space, p, a, m);
    StartSafe(c, space, d, a, m);
    RecoveredParts(c, space, d, Initialize(c, d), a, m + 1);
    StartUsesReplay(c, d, e);
  }

  lemma LogWriteDisk(p: Process, r: Record)
    ensures LogWrite(p, r).process.disk == p.disk.(wal := p.disk.wal + RecordBytes(r))
  {
    hide RecordBytes, Apply;
  }

  // ---------------------------------------------------------------------------
  // More keys than those in use
  // ---------------------------------------------------------------------------

  lemma GoodInMore(space: set<bytes>, more: set<bytes>, d: Data)
    requires space <= more && GoodData(space, d)
    ensures GoodData(more, d)
  {
    hide IsToken, FitsItem;
  }

  lemma LogInMore(space: set<bytes>, more: set<bytes>, wal: bytes)
    requires space <= more && LogOk(space, wal)
    ensures LogOk(more, wal)
  {
    hide Loggable, IsToken, TornTail, LogBytes;
    var rs, t :| AllAcceptable(space, rs) && TornTail(t) && wal == LogBytes(rs) + t;
    assert AllAcceptable(more, rs);
  }

  lemma AllOkInMore(directory: bytes, space: set<bytes>, more: set<bytes>, files: Files, tables: seq<Meta>)
    requires space <= more && AllOk(directory, space, files, tables)
    ensures AllOk(directory, more, files, tables)
  {
    hide GoodData, ContentsOf, Load, MetaOf, TableName;
    forall i | 0 <= i < |tables|
      ensures TableOk(directory, more, files, tables[i])
    {
      assert TableOk(directory, space, files, tables[i]);
      GoodInMore(space, more, ContentsOf(files, tables[i].filename));
    }
  }

  lemma StructureInMore(c: Config, space: set<bytes>, more: set<bytes>, files: Files, next: nat, tables: seq<Meta>)
    requires space <= more && Structure(c, space, files, next, tables)
    ensures Structure(c, more, files, next, tables)
  {
    hide AllOk, AllPresent, GoodData, ContentsOf, TableName;
    if AllOk(c.directory, space, files, tables) {
      AllOkInMore(c.directory, space, more, files, tables);
    }
    if c.deletion.AsWritten? {
      forall i: nat
        ensures GoodData(more, ContentsOf(files, TableName(c.directory, i)))
      {
        GoodInMore(space, more, ContentsOf(files, TableName(c.directory, i)));
      }
    }
  }

  lemma ProcessInMore(c: Config, space: set<bytes>, more: set<bytes>, p: Process, a: map<bytes, bytes>, m: nat)
    requires space <= more && ProcessOk(c, space, p, a, m)
    ensures ProcessOk(c, more, p, a, m)
  {
    hide *;
    ProcessParts(c, space, p, a, m);
    DiskParts(c, space, p.disk, p.next, p.tables, a, m);
    GoodInMore(space, more, p.data);
    LogInMore(space, more, p.disk.wal);
    StructureInMore(c, space, more, p.disk.files, p.next, p.tables);
    MakeDisk(c, more, p.disk, p.next, p.tables, a, m);
    MakeRunning(c, more, p, a, m);
  }

  // ---------------------------------------------------------------------------
  // When every acknowledged append survives a crash
  // ---------------------------------------------------------------------------

  /** The record is logged, the process crashes, and a start shows the map with it. */
  ghost predicate Survives(c: Config, p: Process, r: Record, a: map<bytes, bytes>)
  {
    var start := Initialize(c, LogWrite(p, r).process.disk);
    start.Started? && Live(start.process.data) == After(a, r)
  }

  lemma SurvivesIs(c: Config, p: Process, r: Record, a: map<bytes, bytes>)
    ensures Survives(c, p, r, a) <==>
              var start := Initialize(c, LogWrite(p, r).process.disk);
              start.Started? && Live(start.process.data) == After(a, r)
  {
    hide Initialize, LogWrite, Live, After;
  }

  lemma MoreKeys(space: set<bytes>, key: bytes)
    ensures |space + {key}| <= |space| + 1
  {
    if key in space {
      assert space + {key} == space;
    }
  }

  lemma MoreConfig(c: Config, space: set<bytes>, more: set<bytes>)
    requires ConfigOk(c, space) && |more| < TWO_64
    ensures ConfigOk(c, more)
  {
    hide AllIn;
  }

  lemma MakeAcceptable(space: set<bytes>, r: Record)
    requires Loggable(r) && IsToken(r.key) && r.key in space
    ensures Acceptable(space, r)
  {
    hide Loggable, IsToken;
  }

  lemma CleanAppendSurvives(c: Config, space: set<bytes>, p: Process, r: Record, a: map<bytes, bytes>, m: nat)
    requires ConfigOk(c, space) && |space| + 1 < TWO_64 && ProcessOk(c, space, p, a, m) && m + 1 < TWO_64
    requires RecoverWal(p.disk.wal).rest == [] && Loggable(r) && IsToken(r.key)
    ensures Survives(c, p, r, a)
  {
    hide *;
    var more := space + {r.key};
    MoreKeys(space, r.key);
    MoreConfig(c, space, more);
    ProcessInMore(c, space, more, p, a, m);
    MakeAcceptable(more, r);
    LogWriteSplit(c, more, p, r, a, m);
    var q := LogWrite(p, r).process;
    ProcessIsSafe(c, more, q, After(a, r), m);
    StartSafe(c, more, q.disk, After(a, r), m);
    RecoveredParts(c, more, q.disk, Initialize(c, q.disk), After(a, r), m + 1);
    SurvivesIs(c, p, r, a);
  }

  lemma LogSplit(space: set<bytes>, wal: bytes) returns (rs: seq<Record>, t: bytes)
    requires LogOk(space, wal)
    ensures AllLoggable(rs) && TornTail(t) && wal == LogBytes(rs) + t
    ensures RecoverWal(wal).rest == t && RecoverWal(wal).data == Replay(rs)
  {
    hide RecoverWal, Loggable, IsToken, TornTail, LogBytes, Replay;
    rs, t :| AllAcceptable(space, rs) && TornTail(t) && wal == LogBytes(rs) + t;
    LogContents(space, rs, t);
  }

  lemma TellingIs(a: map<bytes, bytes>, r: Record)
    requires Telling(a, r)
    ensures After(a, r) != a && Loggable(r) && IsToken(r.key)
  {
    hide Loggable, IsToken;
    assert After(a, r)[r.key] == r.value;
  }

  /** Behind a torn tail some parsed PUT that changes the map is acknowledged and does not survive. */
  lemma SomeAppendDoesNotSurvive(c: Config, space: set<bytes>, p: Process, a: map<bytes, bytes>, m: nat) returns (r: Record)
    requires ConfigOk(c, space) && ProcessOk(c, space, p, a, m) && m + 1 < TWO_64
    requires RecoverWal(p.disk.wal).rest != []
    ensures Loggable(r) && IsToken(r.key) && !Survives(c, p, r, a)
  {
    hide *;
    ProcessParts(c, space, p, a, m);
    var rs, t := LogSplit(space, p.disk.wal);
    var torn, j := TornTailIs(t);
    r := SomeAppendIsLost(rs, torn, j, a);
    TellingIs(a, r);
    var d, e := p.disk, LogWrite(p, r).process.disk;
    LogWriteDisk(p, r);
    ProcessIsSafe(c, space, p, a, m);
    StartSafe(c, space, d, a, m);
    RecoveredParts(c, space, d, Initialize(c, d), a, m + 1);
    StartUsesReplay(c, d, e);
    SurvivesIs(c, p, r, a);
  }

  /**
   * Every parsed command within the reader's bound that the process logs next survives a crash if and only if the
   * log has no torn tail.
   */
  lemma AppendsSurviveIffClean(c: Config, space: set<bytes>, p: Process, a: map<bytes, bytes>, m: nat)
    requires ConfigOk(c, space) && |space| + 1 < TWO_64 && ProcessOk(c, space, p, a, m) && m + 1 < TWO_64
    ensures (forall r :: Loggable(r) && IsToken(r.key) ==> Survives(c, p, r, a)) <==> CleanLog(p.disk.wal)
  {
    CleanLogIs(p.disk.wal);
    hide *;
    if CleanLog(p.disk.wal) {
      forall r | Loggable(r) && IsToken(r.key)
        ensures Survives(c, p, r, a)
      {
        CleanAppendSurvives(c, space, p, r, a, m);
      }
    } else {
      var r := SomeAppendDoesNotSurvive(c, space, p, a, m);
    }
  }

  lemma CleanLogIs(wal: bytes)
    ensures CleanLog(wal) <==> RecoverWal(wal).rest == []
  {
    hide RecoverWal;
  }
}
