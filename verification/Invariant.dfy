/** What holds of the disk between any two durable steps, and of a running process between commands. */
module Invariant {
  import opened Bytes
  import opened Text
  import opened Entries
  import opened FileSystem
  import opened WalRecord
  import opened Recovery
  import opened SSTable
  import opened ManifestText
  import opened TableNames
  import opened Engine

  // ---------------------------------------------------------------------------
  // The log
  // ---------------------------------------------------------------------------

  /** A record of a parsed command over the keys in use, within the reader's size bound. */
  predicate Acceptable(space: set<bytes>, r: Record)
  {
    Loggable(r) && IsToken(r.key) && r.key in space
  }

  predicate AllAcceptable(space: set<bytes>, rs: seq<Record>)
  {
    forall i :: 0 <= i < |rs| ==> Acceptable(space, rs[i])
  }

  /** A record of a parsed command over the keys in use, with sizes that a table can hold. */
  predicate Storable(space: set<bytes>, r: Record)
  {
    && IsToken(r.key) && r.key in space
    && FitsItem(Item(r.key, Entry(r.value, false)))
    && (r.kind.Delete? ==> r.value == [])
  }

  lemma AcceptableIsStorable(space: set<bytes>, r: Record)
    ensures Acceptable(space, r) <==> Storable(space, r) && 9 + |r.key| + |r.value| <= MAX_RECORD_SIZE
  {
    hide IsToken;
  }

  ghost predicate LogOk(space: set<bytes>, wal: bytes)
  {
    exists rs: seq<Record>, t: bytes :: AllAcceptable(space, rs) && TornTail(t) && wal == LogBytes(rs) + t
  }

  /** Keys and values the formats carry, and empty tombstones. */
  ghost predicate GoodData(space: set<bytes>, d: Data)
  {
    forall k :: k in d ==>
      IsToken(k) && k in space && FitsItem(Item(k, d[k])) && (d[k].deleted ==> d[k].value == [])
  }

  lemma {:induction false} ReplayGood(space: set<bytes>, rs: seq<Record>)
    requires AllAcceptable(space, rs)
    ensures GoodData(space, Replay(rs))
  {
    if rs != [] {
      ReplayGood(space, rs[..|rs| - 1]);
      AcceptableIsStorable(space, rs[|rs| - 1]);
      ApplyGood(space, Replay(rs[..|rs| - 1]), rs[|rs| - 1]);
    }
  }

  lemma ApplyGood(space: set<bytes>, d: Data, r: Record)
    requires GoodData(space, d) && Storable(space, r)
    ensures GoodData(space, Apply(d, r))
  {
  }

  /** A log in this state is never refused. */
  lemma LogRecovers(space: set<bytes>, wal: bytes)
    requires LogOk(space, wal)
    ensures !RecoverWal(wal).status.Corrupted? && GoodData(space, RecoverWal(wal).data)
  {
    var rs, t :| AllAcceptable(space, rs) && TornTail(t) && wal == LogBytes(rs) + t;
    LogContents(space, rs, t);
    ReplayGood(space, rs);
  }

  lemma LogContents(space: set<bytes>, rs: seq<Record>, t: bytes)
    requires AllAcceptable(space, rs) && TornTail(t)
    ensures !RecoverWal(LogBytes(rs) + t).status.Corrupted?
    ensures RecoverWal(LogBytes(rs) + t).data == Replay(rs) && RecoverWal(LogBytes(rs) + t).rest == t
  {
    hide RecoverWal, RecordBytes, Loggable;
    assert AllLoggable(rs);
    if t == [] {
      WholeLog(rs);
      assert LogBytes(rs) + t == LogBytes(rs);
    } else {
      var r: Record, j: nat :| Loggable(r) && j < |RecordBytes(r)| && t == RecordBytes(r)[..j];
      TornAppend(rs, r, j);
    }
  }

  /** Appending to a log without a torn tail: torn, it recovers as before; whole, with the record applied. */
  lemma LogAppend(space: set<bytes>, wal: bytes, r: Record, j: nat)
    requires LogOk(space, wal) && RecoverWal(wal).rest == []
    requires Acceptable(space, r) && j <= |RecordBytes(r)|
    ensures LogOk(space, wal + RecordBytes(r)[..j])
    ensures j < |RecordBytes(r)| ==> RecoverWal(wal + RecordBytes(r)[..j]).data == RecoverWal(wal).data
    ensures j == |RecordBytes(r)| ==> RecoverWal(wal + RecordBytes(r)[..j]).data == Apply(RecoverWal(wal).data, r)
    ensures j == |RecordBytes(r)| ==> RecoverWal(wal + RecordBytes(r)[..j]).rest == []
  {
    hide RecoverWal, RecordBytes, Acceptable, Loggable, AllAcceptable, TornTail;
    var rs, t :| AllAcceptable(space, rs) && TornTail(t) && wal == LogBytes(rs) + t;
    LogContents(space, rs, t);
    assert wal == LogBytes(rs);
    LogAppendTo(space, rs, r, j);
  }

  lemma LogAppendTo(space: set<bytes>, rs: seq<Record>, r: Record, j: nat)
    requires AllAcceptable(space, rs) && Acceptable(space, r) && j <= |RecordBytes(r)|
    ensures var wal, after := LogBytes(rs), LogBytes(rs) + RecordBytes(r)[..j];
            && RecoverWal(wal).data == Replay(rs)
            && LogOk(space, after)
            && RecoverWal(after).data == (if j < |RecordBytes(r)| then Replay(rs) else Apply(Replay(rs), r))
            && (j == |RecordBytes(r)| ==> RecoverWal(after).rest == [])
  {
    hide *;
    LogWhole(space, rs);
    var s := RecordBytes(r)[..j];
    if j < |RecordBytes(r)| {
      TailIsTorn(space, r, j);
      LogContents(space, rs, s);
      MakeLogOk(space, rs, s);
    } else {
      var more := rs + [r];
      LogOfMore(space, rs, r);
      assert s == RecordBytes(r);
      LogWhole(space, more);
    }
  }

  lemma LogWhole(space: set<bytes>, rs: seq<Record>)
    requires AllAcceptable(space, rs)
    ensures RecoverWal(LogBytes(rs)).data == Replay(rs) && RecoverWal(LogBytes(rs)).rest == []
    ensures LogOk(space, LogBytes(rs))
  {
    hide *;
    NoTail();
    LogContents(space, rs, []);
    MakeLogOk(space, rs, []);
    assert LogBytes(rs) + [] == LogBytes(rs);
  }

  lemma NoTail()
    ensures TornTail([])
  {
  }

  lemma MakeLogOk(space: set<bytes>, rs: seq<Record>, t: bytes)
    requires AllAcceptable(space, rs) && TornTail(t)
    ensures LogOk(space, LogBytes(rs) + t)
  {
    hide AllAcceptable, TornTail, LogBytes;
  }

  lemma TailIsTorn(space: set<bytes>, r: Record, j: nat)
    requires Acceptable(space, r) && j < |RecordBytes(r)|
    ensures TornTail(RecordBytes(r)[..j])
  {
    hide RecordBytes, Loggable;
  }

  lemma LogOfMore(space: set<bytes>, rs: seq<Record>, r: Record)
    requires AllAcceptable(space, rs) && Acceptable(space, r)
    ensures AllAcceptable(space, rs + [r])
    ensures LogBytes(rs + [r]) == LogBytes(rs) + RecordBytes(r) && Replay(rs + [r]) == Apply(Replay(rs), r)
  {
    hide RecordBytes, Apply, Acceptable;
    assert (rs + [r])[..|rs + [r]| - 1] == rs;
  }

  lemma EmptyLog(space: set<bytes>)
    ensures LogOk(space, []) && RecoverWal([]).data == map[] && RecoverWal([]).rest == []
  {
    var rs: seq<Record> := [];
    assert LogBytes(rs) + [] == [];
    LogContents(space, rs, []);
    assert LogOk(space, []) by { assert AllAcceptable(space, rs) && TornTail([]); }
  }

  // ---------------------------------------------------------------------------
  // The table list
  // ---------------------------------------------------------------------------

  /** Ids strictly increase and stay below the next id, names follow ids, the text format can carry it all. */
  predicate ListOk(directory: bytes, tables: seq<Meta>, next: nat)
  {
    && (forall i :: 0 <= i < |tables| ==> tables[i].id < next && Printable(tables[i])
                                          && tables[i].filename == TableName(directory, tables[i].id))
    && (forall i, j :: 0 <= i < j < |tables| ==> tables[i].id < tables[j].id)
  }

  predicate ManifestIs(manifest: Option<bytes>, next: nat, tables: seq<Meta>)
  {
    (manifest.None? && next == 1 && tables == []) || manifest == Some(Print(next, tables))
  }

  /** The file's contents as a map, empty when there is none or it does not parse. */
  function ContentsOf(files: Files, name: bytes): Data
  {
    match Load(files, name) case Rejected => map[] case Loaded(d) => d
  }

  function Fold(files: Files, tables: seq<Meta>): Data
  {
    if tables == [] then map[]
    else Fold(files, tables[..|tables| - 1]) + ContentsOf(files, tables[|tables| - 1].filename)
  }

  /** The metadata describes the file: a readable, non-empty table. */
  ghost predicate TableOk(directory: bytes, space: set<bytes>, files: Files, t: Meta)
  {
    && Load(files, t.filename).Loaded?
    && ContentsOf(files, t.filename) != map[]
    && GoodData(space, ContentsOf(files, t.filename))
    && t == MetaOf(t.id, TableName(directory, t.id), ContentsOf(files, t.filename))
  }

  ghost predicate AllOk(directory: bytes, space: set<bytes>, files: Files, tables: seq<Meta>)
  {
    forall i :: 0 <= i < |tables| ==> TableOk(directory, space, files, tables[i])
  }

  // ---------------------------------------------------------------------------
  // The directory
  // ---------------------------------------------------------------------------

  /** All readable tables with ids below n, older ids first, listed or not: what a rebuild would see. */
  function FoldBelow(directory: bytes, files: Files, n: nat): Data
  {
    if n == 0 then map[]
    else FoldBelow(directory, files, n - 1) + ContentsOf(files, TableName(directory, n - 1))
  }

  /** Only table files, ids at most m. */
  ghost predicate NamesOk(directory: bytes, files: Files, m: nat)
  {
    forall name :: name in files ==> exists i: nat :: i <= m && name == TableName(directory, i)
  }

  /** Every readable file is a good table, and past the next id nothing is readable. */
  ghost predicate DirectoryOk(directory: bytes, space: set<bytes>, files: Files, next: nat)
  {
    && (forall i: nat :: GoodData(space, ContentsOf(files, TableName(directory, i))))
    && (forall i: nat :: i > next ==> ContentsOf(files, TableName(directory, i)) == map[])
  }

  // ---------------------------------------------------------------------------
  // Both, under either deletion loop
  // ---------------------------------------------------------------------------

  /**
   * With the intended loop every listed table is always there. With the loop as written the newest
   * compaction's table may be missing, and then the directory as a whole stands in for the list.
   */
  ghost predicate Structure(c: Config, space: set<bytes>, files: Files, next: nat, tables: seq<Meta>)
  {
    match c.deletion
    case AsIntended => AllOk(c.directory, space, files, tables)
    case AsWritten =>
      && DirectoryOk(c.directory, space, files, next)
      && (AllOk(c.directory, space, files, tables) || !AllPresent(files, tables))
  }

  /** Under the newest entries r, the tables that a start would use show the key-value map a. */
  ghost predicate Shows(c: Config, files: Files, next: nat, tables: seq<Meta>, r: Data, a: map<bytes, bytes>)
  {
    && (AllPresent(files, tables) ==> Live(Fold(files, tables) + r) == a)
    && (c.deletion.AsWritten? ==>
          && Live(FoldBelow(c.directory, files, next) + r) == a
          && Live(FoldBelow(c.directory, files, next + 1) + r) == a)
  }

  /** The disk between two durable steps, or after a crash; m bounds the ids used so far. */
  ghost predicate DiskOk(c: Config, space: set<bytes>, d: Image, next: nat, tables: seq<Meta>, a: map<bytes, bytes>, m: nat)
  {
    && ManifestIs(d.manifest, next, tables)
    && ListOk(c.directory, tables, next) && 1 <= next <= m < TWO_64
    && NamesOk(c.directory, d.files, m)
    && LogOk(space, d.wal)
    && Structure(c, space, d.files, next, tables)
    && Shows(c, d.files, next, tables, RecoverWal(d.wal).data, a)
  }

  ghost predicate Safe(c: Config, space: set<bytes>, d: Image, a: map<bytes, bytes>, m: nat)
  {
    exists next: nat, tables: seq<Meta> :: DiskOk(c, space, d, next, tables, a, m)
  }

  /** A running process between two commands. */
  ghost predicate ProcessOk(c: Config, space: set<bytes>, p: Process, a: map<bytes, bytes>, m: nat)
  {
    && DiskOk(c, space, p.disk, p.next, p.tables, a, m)
    && GoodData(space, p.data)
    && Contains(p.data, RecoverWal(p.disk.wal).data)
    && Shows(c, p.disk.files, p.next, p.tables, p.data, a)
  }

  /** Of that, what does not depend on the log. */
  ghost predicate TablesOk(c: Config, space: set<bytes>, p: Process, a: map<bytes, bytes>, m: nat)
  {
    && ManifestIs(p.disk.manifest, p.next, p.tables)
    && ListOk(c.directory, p.tables, p.next) && 1 <= p.next <= m < TWO_64
    && NamesOk(c.directory, p.disk.files, m)
    && Structure(c, space, p.disk.files, p.next, p.tables)
    && GoodData(space, p.data)
    && Shows(c, p.disk.files, p.next, p.tables, p.data, a)
  }

  /** And what does: the log can be replayed, and what it replays is in the memtable and enough for a start. */
  ghost predicate Logged(c: Config, space: set<bytes>, p: Process, a: map<bytes, bytes>)
  {
    && LogOk(space, p.disk.wal)
    && Contains(p.data, RecoverWal(p.disk.wal).data)
    && Shows(c, p.disk.files, p.next, p.tables, RecoverWal(p.disk.wal).data, a)
  }

  lemma ProcessSplit(c: Config, space: set<bytes>, p: Process, a: map<bytes, bytes>, m: nat)
    ensures ProcessOk(c, space, p, a, m) <==> TablesOk(c, space, p, a, m) && Logged(c, space, p, a)
  {
    hide ManifestIs, ListOk, NamesOk, Structure, GoodData, Shows, LogOk, RecoverWal, Contains;
  }

  ghost predicate ConfigOk(c: Config, space: set<bytes>)
  {
    AllIn(Visible, c.directory) && |space| < TWO_64
  }

  // ---------------------------------------------------------------------------
  // Small facts
  // ---------------------------------------------------------------------------

  lemma DiskOkWeaken(c: Config, space: set<bytes>, d: Image, next: nat, tables: seq<Meta>, a: map<bytes, bytes>, m: nat, n: nat)
    requires DiskOk(c, space, d, next, tables, a, m) && m <= n < TWO_64
    ensures DiskOk(c, space, d, next, tables, a, n)
  {
    hide LogOk, Structure, Shows, ManifestIs, ListOk, TableName, RecoverWal;
    assert NamesOk(c.directory, d.files, n);
  }

  lemma {:induction false} SubsetSize(a: set<bytes>, b: set<bytes>)
    requires a <= b
    ensures |a| <= |b|
    decreases |a|
  {
    if a != {} {
      var x :| x in a;
      SubsetSize(a - {x}, b - {x});
    }
  }

  lemma GoodDataFits(space: set<bytes>, d: Data)
    requires GoodData(space, d) && |space| < TWO_64
    ensures FitsFormat(d)
  {
    SubsetSize(d.Keys, space);
    assert |d| == |d.Keys|;
  }

  lemma WrittenParses(space: set<bytes>, d: Data, j: nat)
    requires GoodData(space, d) && |space| < TWO_64 && j <= |TableBytes(d)|
    ensures ParseTable(TableBytes(d)[..j]) == if j == |TableBytes(d)| then Loaded(d) else Rejected
  {
    GoodDataFits(space, d);
    hide *;
    ParseOfTableBytes(d);
    if j == |TableBytes(d)| {
      assert TableBytes(d)[..j] == TableBytes(d);
    } else {
      TornTableRejected(d, j);
    }
  }

  lemma MetaIsPrintable(directory: bytes, space: set<bytes>, id: nat, d: Data)
    requires GoodData(space, d) && d != map[] && |space| < TWO_64
    requires id < TWO_64 && AllIn(Visible, directory)
    ensures Printable(MetaOf(id, TableName(directory, id), d))
  {
    GoodDataFits(space, d);
    TableNameIsToken(directory, id);
    SortedItemsHold(d);
    hide SortedItems, TableName, IsToken;
    var items := SortedItems(d);
    assert items[0] in items && items[|items| - 1] in items;
  }

  lemma MetaNames(id: nat, name: bytes, d: Data)
    ensures MetaOf(id, name, d).id == id && MetaOf(id, name, d).filename == name
  {
    hide SortedItems;
  }
}
