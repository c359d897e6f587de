/** A start on any safe disk succeeds and recovers the map, rebuilding the table list when it has to. */
module StartSafety {
  import opened Bytes
  import opened Text
  import opened Entries
  import opened FileSystem
  import opened Recovery
  import opened SSTable
  import opened ManifestText
  import opened TableNames
  import opened Engine
  import opened Invariant
  import opened Frames
  import opened CommandSafety

  // ---------------------------------------------------------------------------
  // The list rebuilt from the directory
  // ---------------------------------------------------------------------------

  ghost predicate AllGood(directory: bytes, space: set<bytes>, files: Files)
  {
    forall i: nat :: GoodData(space, ContentsOf(files, TableName(directory, i)))
  }

  lemma RebuiltStep(directory: bytes, files: Files, n: nat)
    ensures var name := TableName(directory, n);
            Rebuilt(directory, files, n + 1) == Rebuilt(directory, files, n)
            + if ContentsOf(files, name) == map[] then [] else [MetaOf(n, name, ContentsOf(files, name))]
  {
    hide ParseTable, TableName, MetaOf;
  }

  /** The rebuilt list is well formed, describes its files, and shows what the directory shows. */
  lemma {:induction false} RebuiltOk(directory: bytes, space: set<bytes>, files: Files, n: nat)
    requires AllGood(directory, space, files) && AllIn(Visible, directory) && |space| < TWO_64 && n < TWO_64
    ensures ListOk(directory, Rebuilt(directory, files, n), n)
    ensures AllOk(directory, space, files, Rebuilt(directory, files, n))
    ensures Fold(files, Rebuilt(directory, files, n)) == FoldBelow(directory, files, n)
  {
    hide *;
    if n == 0 {
      RebuiltNone(directory, space, files);
    } else {
      var name := TableName(directory, n - 1);
      var d := ContentsOf(files, name);
      var before := Rebuilt(directory, files, n - 1);
      RebuiltOk(directory, space, files, n - 1);
      RebuiltStep(directory, files, n - 1);
      FoldBelowStep(directory, files, n - 1);
      if d == map[] {
        assert before + [] == before;
        AddNothing(FoldBelow(directory, files, n - 1), d);
        ListOkWeaken(directory, before, n - 1, n);
      } else {
        GoodAt(directory, space, files, n - 1);
        MetaNames(n - 1, name, d);
        RebuiltMetaOk(directory, space, files, n - 1);
        PublishedList(directory, space, before, n - 1, d);
        AllOkSnoc(directory, space, files, before, MetaOf(n - 1, name, d));
        FoldSnoc(files, before, MetaOf(n - 1, name, d));
      }
    }
  }

  lemma RebuiltNone(directory: bytes, space: set<bytes>, files: Files)
    ensures Rebuilt(directory, files, 0) == [] && ListOk(directory, [], 0) && AllOk(directory, space, files, [])
    ensures Fold(files, []) == map[] && FoldBelow(directory, files, 0) == map[]
  {
  }

  lemma ListOkWeaken(directory: bytes, tables: seq<Meta>, m: nat, n: nat)
    requires ListOk(directory, tables, m) && m <= n
    ensures ListOk(directory, tables, n)
  {
    hide TableName, Printable;
  }

  lemma GoodAt(directory: bytes, space: set<bytes>, files: Files, i: nat)
    requires AllGood(directory, space, files)
    ensures GoodData(space, ContentsOf(files, TableName(directory, i)))
  {
    hide GoodData, ContentsOf, TableName;
  }

  lemma RebuiltMetaOk(directory: bytes, space: set<bytes>, files: Files, i: nat)
    requires ContentsOf(files, TableName(directory, i)) != map[]
    requires GoodData(space, ContentsOf(files, TableName(directory, i)))
    ensures TableOk(directory, space, files, MetaOf(i, TableName(directory, i), ContentsOf(files, TableName(directory, i))))
  {
    MetaNames(i, TableName(directory, i), ContentsOf(files, TableName(directory, i)));
    hide ParseTable, TableName, MetaOf, GoodData;
  }

  lemma AllOkSnoc(directory: bytes, space: set<bytes>, files: Files, tables: seq<Meta>, t: Meta)
    requires AllOk(directory, space, files, tables) && TableOk(directory, space, files, t)
    ensures AllOk(directory, space, files, tables + [t])
  {
    hide TableOk;
  }

  /** Past the last file a longer scan finds nothing more. */
  lemma {:induction false} RebuiltStable(directory: bytes, files: Files, n: nat, k: nat)
    requires IdsBelow(directory, files, n)
    ensures Rebuilt(directory, files, n + k) == Rebuilt(directory, files, n)
  {
    hide ParseTable, TableName, MetaOf;
    if k > 0 {
      RebuiltStable(directory, files, n, k - 1);
      assert TableName(directory, n + k - 1) !in files;
    }
  }

  lemma NamesBound(directory: bytes, files: Files, m: nat)
    requires NamesOk(directory, files, m)
    ensures IdsBelow(directory, files, m + 1)
  {
    hide TableName;
    forall i: nat | TableName(directory, i) in files
      ensures i < m + 1
    {
      var j: nat :| j <= m && TableName(directory, i) == TableName(directory, j);
      TableNameInjective(directory, i, j);
    }
  }

  lemma BoundsAgree(directory: bytes, files: Files, b: nat, n: nat)
    requires IdsBelow(directory, files, b) && IdsBelow(directory, files, n)
    ensures Rebuilt(directory, files, b) == Rebuilt(directory, files, n)
  {
    hide *;
    if b <= n {
      RebuiltStable(directory, files, b, n - b);
    } else {
      RebuiltStable(directory, files, n, b - n);
    }
  }

  lemma RebuiltAllIs(directory: bytes, files: Files, m: nat)
    requires NamesOk(directory, files, m)
    ensures RebuiltAll(directory, files) == Rebuilt(directory, files, m + 1)
  {
    hide Rebuilt, IdsBelow, NamesOk, IdBound;
    NamesBound(directory, files, m);
    BoundsAgree(directory, files, IdBound(directory, files), m + 1);
  }

  /** Every readable, non-empty file below n is on the rebuilt list. */
  lemma {:induction false} RebuiltHas(directory: bytes, files: Files, n: nat, i: nat) returns (k: nat)
    requires i < n && ContentsOf(files, TableName(directory, i)) != map[]
    ensures k < |Rebuilt(directory, files, n)| && Rebuilt(directory, files, n)[k].id == i
  {
    hide *;
    RebuiltStep(directory, files, n - 1);
    MetaNames(n - 1, TableName(directory, n - 1), ContentsOf(files, TableName(directory, n - 1)));
    if i == n - 1 {
      k := |Rebuilt(directory, files, n - 1)|;
    } else {
      k := RebuiltHas(directory, files, n - 1, i);
    }
  }

  /** The rebuilt next id is past every readable file. */
  lemma NothingPastNext(directory: bytes, space: set<bytes>, files: Files, m: nat)
    requires AllGood(directory, space, files) && AllIn(Visible, directory) && |space| < TWO_64 && m + 1 < TWO_64
    requires NamesOk(directory, files, m)
    ensures var rebuilt := Rebuilt(directory, files, m + 1);
            var next := NextAfter(rebuilt);
            && 1 <= next <= m + 1 && ListOk(directory, rebuilt, next)
            && forall i: nat :: i >= next ==> ContentsOf(files, TableName(directory, i)) == map[]
  {
    hide *;
    RebuiltOk(directory, space, files, m + 1);
    var rebuilt := Rebuilt(directory, files, m + 1);
    NextIsPast(directory, rebuilt, m + 1);
    forall i: nat | i >= NextAfter(rebuilt)
      ensures ContentsOf(files, TableName(directory, i)) == map[]
    {
      if ContentsOf(files, TableName(directory, i)) != map[] {
        ReadableIsNamed(directory, files, i, m);
        var k := RebuiltHas(directory, files, m + 1, i);
      }
    }
  }

  lemma NextIsPast(directory: bytes, rebuilt: seq<Meta>, n: nat)
    requires ListOk(directory, rebuilt, n) && 1 <= n < TWO_64
    ensures 1 <= NextAfter(rebuilt) <= n && ListOk(directory, rebuilt, NextAfter(rebuilt))
    ensures forall k :: 0 <= k < |rebuilt| ==> rebuilt[k].id < NextAfter(rebuilt)
  {
    hide TableName, Printable;
  }

  lemma ReadableIsNamed(directory: bytes, files: Files, i: nat, m: nat)
    requires NamesOk(directory, files, m) && ContentsOf(files, TableName(directory, i)) != map[]
    ensures i < m + 1
  {
    NamesBound(directory, files, m);
    hide ParseTable, TableName, NamesOk;
  }

  lemma {:induction false} FoldBelowStable(directory: bytes, files: Files, n: nat, k: nat)
    requires forall i: nat :: n <= i < n + k ==> ContentsOf(files, TableName(directory, i)) == map[]
    ensures FoldBelow(directory, files, n + k) == FoldBelow(directory, files, n)
  {
    hide TableName, ContentsOf;
    if k > 0 {
      FoldBelowStable(directory, files, n, k - 1);
      FoldBelowStep(directory, files, n + k - 1);
      AddNothing(FoldBelow(directory, files, n), ContentsOf(files, TableName(directory, n + k - 1)));
    }
  }

  // ---------------------------------------------------------------------------
  // The start
  // ---------------------------------------------------------------------------

  lemma {:induction false} ListLength(directory: bytes, tables: seq<Meta>, next: nat)
    requires ListOk(directory, tables, next)
    ensures |tables| <= next && AllPrintable(tables)
    ensures forall i :: 0 <= i < |tables| ==> tables[i].id >= i
    decreases |tables|
  {
    hide TableName, Printable;
    if tables != [] {
      var init, last := tables[..|tables| - 1], tables[|tables| - 1];
      assert ListOk(directory, init, last.id);
      ListLength(directory, init, last.id);
      assert forall i :: 0 <= i < |init| ==> tables[i] == init[i];
    }
  }

  /** The MANIFEST on a safe disk is read back as it was written. */
  lemma ManifestReads(directory: bytes, manifest: Option<bytes>, next: nat, tables: seq<Meta>)
    requires ManifestIs(manifest, next, tables) && ListOk(directory, tables, next) && next < TWO_64
    ensures (if manifest.None? then Contents(1, []) else Read(manifest.value)) == Contents(next, tables)
  {
    ListLength(directory, tables, next);
    hide ListOk, Print, Read, AllPrintable;
    ReadOfPrint(next, tables);
  }

  /** What holds after a start from tables that show a under the log. */
  ghost predicate Recovered(c: Config, space: set<bytes>, d: Image, s: Start, a: map<bytes, bytes>, m: nat)
  {
    && s.Started?
    && AllSafe(c, space, s.trace, a, m)
    && ProcessOk(c, space, s.process, a, m)
    && s.process.disk.wal == d.wal && s.process.disk.files == d.files
    && AllPresent(s.process.disk.files, s.process.tables)
    && Live(s.process.data) == a
  }

  lemma GoodOverlay(space: set<bytes>, d: Data, e: Data)
    requires GoodData(space, d) && GoodData(space, e)
    ensures GoodData(space, d + e)
  {
  }

  /** Tables below a memtable that holds everything they and the log hold. */
  lemma ReloadShows(x: Data, y: Data, r: Data, a: map<bytes, bytes>)
    requires Live(x + r) == a && Live(y + r) == a
    ensures Live(x + (y + r)) == a && Live(y + (y + r)) == a
    ensures Contains(y + r, r)
  {
    StackSame(x, y, r, a);
    assert x + (y + r) == x + y + r;
    assert y + (y + r) == y + r;
  }

  lemma LoadedProcess(c: Config, space: set<bytes>, d: Image, trace: seq<Image>, next: nat, tables: seq<Meta>, a: map<bytes, bytes>, m: nat)
    requires DiskOk(c, space, d, next, tables, a, m) && AllOk(c.directory, space, d.files, tables)
    requires AllSafe(c, space, trace, a, m)
    ensures Recovered(c, space, d, LoadInto(d, trace, tables, next), a, m)
  {
    hide *;
    DiskParts(c, space, d, next, tables, a, m);
    LogRecovers(space, d.wal);
    LoadAllIsFold(c.directory, space, d.files, tables);
    var r, y := RecoverWal(d.wal).data, Fold(d.files, tables);
    GoodOverlay(space, y, r);
    ShowsParts(c, d.files, next, tables, r, a);
    ReloadShows(y, y, r, a);
    if c.deletion.AsWritten? {
      ReloadShows(FoldBelow(c.directory, d.files, next), y, r, a);
      ReloadShows(FoldBelow(c.directory, d.files, next + 1), y, r, a);
    }
    MakeShows(c, d.files, next, tables, y + r, a);
    LoadIntoIs(d, trace, tables, next, y);
    MakeRunning(c, space, Process(d, y + r, tables, next), a, m);
    MakeRecovered(c, space, d, trace, Process(d, y + r, tables, next), a, m);
  }

  lemma ShowsParts(c: Config, files: Files, next: nat, tables: seq<Meta>, r: Data, a: map<bytes, bytes>)
    requires Shows(c, files, next, tables, r, a)
    ensures AllPresent(files, tables) ==> Live(Fold(files, tables) + r) == a
    ensures c.deletion.AsWritten? ==> Live(FoldBelow(c.directory, files, next) + r) == a
    ensures c.deletion.AsWritten? ==> Live(FoldBelow(c.directory, files, next + 1) + r) == a
  {
    hide Fold, FoldBelow, Live, AllPresent;
  }

  lemma MakeShows(c: Config, files: Files, next: nat, tables: seq<Meta>, r: Data, a: map<bytes, bytes>)
    requires AllPresent(files, tables) ==> Live(Fold(files, tables) + r) == a
    requires c.deletion.AsWritten? ==> Live(FoldBelow(c.directory, files, next) + r) == a
    requires c.deletion.AsWritten? ==> Live(FoldBelow(c.directory, files, next + 1) + r) == a
    ensures Shows(c, files, next, tables, r, a)
  {
    hide Fold, FoldBelow, Live, AllPresent;
  }

  lemma LoadIntoIs(d: Image, trace: seq<Image>, tables: seq<Meta>, next: nat, y: Data)
    requires LoadAll(d.files, tables) == Loaded(y) && !RecoverWal(d.wal).status.Corrupted?
    ensures LoadInto(d, trace, tables, next) == Started(trace, Process(d, y + RecoverWal(d.wal).data, tables, next))
  {
    hide LoadAll, RecoverWal;
  }

  lemma MakeRecovered(c: Config, space: set<bytes>, d: Image, trace: seq<Image>, p: Process, a: map<bytes, bytes>, m: nat)
    requires AllSafe(c, space, trace, a, m) && ProcessOk(c, space, p, a, m) && AllPresent(p.disk.files, p.tables)
    requires p.disk.wal == d.wal && p.disk.files == d.files && Live(p.data) == a
    ensures Recovered(c, space, d, Started(trace, p), a, m)
  {
    hide AllSafe, ProcessOk, AllPresent, Live;
  }

  /** When the list cannot be used, the rebuilt one can, and the disk stays safe under it. */
  lemma RebuildSafe(c: Config, space: set<bytes>, d: Image, next: nat, tables: seq<Meta>, a: map<bytes, bytes>, m: nat)
    requires ConfigOk(c, space) && c.deletion.AsWritten? && m + 1 < TWO_64
    requires DiskOk(c, space, d, next, tables, a, m)
    ensures var rebuilt := RebuiltAll(c.directory, d.files);
            && AllOk(c.directory, space, d.files, rebuilt)
            && DiskOk(c, space, WithManifest(d, NextAfter(rebuilt), rebuilt), NextAfter(rebuilt), rebuilt, a, m + 1)
  {
    hide *;
    ConfigParts(c, space);
    DiskParts(c, space, d, next, tables, a, m);
    ShowsParts(c, d.files, next, tables, RecoverWal(d.wal).data, a);
    WrittenParts(c, space, d.files, next, tables);
    RebuiltAllIs(c.directory, d.files, m);
    var rebuilt := Rebuilt(c.directory, d.files, m + 1);
    var next' := NextAfter(rebuilt);
    NothingPastNext(c.directory, space, d.files, m);
    RebuiltOk(c.directory, space, d.files, m + 1);
    FoldBelowStable(c.directory, d.files, next + 1, m - next);
    FoldBelowStable(c.directory, d.files, next', m + 1 - next');
    FoldBelowStable(c.directory, d.files, next', 1);
    MakeShows(c, d.files, next', rebuilt, RecoverWal(d.wal).data, a);
    MakeWritten(c, space, d.files, next', rebuilt);
    NamesWeaken(c.directory, d.files, m, m + 1);
    WithManifestIs(d, next', rebuilt);
    MakeDisk(c, space, WithManifest(d, next', rebuilt), next', rebuilt, a, m + 1);
  }

  lemma WrittenParts(c: Config, space: set<bytes>, files: Files, next: nat, tables: seq<Meta>)
    requires c.deletion.AsWritten? && Structure(c, space, files, next, tables)
    ensures AllGood(c.directory, space, files)
    ensures forall i: nat :: i > next ==> ContentsOf(files, TableName(c.directory, i)) == map[]
  {
    hide GoodData, ContentsOf, TableName, AllOk, AllPresent;
  }

  lemma MakeWritten(c: Config, space: set<bytes>, files: Files, next: nat, tables: seq<Meta>)
    requires c.deletion.AsWritten? && AllGood(c.directory, space, files) && AllOk(c.directory, space, files, tables)
    requires forall i: nat :: i >= next ==> ContentsOf(files, TableName(c.directory, i)) == map[]
    ensures Structure(c, space, files, next, tables)
  {
    hide GoodData, ContentsOf, TableName, AllOk, AllPresent;
  }

  lemma NamesWeaken(directory: bytes, files: Files, m: nat, n: nat)
    requires NamesOk(directory, files, m) && m <= n
    ensures NamesOk(directory, files, n)
  {
    hide TableName;
  }

  lemma StructurePresent(c: Config, space: set<bytes>, files: Files, next: nat, tables: seq<Meta>)
    requires Structure(c, space, files, next, tables)
    ensures AllPresent(files, tables) ==> AllOk(c.directory, space, files, tables)
    ensures !AllPresent(files, tables) ==> c.deletion.AsWritten?
  {
    hide TableOk, DirectoryOk;
    if AllOk(c.directory, space, files, tables) {
      LoadAllIsFold(c.directory, space, files, tables);
    }
  }

  lemma InitializeIs(c: Config, d: Image, next: nat, tables: seq<Meta>)
    requires (if d.manifest.None? then Contents(1, []) else Read(d.manifest.value)) == Contents(next, tables)
    ensures AllPresent(d.files, tables) ==> Initialize(c, d) == LoadInto(d, [], tables, next)
    ensures var rebuilt := RebuiltAll(c.directory, d.files);
            var after := WithManifest(d, NextAfter(rebuilt), rebuilt);
            !AllPresent(d.files, tables) ==> Initialize(c, d) == LoadInto(after, [after], rebuilt, NextAfter(rebuilt))
  {
    hide Read, RebuiltAll, NextAfter, LoadInto, AllPresent;
  }

  /** A start on a safe disk succeeds, and the memtable then holds exactly the map the disk was safe for. */
  lemma StartSafe(c: Config, space: set<bytes>, d: Image, a: map<bytes, bytes>, m: nat)
    requires ConfigOk(c, space) && Safe(c, space, d, a, m) && m + 1 < TWO_64
    ensures Recovered(c, space, d, Initialize(c, d), a, m + 1)
  {
    hide DiskOk, Recovered, Initialize, ConfigOk;
    var next: nat, tables: seq<Meta> :| DiskOk(c, space, d, next, tables, a, m);
    StartOn(c, space, d, next, tables, a, m);
  }

  lemma StartOn(c: Config, space: set<bytes>, d: Image, next: nat, tables: seq<Meta>, a: map<bytes, bytes>, m: nat)
    requires ConfigOk(c, space) && DiskOk(c, space, d, next, tables, a, m) && m + 1 < TWO_64
    ensures Recovered(c, space, d, Initialize(c, d), a, m + 1)
  {
    hide *;
    DiskParts(c, space, d, next, tables, a, m);
    ManifestReads(c.directory, d.manifest, next, tables);
    InitializeIs(c, d, next, tables);
    StructurePresent(c, space, d.files, next, tables);
    NoStates(c, space, a, m + 1);
    if AllPresent(d.files, tables) {
      DiskOkWeaken(c, space, d, next, tables, a, m, m + 1);
      LoadedProcess(c, space, d, [], next, tables, a, m + 1);
    } else {
      RebuildSafe(c, space, d, next, tables, a, m);
      var rebuilt := RebuiltAll(c.directory, d.files);
      var after := WithManifest(d, NextAfter(rebuilt), rebuilt);
      WithManifestIs(d, NextAfter(rebuilt), rebuilt);
      AllSafeSnoc(c, space, [], after, NextAfter(rebuilt), rebuilt, a, m + 1);
      LoadedProcess(c, space, after, [] + [after], NextAfter(rebuilt), rebuilt, a, m + 1);
      assert [] + [after] == [after];
      SameRecovered(c, space, after, d, Initialize(c, d), a, m + 1);
    }
  }

  lemma SameRecovered(c: Config, space: set<bytes>, d: Image, e: Image, s: Start, a: map<bytes, bytes>, m: nat)
    requires Recovered(c, space, d, s, a, m) && d.wal == e.wal && d.files == e.files
    ensures Recovered(c, space, e, s, a, m)
  {
    hide AllSafe, ProcessOk, AllPresent, Live;
  }
}
