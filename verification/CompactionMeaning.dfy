/** What the tables on disk mean while the intended loop deletes the merged ones, oldest first. */
module CompactionMeaning {
  import opened Bytes
  import opened Entries
  import opened FileSystem
  import opened SSTable
  import opened ManifestText
  import opened TableNames
  import opened Engine
  import opened Invariant
  import opened Frames
  import opened CommandSafety
  import opened StartSafety

  /** The fold of the newer tables agrees with the fold of all of them wherever it says anything. */
  lemma {:induction false} SuffixAgrees(files: Files, tables: seq<Meta>, k: nat)
    requires k <= |tables|
    ensures Contains(Fold(files, tables), Fold(files, tables[k..]))
  {
    hide ContentsOf;
    if k < |tables| {
      var init := tables[..|tables| - 1];
      SuffixAgrees(files, init, k);
      assert tables[k..][..|tables[k..]| - 1] == init[k..];
    }
  }

  /** Any remaining newer tables under the merged one show what all of them showed: no deleted key comes back. */
  lemma SuffixUnderMerged(files: Files, tables: seq<Meta>, k: nat)
    requires k <= |tables|
    ensures Live(Fold(files, tables[k..]) + DropTombstones(Fold(files, tables))) == Live(Fold(files, tables))
  {
    SuffixAgrees(files, tables, k);
    hide Fold;
    ContainedUnderMerged(Fold(files, tables), Fold(files, tables[k..]));
  }

  lemma ContainedUnderMerged(all: Data, rest: Data)
    requires Contains(all, rest)
    ensures Live(rest + DropTombstones(all)) == Live(all)
  {
    RevivalIs(rest, all);
    assert forall key :: key in Live(rest) ==> key in DropTombstones(all);
  }

  /** The three MANIFEST states of a compaction show one map: the old tables, those under the merged one, it alone. */
  lemma ManifestStatesAgree(files: Files, tables: seq<Meta>)
    ensures var all := Fold(files, tables);
            var merged := DropTombstones(all);
            Live(all + merged) == Live(all) && Live(merged) == Live(all)
  {
    SuffixUnderMerged(files, tables, 0);
    assert tables[0..] == tables;
    hide Fold;
    DropTombstonesLive(Fold(files, tables));
  }

  /** The directory holds no readable table besides the listed ones. */
  ghost predicate NoOrphans(directory: bytes, files: Files, tables: seq<Meta>, n: nat)
  {
    forall i: nat :: i < n && ContentsOf(files, TableName(directory, i)) != map[] ==> exists k :: 0 <= k < |tables| && tables[k].id == i
  }

  /** Without orphans a rebuild finds exactly the listed tables, in the listed order. */
  lemma {:induction false} RebuiltIsList(directory: bytes, space: set<bytes>, files: Files, tables: seq<Meta>, n: nat)
    requires ListOk(directory, tables, n) && AllOk(directory, space, files, tables)
    requires NoOrphans(directory, files, tables, n)
    ensures Rebuilt(directory, files, n) == tables
  {
    hide *;
    if n == 0 {
      RebuiltNone(directory, space, files);
      EmptyList(directory, tables);
    } else {
      RebuiltStep(directory, files, n - 1);
      if tables != [] && tables[|tables| - 1].id == n - 1 {
        var init, t := tables[..|tables| - 1], tables[|tables| - 1];
        LastListed(directory, space, files, tables, n);
        RebuiltIsList(directory, space, files, init, n - 1);
        assert tables == init + [t];
      } else {
        NotListed(directory, space, files, tables, n);
        RebuiltIsList(directory, space, files, tables, n - 1);
        assert tables + [] == tables;
      }
    }
  }

  lemma EmptyList(directory: bytes, tables: seq<Meta>)
    requires ListOk(directory, tables, 0)
    ensures tables == []
  {
    hide TableName, Printable;
    assert tables != [] ==> tables[0].id < 0;
  }

  lemma InitListed(directory: bytes, tables: seq<Meta>, n: nat)
    requires n > 0 && tables != [] && tables[|tables| - 1].id == n - 1 && ListOk(directory, tables, n)
    ensures ListOk(directory, tables[..|tables| - 1], n - 1)
  {
    hide TableName, Printable;
  }

  lemma InitNoOrphans(directory: bytes, files: Files, tables: seq<Meta>, n: nat)
    requires n > 0 && tables != [] && tables[|tables| - 1].id == n - 1 && NoOrphans(directory, files, tables, n)
    ensures NoOrphans(directory, files, tables[..|tables| - 1], n - 1)
  {
    hide TableName, ContentsOf;
    var init := tables[..|tables| - 1];
    forall i: nat | i < n - 1 && ContentsOf(files, TableName(directory, i)) != map[]
      ensures exists k :: 0 <= k < |init| && init[k].id == i
    {
      var k :| 0 <= k < |tables| && tables[k].id == i;
      assert init[k].id == i;
    }
  }

  lemma InitOk(directory: bytes, space: set<bytes>, files: Files, tables: seq<Meta>)
    requires tables != [] && AllOk(directory, space, files, tables)
    ensures AllOk(directory, space, files, tables[..|tables| - 1]) && TableOk(directory, space, files, tables[|tables| - 1])
  {
    hide TableOk;
  }

  lemma OkParts(directory: bytes, space: set<bytes>, files: Files, t: Meta)
    requires TableOk(directory, space, files, t) && t.filename == TableName(directory, t.id)
    ensures var name := TableName(directory, t.id);
            ContentsOf(files, name) != map[] && t == MetaOf(t.id, name, ContentsOf(files, name))
  {
    hide TableName, ContentsOf, MetaOf, GoodData, Load;
  }

  lemma LastListed(directory: bytes, space: set<bytes>, files: Files, tables: seq<Meta>, n: nat)
    requires n > 0 && tables != [] && tables[|tables| - 1].id == n - 1
    requires ListOk(directory, tables, n) && AllOk(directory, space, files, tables) && NoOrphans(directory, files, tables, n)
    ensures var init := tables[..|tables| - 1];
            && ListOk(directory, init, n - 1) && AllOk(directory, space, files, init)
            && NoOrphans(directory, files, init, n - 1)
    ensures var name := TableName(directory, n - 1);
            ContentsOf(files, name) != map[] && tables[|tables| - 1] == MetaOf(n - 1, name, ContentsOf(files, name))
  {
    hide *;
    InitListed(directory, tables, n);
    InitNoOrphans(directory, files, tables, n);
    InitOk(directory, space, files, tables);
    ListNames(directory, tables, n);
    OkParts(directory, space, files, tables[|tables| - 1]);
  }

  lemma NotListed(directory: bytes, space: set<bytes>, files: Files, tables: seq<Meta>, n: nat)
    requires n > 0 && (tables == [] || tables[|tables| - 1].id != n - 1)
    requires ListOk(directory, tables, n) && NoOrphans(directory, files, tables, n)
    ensures ListOk(directory, tables, n - 1) && NoOrphans(directory, files, tables, n - 1)
    ensures ContentsOf(files, TableName(directory, n - 1)) == map[]
  {
    hide TableName, Printable, ContentsOf;
    forall k | 0 <= k < |tables|
      ensures tables[k].id < n - 1
    {
      assert tables[k].id <= tables[|tables| - 1].id;
    }
  }

  // ---------------------------------------------------------------------------
  // During the deletion
  // ---------------------------------------------------------------------------

  lemma {:induction false} RemovedContents(d: Image, tables: seq<Meta>, name: bytes)
    ensures name in RemoveFiles(d, tables).files
            <==> name in d.files && forall i :: 0 <= i < |tables| ==> tables[i].filename != name
    ensures name in RemoveFiles(d, tables).files ==> RemoveFiles(d, tables).files[name] == d.files[name]
  {
    if tables != [] {
      var init, last := tables[..|tables| - 1], tables[|tables| - 1];
      RemovedContents(d, init, name);
      if name in d.files && forall i :: 0 <= i < |init| ==> init[i].filename != name {
        assert (forall i :: 0 <= i < |tables| ==> tables[i].filename != name) <==> last.filename != name by {
          if last.filename != name {
            forall i | 0 <= i < |tables|
              ensures tables[i].filename != name
            {
              if i < |init| { assert init[i] == tables[i]; }
            }
          }
        }
      } else if name in d.files {
        var i :| 0 <= i < |init| && init[i].filename == name;
        assert tables[i].filename == name;
      }
    }
  }

  lemma RemovedReads(d: Image, tables: seq<Meta>, name: bytes)
    ensures (forall i :: 0 <= i < |tables| ==> tables[i].filename != name)
            ==> Load(RemoveFiles(d, tables).files, name) == Load(d.files, name)
    ensures (exists i :: 0 <= i < |tables| && tables[i].filename == name)
            ==> ContentsOf(RemoveFiles(d, tables).files, name) == map[]
  {
    RemovedContents(d, tables, name);
    hide ParseTable, RemoveFiles;
  }

  /** The disk while the intended loop has removed the first k merged tables. */
  ghost function Deleting(c: Config, p: Process, merged: Data, k: nat): Image
    requires k <= |p.tables|
  {
    RemoveFiles(p.disk.(files := NewFile(c, p.disk.files, p.next, TableBytes(merged))), p.tables[..k])
  }

  /** A file that is not among the removed ones reads as in the image they are removed from. */
  lemma DeletingReads(c: Config, p: Process, merged: Data, k: nat, name: bytes)
    requires k <= |p.tables|
    ensures var files := Deleting(c, p, merged, k).files;
            var image := NewFile(c, p.disk.files, p.next, TableBytes(merged));
            && ((forall i :: 0 <= i < k ==> p.tables[i].filename != name) ==> Load(files, name) == Load(image, name))
            && ((exists i :: 0 <= i < k && p.tables[i].filename == name) ==> ContentsOf(files, name) == map[])
  {
    hide Load, ContentsOf, RemoveFiles, NewFile, TableBytes;
    var image := p.disk.(files := NewFile(c, p.disk.files, p.next, TableBytes(merged)));
    var gone := p.tables[..k];
    RemovedReads(image, gone, name);
    if i :| 0 <= i < k && p.tables[i].filename == name {
      assert gone[i].filename == name;
    }
  }

  lemma DeletingListed(c: Config, space: set<bytes>, p: Process, merged: Data, k: nat, i: nat)
    requires k <= |p.tables| && i < |p.tables| && ListOk(c.directory, p.tables, p.next)
    ensures var files := Deleting(c, p, merged, k).files;
            && (k <= i ==> Load(files, p.tables[i].filename) == Load(p.disk.files, p.tables[i].filename))
            && (i < k ==> ContentsOf(files, p.tables[i].filename) == map[])
  {
    ListedUnaffected(c.directory, p.disk.files, p.tables, p.next, TableBytes(merged));
    ListedDistinct(c.directory, p.tables, p.next);
    hide Deleting, ListOk, Load, ContentsOf, TableBytes, TableName;
    DeletingReads(c, p, merged, k, p.tables[i].filename);
  }

  lemma DeletingNew(c: Config, space: set<bytes>, p: Process, merged: Data, k: nat)
    requires k <= |p.tables| && ListOk(c.directory, p.tables, p.next)
    requires GoodData(space, merged) && |space| < TWO_64
    ensures Load(Deleting(c, p, merged, k).files, TableName(c.directory, p.next)) == Loaded(merged)
  {
    NewFileLoads(c, space, p.disk.files, p.next, merged);
    ListedDistinct(c.directory, p.tables, p.next);
    hide *;
    DeletingReads(c, p, merged, k, TableName(c.directory, p.next));
  }

  lemma DeletingOther(c: Config, p: Process, merged: Data, k: nat, i: nat)
    requires k <= |p.tables| && i != p.next
    requires ContentsOf(Deleting(c, p, merged, k).files, TableName(c.directory, i)) != map[]
    ensures ContentsOf(p.disk.files, TableName(c.directory, i)) != map[]
  {
    ContentsAfterWrite(c.directory, p.disk.files, p.next, TableBytes(merged));
    hide Deleting, Load, ContentsOf, TableBytes, TableName;
    DeletingReads(c, p, merged, k, TableName(c.directory, i));
    SameLoadSameContents(Deleting(c, p, merged, k).files, NewFile(c, p.disk.files, p.next, TableBytes(merged)), TableName(c.directory, i));
  }

  /** Which files are still readable then, and as what. */
  lemma DeletingContents(c: Config, space: set<bytes>, p: Process, merged: Data, k: nat)
    requires k <= |p.tables| && ListOk(c.directory, p.tables, p.next)
    requires GoodData(space, merged) && |space| < TWO_64
    ensures var files := Deleting(c, p, merged, k).files;
            && Load(files, TableName(c.directory, p.next)) == Loaded(merged)
            && (forall i :: k <= i < |p.tables| ==> Load(files, p.tables[i].filename) == Load(p.disk.files, p.tables[i].filename))
    ensures forall i :: 0 <= i < k ==> ContentsOf(Deleting(c, p, merged, k).files, p.tables[i].filename) == map[]
    ensures forall i: nat :: i != p.next && ContentsOf(Deleting(c, p, merged, k).files, TableName(c.directory, i)) != map[]
              ==> ContentsOf(p.disk.files, TableName(c.directory, i)) != map[]
  {
    hide *;
    DeletingNew(c, space, p, merged, k);
    forall i | 0 <= i < |p.tables|
      ensures k <= i ==> Load(Deleting(c, p, merged, k).files, p.tables[i].filename) == Load(p.disk.files, p.tables[i].filename)
      ensures i < k ==> ContentsOf(Deleting(c, p, merged, k).files, p.tables[i].filename) == map[]
    {
      DeletingListed(c, space, p, merged, k, i);
    }
    forall i: nat | i != p.next && ContentsOf(Deleting(c, p, merged, k).files, TableName(c.directory, i)) != map[]
      ensures ContentsOf(p.disk.files, TableName(c.directory, i)) != map[]
    {
      DeletingOther(c, p, merged, k, i);
    }
  }

  lemma SameLoadSameContents(files: Files, files': Files, name: bytes)
    ensures Load(files, name) == Load(files', name) ==> ContentsOf(files, name) == ContentsOf(files', name)
  {
    hide Load;
  }

  lemma ListedDistinct(directory: bytes, tables: seq<Meta>, next: nat)
    requires ListOk(directory, tables, next)
    ensures forall i, j :: 0 <= i < j < |tables| ==> tables[i].filename != tables[j].filename
    ensures forall i :: 0 <= i < |tables| ==> tables[i].filename != TableName(directory, next)
  {
    hide TableName, Printable;
    forall i, j | 0 <= i < j < |tables|
      ensures tables[i].filename != tables[j].filename
    {
      if tables[i].filename == tables[j].filename {
        TableNameInjective(directory, tables[i].id, tables[j].id);
      }
    }
    forall i | 0 <= i < |tables|
      ensures tables[i].filename != TableName(directory, next)
    {
      if tables[i].filename == TableName(directory, next) {
        TableNameInjective(directory, tables[i].id, next);
      }
    }
  }

  lemma RemainingListOk(c: Config, space: set<bytes>, tables: seq<Meta>, next: nat, merged: Data, k: nat)
    requires ConfigOk(c, space) && ListOk(c.directory, tables, next) && k <= |tables| && next + 1 < TWO_64
    requires GoodData(space, merged) && merged != map[]
    ensures ListOk(c.directory, tables[k..] + [NewMeta(c, next, merged)], next + 1)
  {
    assert ListOk(c.directory, tables[k..], next) by { hide TableName, Printable; }
    PublishedList(c.directory, space, tables[k..], next, merged);
  }

  lemma SomeOk(directory: bytes, space: set<bytes>, files: Files, tables: seq<Meta>, k: nat)
    requires AllOk(directory, space, files, tables) && k <= |tables|
    ensures AllOk(directory, space, files, tables[k..])
  {
    hide TableOk;
  }

  lemma NewTableOk(c: Config, space: set<bytes>, files: Files, next: nat, merged: Data)
    requires Load(files, TableName(c.directory, next)) == Loaded(merged) && GoodData(space, merged) && merged != map[]
    ensures TableOk(c.directory, space, files, NewMeta(c, next, merged))
  {
    NewMetaNames(c, next, merged);
    hide TableName, Load, GoodData, MetaOf;
  }

  lemma RemainingAllOk(c: Config, space: set<bytes>, p: Process, merged: Data, k: nat)
    requires k <= |p.tables| && ListOk(c.directory, p.tables, p.next) && AllOk(c.directory, space, p.disk.files, p.tables)
    requires GoodData(space, merged) && merged != map[] && |space| < TWO_64
    ensures AllOk(c.directory, space, Deleting(c, p, merged, k).files, p.tables[k..] + [NewMeta(c, p.next, merged)])
  {
    hide *;
    DeletingContents(c, space, p, merged, k);
    var files, rest, t := Deleting(c, p, merged, k).files, p.tables[k..], NewMeta(c, p.next, merged);
    SomeOk(c.directory, space, p.disk.files, p.tables, k);
    AllOkFrame(c.directory, space, p.disk.files, files, rest);
    NewTableOk(c, space, files, p.next, merged);
    AllOkSnoc(c.directory, space, files, rest, t);
  }

  lemma ListNames(directory: bytes, tables: seq<Meta>, next: nat)
    requires ListOk(directory, tables, next)
    ensures forall i :: 0 <= i < |tables| ==> tables[i].filename == TableName(directory, tables[i].id)
  {
    hide TableName, Printable;
  }

  lemma RemainingNoOrphans(c: Config, space: set<bytes>, p: Process, merged: Data, k: nat, n: nat)
    requires k <= |p.tables| && ListOk(c.directory, p.tables, p.next)
    requires NoOrphans(c.directory, p.disk.files, p.tables, n)
    requires GoodData(space, merged) && |space| < TWO_64
    ensures NoOrphans(c.directory, Deleting(c, p, merged, k).files, p.tables[k..] + [NewMeta(c, p.next, merged)], n)
  {
    hide Deleting, TableName, ListOk, Load, ContentsOf, GoodData, NewMeta;
    ListNames(c.directory, p.tables, p.next);
    DeletingContents(c, space, p, merged, k);
    NewMetaNames(c, p.next, merged);
    var files, rest, t := Deleting(c, p, merged, k).files, p.tables[k..], NewMeta(c, p.next, merged);
    var all := rest + [t];
    forall i: nat | i < n && ContentsOf(files, TableName(c.directory, i)) != map[]
      ensures exists q :: 0 <= q < |all| && all[q].id == i
    {
      if i == p.next {
        assert all[|rest|].id == i;
      } else {
        var q :| 0 <= q < |p.tables| && p.tables[q].id == i;
        assert q >= k;
        assert all[q - k].id == i;
      }
    }
  }

  lemma RemainingNames(c: Config, p: Process, merged: Data, k: nat, m: nat)
    requires k <= |p.tables| && NamesOk(c.directory, p.disk.files, m) && p.next <= m
    ensures NamesOk(c.directory, Deleting(c, p, merged, k).files, m)
  {
    var s := TableBytes(merged);
    NamesAfterWrite(c.directory, p.disk.files, p.next, s, m, m);
    hide TableName, TableBytes, RemoveFiles;
    var image := p.disk.(files := NewFile(c, p.disk.files, p.next, s));
    forall name | name in Deleting(c, p, merged, k).files
      ensures exists i: nat :: i <= m && name == TableName(c.directory, i)
    {
      RemovedContents(image, p.tables[..k], name);
    }
  }

  lemma RemainingFold(c: Config, space: set<bytes>, p: Process, merged: Data, k: nat)
    requires k <= |p.tables| && ListOk(c.directory, p.tables, p.next)
    requires GoodData(space, merged) && |space| < TWO_64
    ensures Fold(Deleting(c, p, merged, k).files, p.tables[k..] + [NewMeta(c, p.next, merged)])
         == Fold(p.disk.files, p.tables[k..]) + merged
  {
    DeletingContents(c, space, p, merged, k);
    NewMetaNames(c, p.next, merged);
    var files, rest, t := Deleting(c, p, merged, k).files, p.tables[k..], NewMeta(c, p.next, merged);
    hide Deleting, TableName, ListOk, Load, GoodData, NewMeta, Fold;
    forall i | 0 <= i < |rest|
      ensures ContentsOf(files, rest[i].filename) == ContentsOf(p.disk.files, rest[i].filename)
    {
      SameLoadSameContents(files, p.disk.files, p.tables[k + i].filename);
    }
    FoldFrame(p.disk.files, files, rest);
    FoldSnoc(files, rest, t);
  }

  /**
   * A rebuild at any point of the deletion: with the merged table written and the first k old files gone,
   * and no other readable files around, rebuild_from_directory lists exactly the remaining old tables
   * followed by the merged one, and they show the map that all the old tables showed.
   */
  lemma RebuildDuringDeletion(c: Config, space: set<bytes>, p: Process, k: nat, m: nat)
    requires ConfigOk(c, space) && ListOk(c.directory, p.tables, p.next) && p.next <= m && m + 1 < TWO_64
    requires AllOk(c.directory, space, p.disk.files, p.tables) && NamesOk(c.directory, p.disk.files, m)
    requires NoOrphans(c.directory, p.disk.files, p.tables, m + 1) && k <= |p.tables|
    requires Live(Fold(p.disk.files, p.tables)) != map[]
    ensures var merged := DropTombstones(Fold(p.disk.files, p.tables));
            var files := Deleting(c, p, merged, k).files;
            var rebuilt := RebuiltAll(c.directory, files);
            && rebuilt == p.tables[k..] + [NewMeta(c, p.next, merged)]
            && LoadAll(files, rebuilt).Loaded?
            && Live(LoadAll(files, rebuilt).data) == Live(Fold(p.disk.files, p.tables))
  {
    hide *;
    ConfigParts(c, space);
    var all := Fold(p.disk.files, p.tables);
    var merged := DropTombstones(all);
    var files := Deleting(c, p, merged, k).files;
    var list := p.tables[k..] + [NewMeta(c, p.next, merged)];
    LoadAllIsFold(c.directory, space, p.disk.files, p.tables);
    MergeGood(space, all);
    SomethingLive(all);
    RemainingListOk(c, space, p.tables, p.next, merged, k);
    ListOkWeaken(c.directory, list, p.next + 1, m + 1);
    RemainingAllOk(c, space, p, merged, k);
    RemainingNoOrphans(c, space, p, merged, k, m + 1);
    RemainingNames(c, p, merged, k, m);
    RebuiltAllIs(c.directory, files, m);
    RebuiltIsList(c.directory, space, files, list, m + 1);
    LoadAllIsFold(c.directory, space, files, list);
    RemainingFold(c, space, p, merged, k);
    SuffixUnderMerged(p.disk.files, p.tables, k);
  }

  /** No file older than the merged table, listed or not, shows a key that the merged table lacks. */
  ghost predicate NothingRevived(directory: bytes, files: Files, next: nat, merged: Data)
  {
    forall key :: key in Live(FoldBelow(directory, files, next)) ==> key in merged
  }

  lemma RevivalIs(x: Data, all: Data)
    ensures var merged := DropTombstones(all);
            Live(x + merged) == Live(all) <==> forall key :: key in Live(x) ==> key in merged
  {
    var merged := DropTombstones(all);
    DropTombstonesLive(all);
    if forall key :: key in Live(x) ==> key in merged {
      assert forall key :: key in Live(x + merged) ==> key in Live(merged);
      assert Live(x + merged) == Live(merged);
    } else {
      var key :| key in Live(x) && key !in merged;
      assert key in Live(x + merged) && key !in Live(merged);
    }
  }

  lemma DeletingGood(c: Config, space: set<bytes>, p: Process, merged: Data, k: nat)
    requires k <= |p.tables| && AllGood(c.directory, space, p.disk.files)
    requires GoodData(space, merged) && |space| < TWO_64
    ensures AllGood(c.directory, space, Deleting(c, p, merged, k).files)
  {
    NewFileLoads(c, space, p.disk.files, p.next, merged);
    ContentsAfterWrite(c.directory, p.disk.files, p.next, TableBytes(merged));
    NoData(space);
    hide Deleting, Load, ContentsOf, TableBytes, TableName, GoodData, Holding;
    var image := NewFile(c, p.disk.files, p.next, TableBytes(merged));
    forall i: nat
      ensures GoodData(space, ContentsOf(Deleting(c, p, merged, k).files, TableName(c.directory, i)))
    {
      DeletingReads(c, p, merged, k, TableName(c.directory, i));
      SameLoadSameContents(Deleting(c, p, merged, k).files, image, TableName(c.directory, i));
    }
  }

  lemma NothingAbove(c: Config, p: Process, merged: Data, k: nat, i: nat)
    requires k <= |p.tables| && i > p.next && ContentsOf(p.disk.files, TableName(c.directory, i)) == map[]
    ensures ContentsOf(Deleting(c, p, merged, k).files, TableName(c.directory, i)) == map[]
  {
    hide *;
    if ContentsOf(Deleting(c, p, merged, k).files, TableName(c.directory, i)) != map[] {
      DeletingOther(c, p, merged, k, i);
    }
  }

  lemma NewContents(files: Files, name: bytes, d: Data)
    requires Load(files, name) == Loaded(d)
    ensures ContentsOf(files, name) == d
  {
    hide Load;
  }

  lemma DirectoryParts(directory: bytes, space: set<bytes>, files: Files, next: nat)
    requires DirectoryOk(directory, space, files, next)
    ensures AllGood(directory, space, files)
    ensures forall i: nat :: i > next ==> ContentsOf(files, TableName(directory, i)) == map[]
  {
    hide GoodData, ContentsOf, TableName;
  }

  /**
   * The same with any other readable files around, left by earlier crashes: a rebuild at any point of the deletion
   * shows the map if and only if no older file shows a key that the merged table lacks.
   */
  lemma RebuildRevivesExactly(c: Config, space: set<bytes>, p: Process, k: nat, m: nat)
    requires ConfigOk(c, space) && ListOk(c.directory, p.tables, p.next) && p.next <= m && m + 1 < TWO_64
    requires AllOk(c.directory, space, p.disk.files, p.tables) && NamesOk(c.directory, p.disk.files, m)
    requires DirectoryOk(c.directory, space, p.disk.files, p.next) && k <= |p.tables|
    ensures var all := Fold(p.disk.files, p.tables);
            var files := Deleting(c, p, DropTombstones(all), k).files;
            var loaded := LoadAll(files, RebuiltAll(c.directory, files));
            && loaded.Loaded?
            && (Live(loaded.data) == Live(all) <==> NothingRevived(c.directory, files, p.next, DropTombstones(all)))
  {
    hide *;
    ConfigParts(c, space);
    var all := Fold(p.disk.files, p.tables);
    var merged := DropTombstones(all);
    var files := Deleting(c, p, merged, k).files;
    LoadAllIsFold(c.directory, space, p.disk.files, p.tables);
    MergeGood(space, all);
    DirectoryParts(c.directory, space, p.disk.files, p.next);
    DeletingGood(c, space, p, merged, k);
    RemainingNames(c, p, merged, k, m);
    RebuiltAllIs(c.directory, files, m);
    RebuiltOk(c.directory, space, files, m + 1);
    LoadAllIsFold(c.directory, space, files, Rebuilt(c.directory, files, m + 1));
    forall i: nat | p.next + 1 <= i
      ensures ContentsOf(files, TableName(c.directory, i)) == map[]
    {
      NothingAbove(c, p, merged, k, i);
    }
    FoldBelowStable(c.directory, files, p.next + 1, m - p.next);
    FoldBelowStep(c.directory, files, p.next);
    DeletingNew(c, space, p, merged, k);
    NewContents(files, TableName(c.directory, p.next), merged);
    RevivalIs(FoldBelow(c.directory, files, p.next), all);
    NothingRevivedIs(c.directory, files, p.next, merged);
  }

  lemma NothingRevivedIs(directory: bytes, files: Files, next: nat, merged: Data)
    ensures NothingRevived(directory, files, next, merged)
            <==> forall key :: key in Live(FoldBelow(directory, files, next)) ==> key in merged
  {
    hide Live, FoldBelow;
  }

  lemma SomethingLive(all: Data)
    requires Live(all) != map[]
    ensures DropTombstones(all) != map[]
  {
    var k :| k in Live(all);
    assert k in DropTombstones(all);
  }
}
