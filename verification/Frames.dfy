/** How writing, publishing and removing one table file changes what the tables show. */
module Frames {
  import opened Bytes
  import opened Text
  import opened Entries
  import opened FileSystem
  import opened SSTable
  import opened ManifestText
  import opened TableNames
  import opened Engine
  import opened Invariant

  // ---------------------------------------------------------------------------
  // Folds
  // ---------------------------------------------------------------------------

  lemma {:induction false} FoldFrame(files: Files, files': Files, tables: seq<Meta>)
    requires forall i :: 0 <= i < |tables| ==> ContentsOf(files', tables[i].filename) == ContentsOf(files, tables[i].filename)
    ensures Fold(files', tables) == Fold(files, tables)
  {
    if tables != [] {
      FoldFrame(files, files', tables[..|tables| - 1]);
    }
  }

  lemma FoldSnoc(files: Files, tables: seq<Meta>, t: Meta)
    ensures Fold(files, tables + [t]) == Fold(files, tables) + ContentsOf(files, t.filename)
  {
    assert (tables + [t])[..|tables + [t]| - 1] == tables;
  }

  lemma {:induction false} FoldBelowFrame(directory: bytes, files: Files, files': Files, n: nat)
    requires forall i: nat :: i < n ==> ContentsOf(files', TableName(directory, i)) == ContentsOf(files, TableName(directory, i))
    ensures FoldBelow(directory, files', n) == FoldBelow(directory, files, n)
  {
    if n > 0 {
      FoldBelowFrame(directory, files, files', n - 1);
    }
  }

  lemma FoldBelowStep(directory: bytes, files: Files, n: nat)
    ensures FoldBelow(directory, files, n + 1) == FoldBelow(directory, files, n) + ContentsOf(files, TableName(directory, n))
  {
  }

  lemma AddNothing(d: Data, e: Data)
    requires e == map[]
    ensures d + e == d && e + d == d
  {
  }

  /** A start that finds every table readable loads their fold. */
  lemma {:induction false} LoadAllIsFold(directory: bytes, space: set<bytes>, files: Files, tables: seq<Meta>)
    requires AllOk(directory, space, files, tables)
    ensures LoadAll(files, tables) == Loaded(Fold(files, tables))
    ensures AllPresent(files, tables) && GoodData(space, Fold(files, tables))
  {
    hide ParseTable, MetaOf, TableName, FitsItem, IsToken;
    if tables != [] {
      var init, last := tables[..|tables| - 1], tables[|tables| - 1];
      assert forall i :: 0 <= i < |init| ==> init[i] == tables[i];
      LoadAllIsFold(directory, space, files, init);
      assert TableOk(directory, space, files, last);
    }
  }

  /** One missing file and the whole load fails. */
  lemma {:induction false} MissingFailsLoad(files: Files, tables: seq<Meta>)
    requires !AllPresent(files, tables)
    ensures LoadAll(files, tables).Rejected?
  {
    hide ParseTable;
    var init, last := tables[..|tables| - 1], tables[|tables| - 1];
    if last.filename in files {
      var i :| 0 <= i < |tables| && tables[i].filename !in files;
      assert init[i] == tables[i];
      MissingFailsLoad(files, init);
    }
  }

  // ---------------------------------------------------------------------------
  // Writing the file of the next id
  // ---------------------------------------------------------------------------

  /** The map a file with these bytes holds. */
  function Holding(s: bytes): Data
  {
    match ParseTable(s) case Rejected => map[] case Loaded(d) => d
  }

  lemma ContentsAfterWrite(directory: bytes, files: Files, id: nat, s: bytes)
    ensures var files' := files[TableName(directory, id) := s];
            && ContentsOf(files', TableName(directory, id)) == Holding(s)
            && forall i: nat :: i != id ==> ContentsOf(files', TableName(directory, i)) == ContentsOf(files, TableName(directory, i))
  {
    hide ParseTable, TableName;
    var files' := files[TableName(directory, id) := s];
    forall i: nat | i != id
      ensures ContentsOf(files', TableName(directory, i)) == ContentsOf(files, TableName(directory, i))
    {
      if TableName(directory, i) == TableName(directory, id) {
        TableNameInjective(directory, i, id);
      }
    }
  }

  /** Listed tables have smaller ids, so their files are not the one written. */
  lemma ListedUnaffected(directory: bytes, files: Files, tables: seq<Meta>, next: nat, s: bytes)
    requires ListOk(directory, tables, next)
    ensures var files' := files[TableName(directory, next) := s];
            forall i :: 0 <= i < |tables| ==>
              && tables[i].filename != TableName(directory, next)
              && Load(files', tables[i].filename) == Load(files, tables[i].filename)
  {
    hide ParseTable, TableName, Printable;
    forall i | 0 <= i < |tables|
      ensures tables[i].filename != TableName(directory, next)
    {
      if TableName(directory, tables[i].id) == TableName(directory, next) {
        TableNameInjective(directory, tables[i].id, next);
      }
    }
  }

  lemma AllOkFrame(directory: bytes, space: set<bytes>, files: Files, files': Files, tables: seq<Meta>)
    requires AllOk(directory, space, files, tables)
    requires forall i :: 0 <= i < |tables| ==> Load(files', tables[i].filename) == Load(files, tables[i].filename)
    ensures AllOk(directory, space, files', tables)
  {
    hide GoodData, MetaOf, TableName, Load;
    forall i | 0 <= i < |tables|
      ensures TableOk(directory, space, files', tables[i])
    {
      assert TableOk(directory, space, files, tables[i]);
    }
  }

  lemma FoldAfterWrite(directory: bytes, files: Files, tables: seq<Meta>, next: nat, s: bytes)
    requires ListOk(directory, tables, next)
    ensures var files' := files[TableName(directory, next) := s];
            Fold(files', tables) == Fold(files, tables) && (AllPresent(files', tables) <==> AllPresent(files, tables))
  {
    ListedUnaffected(directory, files, tables, next, s);
    hide ParseTable, TableName, Printable, ListOk, Fold;
    FoldFrame(files, files[TableName(directory, next) := s], tables);
  }

  lemma DirectoryAfterWrite(directory: bytes, space: set<bytes>, files: Files, next: nat, s: bytes)
    requires DirectoryOk(directory, space, files, next) && GoodData(space, Holding(s))
    ensures DirectoryOk(directory, space, files[TableName(directory, next) := s], next)
  {
    ContentsAfterWrite(directory, files, next, s);
    hide TableName, ContentsOf, Holding, GoodData;
  }

  lemma ListAfterWrite(directory: bytes, space: set<bytes>, files: Files, next: nat, tables: seq<Meta>, s: bytes)
    requires ListOk(directory, tables, next) && AllOk(directory, space, files, tables)
    ensures AllOk(directory, space, files[TableName(directory, next) := s], tables)
  {
    ListedUnaffected(directory, files, tables, next, s);
    hide *;
    AllOkFrame(directory, space, files, files[TableName(directory, next) := s], tables);
  }

  lemma WriteKeepsStructure(c: Config, space: set<bytes>, files: Files, next: nat, tables: seq<Meta>, s: bytes)
    requires ListOk(c.directory, tables, next) && Structure(c, space, files, next, tables)
    requires GoodData(space, Holding(s))
    ensures Structure(c, space, files[TableName(c.directory, next) := s], next, tables)
  {
    hide ListOk, AllOk, AllPresent, DirectoryOk, GoodData, Holding, TableName, Fold;
    if c.deletion.AsWritten? {
      DirectoryAfterWrite(c.directory, space, files, next, s);
    }
    FoldAfterWrite(c.directory, files, tables, next, s);
    if AllOk(c.directory, space, files, tables) {
      ListAfterWrite(c.directory, space, files, next, tables, s);
    }
  }

  lemma NamesAfterWrite(directory: bytes, files: Files, id: nat, s: bytes, m: nat, n: nat)
    requires NamesOk(directory, files, m) && id <= n && m <= n
    ensures NamesOk(directory, files[TableName(directory, id) := s], n)
  {
    hide TableName;
  }

  /** A file being written at the next id, torn or whole, hides nothing below r. */
  lemma WriteKeepsShowing(c: Config, files: Files, next: nat, tables: seq<Meta>, s: bytes, r: Data, a: map<bytes, bytes>)
    requires ListOk(c.directory, tables, next) && Shows(c, files, next, tables, r, a)
    requires c.deletion.AsWritten? ==> Live(FoldBelow(c.directory, files, next) + Holding(s) + r) == a
    ensures Shows(c, files[TableName(c.directory, next) := s], next, tables, r, a)
  {
    var files' := files[TableName(c.directory, next) := s];
    FoldAfterWrite(c.directory, files, tables, next, s);
    ContentsAfterWrite(c.directory, files, next, s);
    FoldBelowFrame(c.directory, files, files', next);
    FoldBelowStep(c.directory, files', next);
    hide ParseTable, TableName, ListOk, ContentsOf, Holding, Fold, FoldBelow, Live, AllPresent;
  }

  // ---------------------------------------------------------------------------
  // Publishing it
  // ---------------------------------------------------------------------------

  lemma PublishedList(directory: bytes, space: set<bytes>, tables: seq<Meta>, next: nat, d: Data)
    requires ListOk(directory, tables, next) && next + 1 < TWO_64
    requires GoodData(space, d) && d != map[] && |space| < TWO_64 && AllIn(Visible, directory)
    ensures ListOk(directory, tables + [MetaOf(next, TableName(directory, next), d)], next + 1)
  {
    hide TableName, Printable, MetaOf, GoodData, AllIn;
    MetaIsPrintable(directory, space, next, d);
    MetaNames(next, TableName(directory, next), d);
    ListSnoc(directory, tables, next, MetaOf(next, TableName(directory, next), d));
  }

  lemma ListSnoc(directory: bytes, tables: seq<Meta>, next: nat, t: Meta)
    requires ListOk(directory, tables, next)
    requires t.id == next && Printable(t) && t.filename == TableName(directory, next)
    ensures ListOk(directory, tables + [t], next + 1)
  {
    hide TableName, Printable;
  }

  lemma PublishKeepsStructure(c: Config, space: set<bytes>, files: Files, next: nat, tables: seq<Meta>, d: Data)
    requires Structure(c, space, files, next, tables)
    requires Load(files, TableName(c.directory, next)) == Loaded(d) && d != map[] && GoodData(space, d)
    ensures Structure(c, space, files, next + 1, tables + [MetaOf(next, TableName(c.directory, next), d)])
  {
    var t := MetaOf(next, TableName(c.directory, next), d);
    MetaNames(next, TableName(c.directory, next), d);
    hide TableName, MetaOf, GoodData, Load;
    var more := tables + [t];
    assert TableOk(c.directory, space, files, t);
    if AllOk(c.directory, space, files, tables) {
      assert AllOk(c.directory, space, files, more);
    } else {
      var i :| 0 <= i < |tables| && tables[i].filename !in files;
      assert more[i] == tables[i];
    }
  }

  lemma PublishShows(c: Config, space: set<bytes>, files: Files, next: nat, tables: seq<Meta>, t: Meta, r: Data, a: map<bytes, bytes>)
    requires t.filename == TableName(c.directory, next)
    requires AllPresent(files, tables) ==> Live(Fold(files, tables) + ContentsOf(files, t.filename) + r) == a
    requires c.deletion.AsWritten? ==> DirectoryOk(c.directory, space, files, next)
    requires c.deletion.AsWritten? ==> Live(FoldBelow(c.directory, files, next) + ContentsOf(files, t.filename) + r) == a
    ensures Shows(c, files, next + 1, tables + [t], r, a)
  {
    hide TableName, Load, Live;
    FoldSnoc(files, tables, t);
    FoldBelowStep(c.directory, files, next);
    FoldBelowStep(c.directory, files, next + 1);
    var more := tables + [t];
    if AllPresent(files, more) {
      assert forall i :: 0 <= i < |tables| ==> more[i] == tables[i];
    }
    if c.deletion.AsWritten? {
      AddNothing(FoldBelow(c.directory, files, next + 1), ContentsOf(files, TableName(c.directory, next + 1)));
    }
  }
}
