/** What a GET answers in a running process. */
module LiveReads {
  import opened Bytes
  import opened Text
  import opened Entries
  import opened FileSystem
  import opened SSTable
  import opened TableNames
  import opened Engine
  import opened Invariant
  import opened Frames
  import opened CommandSafety
  import opened LiveState

  /** What a plain map answers. */
  function Answer(a: map<bytes, bytes>, key: bytes): Response
  {
    if key in a then Value(a[key]) else Absent
  }

  lemma {:induction false} StackHead(contents: seq<Data>)
    requires contents != []
    ensures Stack(contents) == contents[0] + Stack(contents[1..])
  {
    hide *;
    StackSplit(contents);
    StackSplit(contents[1..]);
    var init, last := contents[..|contents| - 1], contents[|contents| - 1];
    if |contents| == 1 {
      assert init == [] && contents[1..] == [];
      AddNothing(contents[0], map[]);
    } else {
      StackHead(init);
      assert init[1..] == contents[1..][..|contents[1..]| - 1];
      Associate(contents[0], Stack(init[1..]), last);
    }
  }

  lemma Associate(x: Data, y: Data, z: Data)
    ensures x + y + z == x + (y + z)
  {
  }

  /** A table whose file is there answers as the map it was written from. */
  lemma TableAnswers(c: Config, space: set<bytes>, files: Files, t: Meta, d: Data, key: bytes)
    requires GoodData(space, d) && t == NewMeta(c, t.id, d) && Load(files, t.filename) == Loaded(d)
    ensures Get(files, t, key) == if key in d then Found(d[key]) else Lookup.NotFound
  {
    NewMetaNames(c, t.id, d);
    hide ParseTable, TableName, Get, FitsItem, IsToken, MetaOf;
    GetAgreesWithTable(files, t.id, t.filename, d, key);
  }

  /** A table whose file is gone is still answered for by its metadata where they can. */
  lemma MissingAnswers(files: Files, t: Meta, key: bytes)
    requires t.filename !in files
    ensures Get(files, t, key) == if OutOfRange(t, key) then Lookup.NotFound else ReadFailed
  {
  }

  /** The metadata alone rule the key out. */
  predicate OutOfRange(t: Meta, key: bytes)
  {
    t.entryCount == 0 || Less(key, t.smallest) || Less(t.largest, key)
  }

  lemma OutOfRangeIsOut(c: Config, next: nat, d: Data, key: bytes)
    ensures OutOfRange(NewMeta(c, next, d), key) ==> key !in d
  {
    if key in d {
      RangeCovers(d, key);
    }
    hide SortedItems, TableName, Less;
  }

  lemma GetSnoc(files: Files, tables: seq<Meta>, key: bytes)
    requires tables != []
    ensures GetFromTables(files, tables, key) ==
            match Get(files, tables[|tables| - 1], key)
            case NotFound => GetFromTables(files, tables[..|tables| - 1], key)
            case Found(entry) => Found(entry)
            case ReadFailed => ReadFailed
    ensures GetFromTables(files, [], key) == Lookup.NotFound
  {
    hide Get;
  }

  lemma StackLookup(x: Data, y: Data, key: bytes)
    ensures key in x + y <==> key in x || key in y
    ensures key in x + y ==> (x + y)[key] == if key in y then y[key] else x[key]
  {
  }

  /** Searching newest first and stopping early finds what the newer tables, overlaid, hold, or asks the oldest. */
  lemma {:induction false} SearchIsStack(c: Config, space: set<bytes>, files: Files, tables: seq<Meta>, contents: seq<Data>, key: bytes)
    requires ListBacked(c, space, files, tables, contents) && tables != []
    ensures |contents| == |tables|
    ensures var newer := Stack(contents[1..]);
            GetFromTables(files, tables, key) == if key in newer then Found(newer[key]) else Get(files, tables[0], key)
  {
    hide *;
    BackedSize(c, space, files, tables, contents);
    GetSnoc(files, tables, key);
    var n := |tables| - 1;
    StackSplit(contents[1..]);
    if n == 0 {
      assert contents[1..] == [] && tables[..0] == [];
    } else {
      BackedPrefix(c, space, files, tables, contents, n);
      SearchIsStack(c, space, files, tables[..n], contents[..n], key);
      BackedNames(c, space, files, tables, contents, n);
      TableAnswers(c, space, files, tables[n], contents[n], key);
      assert contents[..n][1..] == contents[1..][..|contents[1..]| - 1];
      StackLookup(Stack(contents[..n][1..]), contents[n], key);
    }
  }

  /** With every file there the search finds exactly what overwriting oldest to newest would leave. */
  lemma SearchIsFold(c: Config, space: set<bytes>, files: Files, tables: seq<Meta>, contents: seq<Data>, key: bytes)
    requires ListBacked(c, space, files, tables, contents) && AllPresent(files, tables)
    ensures LoadAll(files, tables).Loaded?
    ensures var all := LoadAll(files, tables).data;
            GetFromTables(files, tables, key) == if key in all then Found(all[key]) else Lookup.NotFound
  {
    hide *;
    StackLoads(c, space, files, tables, contents);
    BackedSize(c, space, files, tables, contents);
    StackSplit(contents);
    if tables == [] {
      GetNothing(files, key);
    } else {
      SearchIsStack(c, space, files, tables, contents, key);
      SomePresent(files, tables, 0);
      BackedNames(c, space, files, tables, contents, 0);
      TableAnswers(c, space, files, tables[0], contents[0], key);
      StackHead(contents);
      StackLookup(contents[0], Stack(contents[1..]), key);
    }
  }

  lemma GetNothing(files: Files, key: bytes)
    ensures GetFromTables(files, [], key) == Lookup.NotFound
  {
  }

  // ---------------------------------------------------------------------------
  // Every read of every running process
  // ---------------------------------------------------------------------------

  /**
   * The newest word on the key could be in the oldest listed table, and that table's file is gone: the key is in
   * neither the memtable nor a newer table, and the lost table's range does not rule it out.
   */
  predicate Lost(p: Process, key: bytes)
  {
    && key !in p.data
    && p.tables != [] && p.tables[0].filename !in p.disk.files
    && key !in Fold(p.disk.files, p.tables[1..])
    && !OutOfRange(p.tables[0], key)
  }

  lemma ReadSplit(p: Process, key: bytes)
    ensures key in p.data ==> ReadKey(p, key) == if p.data[key].deleted then Absent else Value(p.data[key].value)
    ensures key !in p.data ==>
              ReadKey(p, key) ==
              match GetFromTables(p.disk.files, p.tables, key)
              case NotFound => Absent
              case Found(entry) => if entry.deleted then Absent else Value(entry.value)
              case ReadFailed => Error
  {
    hide GetFromTables;
  }

  lemma ContentsAre(files: Files, tables: seq<Meta>, contents: seq<Data>)
    requires |contents| == |tables|
    requires forall i :: 0 <= i < |tables| ==> contents[i] == ContentsOf(files, tables[i].filename)
    ensures contents == ContentsOfAll(files, tables)
  {
    hide ContentsOf;
  }

  lemma NewerIsFold(c: Config, space: set<bytes>, files: Files, tables: seq<Meta>, contents: seq<Data>)
    requires ListBacked(c, space, files, tables, contents) && tables != []
    ensures |contents| == |tables| && Stack(contents[1..]) == Fold(files, tables[1..])
  {
    hide *;
    BackedSize(c, space, files, tables, contents);
    var newer := tables[1..];
    forall i | 0 <= i < |newer|
      ensures contents[1..][i] == ContentsOf(files, newer[i].filename)
    {
      BackedNames(c, space, files, tables, contents, i + 1);
      LoadedContents(files, tables[i + 1].filename, contents[i + 1]);
    }
    ContentsAre(files, newer, contents[1..]);
    StackIsFold(files, newer);
  }

  lemma LoadedContents(files: Files, name: bytes, d: Data)
    ensures Load(files, name) == Loaded(d) ==> ContentsOf(files, name) == d
  {
    hide Load;
  }

  /** What the search through the tables answers, in the terms of what is lost. */
  lemma SearchAnswers(c: Config, space: set<bytes>, p: Process, contents: seq<Data>, key: bytes)
    requires ListBacked(c, space, p.disk.files, p.tables, contents) && key !in p.data
    ensures var all := Stack(contents);
            GetFromTables(p.disk.files, p.tables, key) ==
            if Lost(p, key) then ReadFailed else if key in all then Found(all[key]) else Lookup.NotFound
  {
    LostIs(p, key);
    hide *;
    BackedSize(c, space, p.disk.files, p.tables, contents);
    StackSplit(contents);
    if p.tables == [] {
      GetNothing(p.disk.files, key);
    } else {
      SearchIsStack(c, space, p.disk.files, p.tables, contents, key);
      NewerIsFold(c, space, p.disk.files, p.tables, contents);
      BackedNames(c, space, p.disk.files, p.tables, contents, 0);
      StackHead(contents);
      StackLookup(contents[0], Stack(contents[1..]), key);
      if p.tables[0].filename in p.disk.files {
        TableAnswers(c, space, p.disk.files, p.tables[0], contents[0], key);
      } else {
        MissingAnswers(p.disk.files, p.tables[0], key);
        OutOfRangeIsOut(c, p.tables[0].id, contents[0], key);
      }
    }
  }

  lemma LostIs(p: Process, key: bytes)
    ensures Lost(p, key) <==>
              && key !in p.data && p.tables != [] && p.tables[0].filename !in p.disk.files
              && key !in Fold(p.disk.files, p.tables[1..]) && !OutOfRange(p.tables[0], key)
  {
    hide Fold, OutOfRange;
  }

  /**
   * Every GET of a running process, by either deletion loop: a read failure if the key's newest word may be in a
   * deleted file, and the plain map's answer otherwise.
   */
  lemma ReadsExactly(c: Config, space: set<bytes>, p: Process, a: map<bytes, bytes>, m: nat, key: bytes)
    requires Serves(c, space, p, a, m)
    ensures ReadKey(p, key) == if Lost(p, key) then Error else Answer(a, key)
  {
    LostIs(p, key);
    hide *;
    var contents := GetContents(c, space, p, a, m);
    LiveParts(c, space, p, contents, a, m);
    var all := Stack(contents);
    ReadSplit(p, key);
    StackLookup(all, p.data, key);
    LiveLookup(all + p.data, a, key);
    if key !in p.data {
      SearchAnswers(c, space, p, contents, key);
    }
  }

  lemma LiveLookup(d: Data, a: map<bytes, bytes>, key: bytes)
    requires Live(d) == a
    ensures Answer(a, key) == if key in d && !d[key].deleted then Value(d[key].value) else Absent
  {
  }

  /** Memtable first, then tables: the answer is the plain map's, as long as every listed table is there. */
  lemma ReadsAgree(c: Config, space: set<bytes>, p: Process, a: map<bytes, bytes>, m: nat, key: bytes)
    requires Serves(c, space, p, a, m) && AllPresent(p.disk.files, p.tables)
    ensures ReadKey(p, key) == Answer(a, key)
  {
    LostIs(p, key);
    hide *;
    ReadsExactly(c, space, p, a, m, key);
    SomePresent(p.disk.files, p.tables, 0);
  }

  /** The intended loop never deletes a listed file. */
  lemma IntendedIsPresent(c: Config, space: set<bytes>, p: Process, a: map<bytes, bytes>, m: nat)
    requires Serves(c, space, p, a, m) && c.deletion.AsIntended?
    ensures AllPresent(p.disk.files, p.tables)
  {
    hide LiveOk, Load, GoodData, Backs, Live, Stack, ManifestIs;
    var contents := GetContents(c, space, p, a, m);
    LiveParts(c, space, p, contents, a, m);
    forall i | 0 <= i < |p.tables|
      ensures p.tables[i].filename in p.disk.files
    {
      BackedNames(c, space, p.disk.files, p.tables, contents, i);
    }
  }

  // ---------------------------------------------------------------------------
  // The deletion loop as written
  // ---------------------------------------------------------------------------

  /**
   * Right after a compaction by the loop as written a GET is answered as the plain map would answer if and only
   * if the merged table's metadata rule its key out; live keys report a read failure.
   */
  lemma ReadsAfterCompactAsWritten(c: Config, space: set<bytes>, p: Process, a: map<bytes, bytes>, m: nat, key: bytes)
    requires ConfigOk(c, space) && Serves(c, space, p, a, m) && m + 1 < TWO_64 && c.deletion.AsWritten?
    requires p.data == map[] && |p.tables| >= 2 && AllPresent(p.disk.files, p.tables)
    ensures var q := Compact(c, p).process;
            && |q.tables| == 1
            && (ReadKey(q, key) == Answer(a, key) <==> OutOfRange(q.tables[0], key))
            && (key in a ==> ReadKey(q, key) == Error)
  {
    hide *;
    var contents := GetContents(c, space, p, a, m);
    LiveCompact(c, space, p, contents, a, m);
    var q, merged := Compact(c, p).process, DropTombstones(Stack(contents));
    MakeServes(c, space, q, [merged], a, m + 1);
    ReadsExactly(c, space, q, a, m + 1, key);
    LostIs(q, key);
    assert q.tables[1..] == [];
    FoldNothing(q.disk.files);
    AnswerIsNoError(a, key);
    if key in a {
      LiveParts(c, space, q, [merged], a, m + 1);
      StackOne(merged);
      AddNothing(merged, q.data);
      LiveKeys(merged, a);
      OutOfRangeIsOut(c, p.next, merged, key);
    }
  }

  lemma FoldNothing(files: Files)
    ensures Fold(files, []) == map[]
  {
  }

  lemma LiveKeys(d: Data, a: map<bytes, bytes>)
    requires Live(d) == a
    ensures forall k :: k in a ==> k in d
  {
  }

  lemma AnswerIsNoError(a: map<bytes, bytes>, key: bytes)
    ensures Answer(a, key) != Error
  {
  }
}
