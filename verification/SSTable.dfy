/** sstable.cpp: the immutable table format, its reader, and the point lookup. */
module SSTable {
  import opened Bytes
  import opened Sequences
  import opened Entries
  import opened Crc32
  import opened Serialization
  import opened FileSystem
  import Recovery

  const MAGIC: nat := 0x46444231
  const VERSION: nat := 2

  datatype Item = Item(key: bytes, entry: Entry)

  datatype Meta = Meta(id: nat, filename: bytes, smallest: bytes, largest: bytes, entryCount: nat)

  // ---------------------------------------------------------------------------
  // The sorted enumeration of a map
  // ---------------------------------------------------------------------------

  ghost predicate IsMax(k: bytes, keys: set<bytes>)
  {
    k in keys && forall j :: j in keys && j != k ==> Less(j, k)
  }

  lemma {:induction false} MaxExists(keys: set<bytes>)
    requires keys != {}
    ensures exists k :: IsMax(k, keys)
    decreases |keys|
  {
    var k :| k in keys;
    var rest := keys - {k};
    if rest == {} {
      assert keys == {k};
      assert IsMax(k, keys);
    } else {
      MaxExists(rest);
      var m :| IsMax(m, rest);
      LessTrichotomy(k, m);
      if Less(m, k) {
        forall j | j in keys && j != k
          ensures Less(j, k)
        {
          if j != m { LessTransitive(j, m, k); }
        }
        assert IsMax(k, keys);
      } else {
        assert IsMax(m, keys);
      }
    }
  }

  ghost function MaxKey(keys: set<bytes>): (k: bytes)
    requires keys != {}
    ensures IsMax(k, keys)
  {
    MaxExists(keys);
    var k :| IsMax(k, keys);
    k
  }

  /** The entries of m in increasing key order: what std::sort leaves in the vector. */
  ghost function SortedItems(m: Data): (items: seq<Item>)
    ensures |items| == |m|
    decreases |m|
  {
    if m == map[] then []
    else
      var k := MaxKey(m.Keys);
      assert (m - {k}).Keys == m.Keys - {k};
      SortedItems(m - {k}) + [Item(k, m[k])]
  }

  predicate Increasing(items: seq<Item>)
  {
    forall i, j :: 0 <= i < j < |items| ==> Less(items[i].key, items[j].key)
  }

  /** The vector holds exactly the entries of the map. */
  ghost predicate Holds(items: seq<Item>, m: Data)
  {
    forall x: Item :: x in items <==> x.key in m && m[x.key] == x.entry
  }

  lemma {:induction false} SortedItemsHold(m: Data)
    ensures Increasing(SortedItems(m)) && Holds(SortedItems(m), m)
    decreases |m|
  {
    if m != map[] {
      var k := MaxKey(m.Keys);
      assert (m - {k}).Keys == m.Keys - {k};
      SortedItemsHold(m - {k});
      var init := SortedItems(m - {k});
      forall i | 0 <= i < |init|
        ensures Less(init[i].key, k)
      {
        assert init[i] in init;
      }
    }
  }

  lemma LastIsMax(items: seq<Item>, m: Data)
    requires Increasing(items) && Holds(items, m) && items != []
    ensures m != map[] && items[|items| - 1] == Item(MaxKey(m.Keys), m[MaxKey(m.Keys)])
  {
    var last := items[|items| - 1];
    assert last in items;
    var k := MaxKey(m.Keys);
    assert Item(k, m[k]) in items;
    var i :| 0 <= i < |items| && items[i] == Item(k, m[k]);
    if i < |items| - 1 {
      LessTrichotomy(k, last.key);
    }
  }

  lemma InitHolds(items: seq<Item>, m: Data)
    requires Increasing(items) && Holds(items, m) && items != []
    ensures Holds(items[..|items| - 1], m - {items[|items| - 1].key})
  {
    var n := |items| - 1;
    var init, k := items[..n], items[n].key;
    forall x: Item | x in init
      ensures x.key in m - {k} && m[x.key] == x.entry
    {
      var i :| 0 <= i < n && init[i] == x;
      assert items[i] in items;
      LessTrichotomy(x.key, k);
    }
    forall x: Item | x.key in m - {k} && m[x.key] == x.entry
      ensures x in init
    {
      assert x in items;
      var i :| 0 <= i < |items| && items[i] == x;
      assert init[i] == x;
    }
  }

  lemma InitIncreasing(items: seq<Item>)
    requires Increasing(items) && items != []
    ensures Increasing(items[..|items| - 1])
  {
  }

  /** Whatever the sort does, the increasing vector of a map's entries is this one. */
  lemma {:induction false} SortedItemsUnique(items: seq<Item>, m: Data)
    requires Increasing(items) && Holds(items, m)
    ensures items == SortedItems(m)
  {
    hide *;
    if items == [] {
      NothingHeld(m);
    } else {
      LastIsMax(items, m);
      var init, k := items[..|items| - 1], MaxKey(m.Keys);
      InitHolds(items, m);
      InitIncreasing(items);
      SortedItemsUnique(init, m - {k});
      SortedItemsSplit(m);
      assert items == init + [items[|items| - 1]];
    }
  }

  lemma NothingHeld(m: Data)
    requires Holds([], m)
    ensures m == map[] && SortedItems(m) == []
  {
    assert forall k :: k in m ==> Item(k, m[k]) in [];
    assert m == map[];
  }

  lemma SortedItemsSplit(m: Data)
    requires m != map[]
    ensures SortedItems(m) == SortedItems(m - {MaxKey(m.Keys)}) + [Item(MaxKey(m.Keys), m[MaxKey(m.Keys)])]
  {
    hide IsMax;
  }

  // ---------------------------------------------------------------------------
  // Entry format
  // ---------------------------------------------------------------------------

  function ItemBytes(x: Item): (s: bytes)
    ensures |s| >= 9
  {
    Sized(x.key) + [if x.entry.deleted then 1 else 0] + Sized(x.entry.value)
  }

  function ItemsBytes(items: seq<Item>): bytes
  {
    if items == [] then [] else ItemsBytes(items[..|items| - 1]) + ItemBytes(items[|items| - 1])
  }

  function Overlay(data: Data, items: seq<Item>): Data
  {
    if items == [] then data
    else Overlay(data, items[..|items| - 1])[items[|items| - 1].key := items[|items| - 1].entry]
  }

  datatype ItemResult = NoItem | GotItem(item: Item, rest: bytes)

  /** One entry from the front; the deleted byte counts as set when it is not zero. */
  function TakeItem(s: bytes): (r: ItemResult)
    ensures r.GotItem? ==> |r.rest| < |s|
  {
    match TakeSized(s, TWO_32)
    case NoString => NoItem
    case GotString(key, afterKey) =>
      if afterKey == [] then NoItem
      else match TakeSized(afterKey[1..], TWO_32)
           case NoString => NoItem
           case GotString(value, rest) => GotItem(Item(key, Entry(value, afterKey[0] != 0)), rest)
  }

  datatype ItemsResult = NoItems | GotItems(data: Data, rest: bytes)

  function TakeItems(s: bytes, count: nat, data: Data): ItemsResult
    decreases count
  {
    if count == 0 then GotItems(data, s)
    else match TakeItem(s)
         case NoItem => NoItems
         case GotItem(x, rest) => TakeItems(rest, count - 1, data[x.key := x.entry])
  }

  /** Sizes that fit the format's 32-bit and 64-bit fields. */
  predicate FitsItem(x: Item)
  {
    |x.key| < TWO_32 && |x.entry.value| < TWO_32
  }

  predicate AllFit(items: seq<Item>)
  {
    forall i :: 0 <= i < |items| ==> FitsItem(items[i])
  }

  ghost predicate Fits(m: Data)
  {
    forall k :: k in m ==> FitsItem(Item(k, m[k]))
  }

  ghost predicate FitsFormat(m: Data)
  {
    |m| < TWO_64 && Fits(m)
  }

  lemma TakeItemOfItemBytes(x: Item, rest: bytes)
    requires FitsItem(x)
    ensures TakeItem(ItemBytes(x) + rest) == GotItem(x, rest)
  {
    hide Sized, TakeSized;
    var flag := [if x.entry.deleted then 1 else 0];
    var tail := flag + (Sized(x.entry.value) + rest);
    assert ItemBytes(x) + rest == Sized(x.key) + tail;
    TakeSizedOfSized(x.key, tail, TWO_32);
    TakeSizedOfSized(x.entry.value, rest, TWO_32);
    assert tail[1..] == Sized(x.entry.value) + rest;
  }

  lemma TakeItemsStep(s: bytes, count: nat, data: Data, x: Item, rest: bytes)
    requires TakeItem(s) == GotItem(x, rest)
    ensures TakeItems(s, count + 1, data) == TakeItems(rest, count, data[x.key := x.entry])
  {
    hide TakeItem;
  }

  /** The reader consumes written entries one by one and lays them over what it has. */
  lemma {:induction false} TakeWritten(items: seq<Item>, rest: bytes, more: nat, data: Data)
    requires AllFit(items)
    ensures TakeItems(ItemsBytes(items) + rest, |items| + more, data) == TakeItems(rest, more, Overlay(data, items))
  {
    hide *;
    if items == [] {
      NoItemsTaken(rest, more, data);
    } else {
      var init, last := items[..|items| - 1], items[|items| - 1];
      FitParts(items);
      ItemsBytesSplit(items, rest);
      TakeWritten(init, ItemBytes(last) + rest, more + 1, data);
      TakeItemOfItemBytes(last, rest);
      TakeItemsStep(ItemBytes(last) + rest, more, Overlay(data, init), last, rest);
      OverlaySplit(data, items);
    }
  }

  lemma NoItemsTaken(rest: bytes, more: nat, data: Data)
    ensures ItemsBytes([]) + rest == rest && Overlay(data, []) == data
  {
  }

  lemma FitParts(items: seq<Item>)
    requires AllFit(items) && items != []
    ensures AllFit(items[..|items| - 1]) && FitsItem(items[|items| - 1])
  {
    hide FitsItem;
  }

  lemma OverlaySplit(data: Data, items: seq<Item>)
    requires items != []
    ensures Overlay(data, items) == Overlay(data, items[..|items| - 1])[items[|items| - 1].key := items[|items| - 1].entry]
  {
  }

  lemma ItemsBytesSplit(items: seq<Item>, rest: bytes)
    requires items != []
    ensures ItemsBytes(items) + rest
         == ItemsBytes(items[..|items| - 1]) + (ItemBytes(items[|items| - 1]) + rest)
  {
    hide ItemBytes;
  }

  lemma {:induction false} OverlaySorted(m: Data)
    ensures Overlay(map[], SortedItems(m)) == m
    decreases |m|
  {
    hide *;
    if m == map[] {
      NothingSorted();
    } else {
      SortedItemsSplit(m);
      MaxIsKey(m);
      var k := MaxKey(m.Keys);
      assert (m - {k}).Keys == m.Keys - {k};
      OverlaySorted(m - {k});
      var init := SortedItems(m - {k});
      OverlaySplit(map[], init + [Item(k, m[k])]);
      assert (init + [Item(k, m[k])])[..|init|] == init;
      assert (m - {k})[k := m[k]] == m;
    }
  }

  lemma NothingSorted()
    ensures SortedItems(map[]) == [] && Overlay(map[], []) == map[]
  {
  }

  lemma MaxIsKey(m: Data)
    requires m != map[]
    ensures MaxKey(m.Keys) in m
  {
  }

  /** Bytes after the entries are left over untouched. */
  lemma {:induction false} TakeItemExtend(s: bytes, extra: bytes)
    requires TakeItem(s).GotItem?
    ensures TakeItem(s + extra) == GotItem(TakeItem(s).item, TakeItem(s).rest + extra)
  {
    hide TakeSized;
    TakeSizedExtend(s, extra);
    var GotString(key, afterKey) := TakeSized(s, TWO_32);
    TakeSizedExtend(afterKey[1..], extra);
    assert (afterKey + extra)[1..] == afterKey[1..] + extra;
  }

  lemma TakeSizedExtend(s: bytes, extra: bytes)
    requires TakeSized(s, TWO_32).GotString?
    ensures TakeSized(s + extra, TWO_32) == GotString(TakeSized(s, TWO_32).text, TakeSized(s, TWO_32).rest + extra)
  {
    assert (s + extra)[..4] == s[..4];
    var n := U32(s);
    assert (s + extra)[4..][..n] == s[4..][..n];
    assert (s + extra)[4..][n..] == s[4..][n..] + extra;
  }

  lemma {:induction false} TakeItemsExtend(s: bytes, extra: bytes, count: nat, data: Data)
    requires TakeItems(s, count, data).GotItems?
    ensures TakeItems(s + extra, count, data)
         == GotItems(TakeItems(s, count, data).data, TakeItems(s, count, data).rest + extra)
    decreases count
  {
    hide *;
    TakeItemsCases(s, count, data);
    TakeItemsCases(s + extra, count, data);
    if count > 0 {
      var GotItem(x, rest) := TakeItem(s);
      TakeItemExtend(s, extra);
      TakeItemsExtend(rest, extra, count - 1, data[x.key := x.entry]);
    }
  }

  /** What the reader accepts always fits the format, so a map that does not fit is never read back. */
  lemma {:induction false} TakenFits(s: bytes, count: nat, data: Data)
    requires TakeItems(s, count, data).GotItems? && Fits(data)
    ensures var d := TakeItems(s, count, data).data; |d| <= |data| + count && Fits(d)
    decreases count
  {
    hide *;
    TakeItemsCases(s, count, data);
    if count > 0 {
      var GotItem(x, rest) := TakeItem(s);
      TakenItemFits(s);
      var next := data[x.key := x.entry];
      FitsMore(data, x);
      UpdateSize(data, x);
      TakenFits(rest, count - 1, next);
    }
  }

  lemma UpdateSize(data: Data, x: Item)
    ensures |data[x.key := x.entry]| <= |data| + 1
  {
    var next := data[x.key := x.entry];
    assert next.Keys == data.Keys + {x.key};
    assert |next.Keys| <= |data.Keys| + 1;
  }

  lemma FitsMore(data: Data, x: Item)
    requires Fits(data) && FitsItem(x)
    ensures Fits(data[x.key := x.entry])
  {
    hide FitsItem;
  }

  lemma TakeItemsCases(s: bytes, count: nat, data: Data)
    ensures count == 0 ==> TakeItems(s, count, data) == GotItems(data, s)
    ensures count > 0 && TakeItem(s).NoItem? ==> TakeItems(s, count, data) == NoItems
    ensures count > 0 && TakeItem(s).GotItem?
            ==> TakeItems(s, count, data) == TakeItems(TakeItem(s).rest, count - 1, data[TakeItem(s).item.key := TakeItem(s).item.entry])
  {
    hide TakeItem;
  }

  lemma TakenItemFits(s: bytes)
    requires TakeItem(s).GotItem?
    ensures FitsItem(TakeItem(s).item)
  {
    Le32OfU32(s);
    var GotString(key, afterKey) := TakeSized(s, TWO_32);
    Le32OfU32(afterKey[1..]);
  }

  /** One payload is accepted with at most one entry count. */
  lemma {:induction false} CountIsDetermined(s: bytes, c1: nat, c2: nat, d1: Data, d2: Data)
    requires TakeItems(s, c1, d1).GotItems? && TakeItems(s, c1, d1).rest == []
    requires TakeItems(s, c2, d2).GotItems? && TakeItems(s, c2, d2).rest == []
    ensures c1 == c2
    decreases c1
  {
    hide *;
    TakeItemsCases(s, c1, d1);
    TakeItemsCases(s, c2, d2);
    NothingFromNothing();
    if c1 > 0 && c2 > 0 {
      var GotItem(x, rest) := TakeItem(s);
      CountIsDetermined(rest, c1 - 1, c2 - 1, d1[x.key := x.entry], d2[x.key := x.entry]);
    }
  }

  lemma NothingFromNothing()
    ensures TakeItem([]) == NoItem
  {
  }

  // ---------------------------------------------------------------------------
  // Table files
  // ---------------------------------------------------------------------------

  function Header(count: nat): (s: bytes)
    ensures |s| == 16
  {
    Le32(MAGIC) + Le32(VERSION) + Le64(count)
  }

  function TableFile(count: nat, payload: bytes, checksum: nat): bytes
  {
    Header(count) + payload + Le32(checksum)
  }

  ghost function TablePayload(m: Data): bytes
  {
    ItemsBytes(SortedItems(m))
  }

  /** The bytes SSTable::write puts into a file for the map m. */
  ghost function TableBytes(m: Data): bytes
  {
    TableFile(|m|, TablePayload(m), Checksum(TablePayload(m)))
  }

  datatype TableResult = Rejected | Loaded(data: Data)

  function ParseTable(contents: bytes): TableResult
  {
    if |contents| < 20 || U32(contents) != MAGIC || U32(contents[4..]) != VERSION then Rejected
    else
      var end := |contents| - 4;
      var payload := contents[16..end];
      if U32(contents[end..]) != Checksum(payload) then Rejected
      else match TakeItems(payload, U64(contents[8..]), map[])
           case NoItems => Rejected
           case GotItems(data, rest) => if rest == [] then Loaded(data) else Rejected
  }

  lemma ReadHeader(count: nat, rest: bytes)
    ensures U32(Header(count) + rest) == MAGIC
    ensures U32((Header(count) + rest)[4..]) == VERSION
    ensures U64((Header(count) + rest)[8..]) == count % TWO_64
    ensures (Header(count) + rest)[16..] == rest
  {
    hide Le32, Le64, U32, U64;
    var h := Header(count) + rest;
    var afterMagic := Le32(VERSION) + (Le64(count) + rest);
    assert h == Le32(MAGIC) + afterMagic;
    U32OfLe32(MAGIC, afterMagic);
    U32OfLe32(VERSION, Le64(count) + rest);
    U64OfLe64(count, rest);
    assert h[4..] == afterMagic && h[8..] == Le64(count) + rest;
  }

  lemma ParseTableFile(count: nat, payload: bytes, checksum: nat)
    requires checksum < TWO_32
    ensures ParseTable(TableFile(count, payload, checksum)) ==
            if checksum != Checksum(payload) then Rejected
            else match TakeItems(payload, count % TWO_64, map[])
                 case NoItems => Rejected
                 case GotItems(data, rest) => if rest == [] then Loaded(data) else Rejected
  {
    hide Checksum, TakeItems, U32, U64, Le32, Header;
    var file := TableFile(count, payload, checksum);
    assert file == Header(count) + (payload + Le32(checksum));
    ReadHeader(count, payload + Le32(checksum));
    FilePieces(count, payload, checksum);
  }

  lemma FilePieces(count: nat, payload: bytes, checksum: nat)
    requires checksum < TWO_32
    ensures var file := TableFile(count, payload, checksum);
            && |file| == |payload| + 20
            && file[16..|file| - 4] == payload
            && U32(file[|file| - 4..]) == checksum
  {
    hide U32, Le32, Header;
    var file := TableFile(count, payload, checksum);
    assert file[|file| - 4..] == Le32(checksum) + [];
    U32OfLe32(checksum, []);
  }

  lemma SortedItemsFit(m: Data)
    requires Fits(m)
    ensures AllFit(SortedItems(m))
  {
    SortedItemsHold(m);
    var items := SortedItems(m);
    forall i | 0 <= i < |items|
      ensures FitsItem(items[i])
    {
      assert items[i] in items;
    }
  }

  lemma TakeAllWritten(m: Data)
    requires FitsFormat(m)
    ensures TakeItems(TablePayload(m), |m|, map[]) == GotItems(m, [])
  {
    SortedItemsFit(m);
    hide *;
    var items := SortedItems(m);
    TakeWritten(items, [], 0, map[]);
    OverlaySorted(m);
    assert ItemsBytes(items) + [] == ItemsBytes(items);
    TakeNone(m);
    PayloadIs(m);
  }

  lemma PayloadIs(m: Data)
    ensures TablePayload(m) == ItemsBytes(SortedItems(m))
  {
    hide SortedItems, ItemsBytes;
  }

  lemma TakeNone(m: Data)
    ensures TakeItems([], 0, m) == GotItems(m, [])
  {
  }

  /** Loading a written table gives the map back, for exactly the maps that fit the format's fields. */
  lemma ParseOfTableBytes(m: Data)
    ensures ParseTable(TableBytes(m)) == Loaded(m) <==> FitsFormat(m)
  {
    hide *;
    if FitsFormat(m) {
      WrittenTableParses(m);
    } else if ParseTable(TableBytes(m)) == Loaded(m) {
      ParsedTableFits(m);
    }
  }

  lemma WrittenTableParses(m: Data)
    requires FitsFormat(m)
    ensures ParseTable(TableBytes(m)) == Loaded(m)
  {
    hide Checksum, TakeItems, ParseTable, TableFile, TablePayload, Fits;
    ParseTableFile(|m|, TablePayload(m), Checksum(TablePayload(m)));
    TakeAllWritten(m);
  }

  lemma ParsedTableFits(m: Data)
    requires ParseTable(TableBytes(m)) == Loaded(m)
    ensures FitsFormat(m)
  {
    NothingFits();
    hide Checksum, TakeItems, ParseTable, TableFile, TablePayload, Fits;
    ParseTableFile(|m|, TablePayload(m), Checksum(TablePayload(m)));
    TakenFits(TablePayload(m), |m| % TWO_64, map[]);
  }

  lemma NothingFits()
    ensures Fits(map[])
  {
  }

  // ---------------------------------------------------------------------------
  // Table files are self-delimiting and damage is noticed
  // ---------------------------------------------------------------------------

  lemma ParseParts(c: bytes)
    requires ParseTable(c).Loaded?
    ensures |c| >= 20
    ensures TakeItems(c[16..|c| - 4], U64(c[8..]), map[]) == GotItems(ParseTable(c).data, [])
  {
    hide Checksum, TakeItems, U32, U64;
  }

  /**
   * No accepted table file is a proper prefix of another: whatever its checksum bytes happen to be, a
   * truncated table is refused, and so is one with bytes added.
   */
  lemma TableFilesPrefixFree(c: bytes, extra: bytes)
    requires ParseTable(c).Loaded? && extra != []
    ensures ParseTable(c + extra).Rejected?
  {
    var d := c + extra;
    if ParseTable(d).Loaded? {
      ParseParts(c);
      ParseParts(d);
      hide *;
      SameCount(c, extra);
      var more := LongerPayload(c, extra);
      TakeItemsExtend(c[16..|c| - 4], more, U64(c[8..]), map[]);
    }
  }

  lemma LongerPayload(c: bytes, extra: bytes) returns (more: bytes)
    requires |c| >= 20 && extra != []
    ensures more != [] && (c + extra)[16..|c + extra| - 4] == c[16..|c| - 4] + more
  {
    more := (c + extra)[|c| - 4..|c + extra| - 4];
    assert |more| == |extra|;
  }

  lemma SameCount(c: bytes, extra: bytes)
    requires |c| >= 20
    ensures U64((c + extra)[8..]) == U64(c[8..])
  {
    assert (c + extra)[8..][..8] == c[8..][..8];
  }

  /** A table file of the map m cut at any byte is refused. */
  lemma TornTableRejected(m: Data, n: nat)
    requires FitsFormat(m) && n < |TableBytes(m)|
    ensures ParseTable(TableBytes(m)[..n]).Rejected?
  {
    ParseOfTableBytes(m);
    hide *;
    var c, rest := TableBytes(m)[..n], TableBytes(m)[n..];
    assert c + rest == TableBytes(m);
    if ParseTable(c).Loaded? {
      TableFilesPrefixFree(c, rest);
    }
  }

  /** Burst damage to a written table's entries, header and checksum intact, is noticed. */
  lemma DamagedTableRejected(m: Data, q: bytes, at: nat, width: nat)
    requires Recovery.BurstDamage(TablePayload(m), q, at, width)
    ensures ParseTable(TableFile(|m|, q, Checksum(TablePayload(m)))).Rejected?
  {
    Recovery.BurstDamageChangesChecksum(TablePayload(m), q, at, width);
    hide Checksum, TakeItems, ParseTable, TableFile;
    ParseTableFile(|m|, q, Checksum(TablePayload(m)));
  }

  // ---------------------------------------------------------------------------
  // Metadata and lookup
  // ---------------------------------------------------------------------------

  /** The metadata write() leaves beside the file of the map m. */
  ghost function MetaOf(id: nat, filename: bytes, m: Data): Meta
  {
    var items := SortedItems(m);
    if items == [] then Meta(id, filename, [], [], 0)
    else Meta(id, filename, items[0].key, items[|items| - 1].key, |items|)
  }

  function Load(files: Files, filename: bytes): TableResult
  {
    if filename in files then ParseTable(files[filename]) else Rejected
  }

  datatype Lookup = NotFound | Found(entry: Entry) | ReadFailed

  /** SSTable::get: an empty table and a key outside the range are answered without reading the file. */
  function Get(files: Files, meta: Meta, key: bytes): Lookup
  {
    if meta.entryCount == 0 then NotFound
    else if Less(key, meta.smallest) || Less(meta.largest, key) then NotFound
    else match Load(files, meta.filename)
         case Rejected => ReadFailed
         case Loaded(data) =>
           if key !in data then NotFound
           else if data[key].deleted then Found(TOMBSTONE) else Found(data[key])
  }

  /** Every key of m lies between the recorded smallest and largest keys. */
  lemma RangeCovers(m: Data, key: bytes)
    requires key in m
    ensures var meta := MetaOf(0, [], m);
            !Less(key, meta.smallest) && !Less(meta.largest, key) && meta.entryCount != 0
  {
    SortedItemsHold(m);
    var items := SortedItems(m);
    assert Item(key, m[key]) in items;
    var i :| 0 <= i < |items| && items[i] == Item(key, m[key]);
    LessTrichotomy(items[0].key, key);
    LessTrichotomy(key, items[|items| - 1].key);
  }

  /** The shortcut never hides an entry: get answers as a lookup in the whole table would. */
  lemma GetAgreesWithTable(files: Files, id: nat, filename: bytes, m: Data, key: bytes)
    requires Load(files, filename) == Loaded(m)
    requires key in m && m[key].deleted ==> m[key].value == []
    ensures Get(files, MetaOf(id, filename, m), key) == if key in m then Found(m[key]) else NotFound
  {
    hide ParseTable, SortedItems;
    if key in m {
      RangeCovers(m, key);
    }
  }

  // ---------------------------------------------------------------------------
  // The code
  // ---------------------------------------------------------------------------

  method SerializeEntries(items: seq<Item>) returns (buffer: bytes)
    ensures buffer == ItemsBytes(items)
  {
    buffer := [];
    for i := 0 to |items|
      invariant buffer == ItemsBytes(items[..i])
    {
      hide ItemBytes;
      var before := buffer;
      var x := items[i];
      buffer := AppendUint32(buffer, |x.key|);
      buffer := buffer + x.key;
      buffer := buffer + [if x.entry.deleted then 1 else 0];
      buffer := AppendUint32(buffer, |x.entry.value|);
      buffer := buffer + x.entry.value;
      AppendedItem(before, x);
      assert items[..i + 1][..i] == items[..i];
    }
    assert items[..|items|] == items;
  }

  lemma AppendedItem(before: bytes, x: Item)
    ensures before + Le32(|x.key|) + x.key + [if x.entry.deleted then 1 else 0]
            + Le32(|x.entry.value|) + x.entry.value == before + ItemBytes(x)
  {
    hide Le32;
  }

  /** The body of the reader's loop: one entry at `offset`. */
  method ReadEntry(buffer: bytes, offset: nat) returns (r: ItemResult, next: nat)
    requires offset <= |buffer|
    ensures r == TakeItem(buffer[offset..])
    ensures r.GotItem? ==> offset < next <= |buffer| && r.rest == buffer[next..]
  {
    hide Le32, U32, TakeSized;
    next := offset;
    TakeSizedAt(buffer, offset, TWO_32);
    var read, keySize, afterSize := ReadUint32(buffer, offset);
    if !read || keySize > |buffer| - afterSize {
      return NoItem, next;
    }
    var afterKey := afterSize + keySize;
    var key := buffer[afterSize..afterKey];
    if afterKey >= |buffer| {
      return NoItem, next;
    }
    var deleted := buffer[afterKey] != 0;
    assert buffer[afterKey..][1..] == buffer[afterKey + 1..];
    TakeSizedAt(buffer, afterKey + 1, TWO_32);
    var valueSize;
    read, valueSize, afterSize := ReadUint32(buffer, afterKey + 1);
    if !read || valueSize > |buffer| - afterSize {
      return NoItem, next;
    }
    var value := buffer[afterSize..afterSize + valueSize];
    next := afterSize + valueSize;
    return GotItem(Item(key, Entry(value, deleted)), buffer[next..]), next;
  }

  method DeserializeEntries(buffer: bytes, entryCount: nat) returns (ok: bool, data: Data)
    ensures ok <==> TakeItems(buffer, entryCount, map[]).GotItems?
                    && TakeItems(buffer, entryCount, map[]).rest == []
    ensures ok ==> data == TakeItems(buffer, entryCount, map[]).data
  {
    hide TakeItems;
    data := map[];
    var offset := 0;
    assert buffer[0..] == buffer;
    for i := 0 to entryCount
      invariant 0 <= offset <= |buffer|
      invariant TakeItems(buffer, entryCount, map[]) == TakeItems(buffer[offset..], entryCount - i, data)
    {
      TakeItemsHead(buffer[offset..], entryCount - i, data);
      hide *;
      var read, next := ReadEntry(buffer, offset);
      if read.NoItem? {
        return false, data;
      }
      offset := next;
      data := data[read.item.key := read.item.entry];
    }
    TakeItemsNone(buffer[offset..], data);
    ok := offset == |buffer|;
  }

  lemma TakeItemsNone(s: bytes, data: Data)
    ensures TakeItems(s, 0, data) == GotItems(data, s)
  {
  }

  lemma TakeItemsHead(s: bytes, count: nat, data: Data)
    requires count > 0
    ensures TakeItems(s, count, data) ==
            match TakeItem(s)
            case NoItem => NoItems
            case GotItem(x, rest) => TakeItems(rest, count - 1, data[x.key := x.entry])
  {
    hide TakeItem;
  }

  method Parse(contents: bytes) returns (r: TableResult)
    ensures r == ParseTable(contents)
  {
    hide Checksum, TakeItems, U32, U64, Le32, Le64;
    assert contents[0..] == contents;
    var ok, magic, version, entryCount, offset;
    ok, magic, offset := ReadUint32(contents, 0);
    if !ok {
      return Rejected;
    }
    ok, version, offset := ReadUint32(contents, offset);
    if !ok {
      return Rejected;
    }
    ok, entryCount, offset := ReadUint64(contents, offset);
    if !ok || magic != MAGIC || version != VERSION || |contents| < offset + 4 {
      return Rejected;
    }
    var checksumOffset := |contents| - 4;
    var stored, end;
    ok, stored, end := ReadUint32(contents, checksumOffset);
    var payload := contents[offset..checksumOffset];
    var calculated := CalculateCrc32(payload);
    if stored != calculated {
      return Rejected;
    }
    var data;
    ok, data := DeserializeEntries(payload, entryCount);
    return if ok then Loaded(data) else Rejected;
  }

  /** unordered_map iteration: every entry once, in an order the map chooses. */
  method CollectEntries(data: Data) returns (entries: seq<Item>)
    ensures Holds(entries, data) && DistinctKeys(entries)
  {
    entries := [];
    var left := data.Keys;
    while left != {}
      invariant left <= data.Keys
      invariant forall x: Item :: x in entries <==> x.key in data.Keys - left && data[x.key] == x.entry
      invariant DistinctKeys(entries)
      decreases |left|
    {
      var k :| k in left;
      assert forall i :: 0 <= i < |entries| ==> entries[i] in entries;
      entries := entries + [Item(k, data[k])];
      left := left - {k};
    }
  }

  predicate DistinctKeys(items: seq<Item>)
  {
    forall i, j :: 0 <= i < j < |items| ==> items[i].key != items[j].key
  }

  /** Stands for std::sort on the entry vector; the order of distinct keys does not depend on the algorithm. */
  method SortByKey(entries: seq<Item>) returns (sorted: seq<Item>)
    requires DistinctKeys(entries)
    ensures Increasing(sorted)
    ensures forall x :: x in sorted <==> x in entries
  {
    sorted := [];
    for i := 0 to |entries|
      invariant Increasing(sorted)
      invariant forall x :: x in sorted <==> x in entries[..i]
    {
      assert entries[..i + 1] == entries[..i] + [entries[i]];
      forall x | x in sorted
        ensures x.key != entries[i].key
      {
        assert x in entries[..i];
      }
      sorted := Insert(sorted, entries[i]);
    }
    assert entries[..|entries|] == entries;
  }

  method Insert(sorted: seq<Item>, item: Item) returns (r: seq<Item>)
    requires Increasing(sorted)
    requires forall x :: x in sorted ==> x.key != item.key
    ensures Increasing(r)
    ensures forall x :: x in r <==> x in sorted || x == item
  {
    hide Less, Increasing;
    var p := 0;
    while p < |sorted| && Less(sorted[p].key, item.key)
      invariant p <= |sorted|
      invariant forall i :: 0 <= i < p ==> Less(sorted[i].key, item.key)
    {
      p := p + 1;
    }
    if p < |sorted| {
      assert sorted[p] in sorted;
      LessTrichotomy(sorted[p].key, item.key);
    }
    r := sorted[..p] + [item] + sorted[p..];
    InsertedMembers(sorted, p, item);
    InsertedOrder(sorted, p, item);
  }

  lemma InsertedOrder(sorted: seq<Item>, p: nat, item: Item)
    requires p <= |sorted| && Increasing(sorted)
    requires forall i :: 0 <= i < p ==> Less(sorted[i].key, item.key)
    requires p < |sorted| ==> Less(item.key, sorted[p].key)
    ensures Increasing(sorted[..p] + [item] + sorted[p..])
  {
    hide Less;
    forall i | p <= i < |sorted|
      ensures Less(item.key, sorted[i].key)
    {
      if i > p { LessTransitive(item.key, sorted[p].key, sorted[i].key); }
    }
  }

  /** SSTable::write up to the bytes: sort, serialize, checksum, header, and the metadata. */
  method Build(id: nat, filename: bytes, data: Data) returns (contents: bytes, meta: Meta)
    ensures contents == TableBytes(data)
    ensures meta == MetaOf(id, filename, data)
  {
    var entries := CollectEntries(data);
    entries := SortByKey(entries);
    SortedItemsUnique(entries, data);
    var payload := SerializeEntries(entries);
    var checksum := CalculateCrc32(payload);
    TableBytesAssembled(data, entries, payload, checksum);
    MetaAssembled(id, filename, data, entries);
    hide *;
    contents := AppendUint32([], MAGIC);
    contents := AppendUint32(contents, VERSION);
    contents := AppendUint64(contents, |entries|);
    contents := contents + payload;
    contents := AppendUint32(contents, checksum);
    meta := Meta(id, filename, [], [], |entries|);
    if entries != [] {
      meta := meta.(smallest := entries[0].key, largest := entries[|entries| - 1].key);
    }
  }

  lemma TableBytesAssembled(data: Data, entries: seq<Item>, payload: bytes, checksum: nat)
    requires entries == SortedItems(data) && payload == ItemsBytes(entries) && checksum == Checksum(payload)
    ensures TableBytes(data) == [] + Le32(MAGIC) + Le32(VERSION) + Le64(|entries|) + payload + Le32(checksum)
  {
    hide Checksum, ItemsBytes, SortedItems, Le32, Le64;
  }

  lemma MetaAssembled(id: nat, filename: bytes, data: Data, entries: seq<Item>)
    requires entries == SortedItems(data)
    ensures MetaOf(id, filename, data)
         == if entries == [] then Meta(id, filename, [], [], 0)
            else Meta(id, filename, entries[0].key, entries[|entries| - 1].key, |entries|)
  {
    hide SortedItems;
  }

  method Write(disk: Disk, id: nat, filename: bytes, data: Data) returns (meta: Meta)
    modifies disk
    ensures meta == MetaOf(id, filename, data)
    ensures disk.Now() == old(disk.Now()).(files := old(disk.files)[filename := TableBytes(data)])
    ensures disk.trace == old(disk.trace) + WriteTrace(old(disk.Now()), filename, TableBytes(data))
  {
    var contents;
    contents, meta := Build(id, filename, data);
    disk.WriteFile(filename, contents);
  }

  method LoadTable(disk: Disk, filename: bytes) returns (r: TableResult)
    ensures r == Load(disk.files, filename)
  {
    if filename !in disk.files {
      return Rejected;
    }
    r := Parse(disk.files[filename]);
  }

  method GetEntry(disk: Disk, meta: Meta, key: bytes) returns (r: Lookup)
    ensures r == Get(disk.files, meta, key)
  {
    if meta.entryCount == 0 {
      return NotFound;
    }
    if Less(key, meta.smallest) || Less(meta.largest, key) {
      return NotFound;
    }
    var table := LoadTable(disk, meta.filename);
    if table.Rejected? {
      return ReadFailed;
    }
    if key !in table.data {
      return NotFound;
    }
    var entry := table.data[key];
    return if entry.deleted then Found(TOMBSTONE) else Found(entry);
  }
}
