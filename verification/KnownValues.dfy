/** Values that can be looked up or worked out by hand, byte for byte. */
module KnownValues {
  import opened Bytes
  import opened Crc32
  import opened Text
  import opened Entries
  import opened Serialization
  import opened WalRecord
  import opened Recovery
  import opened SSTable
  import opened ManifestText
  import opened TableNames
  import Protocol

  // ---------------------------------------------------------------------------
  // The check value of CRC-32
  // ---------------------------------------------------------------------------

  lemma EightSteps(c: bv32)
    ensures ShiftBits(c, 8) == ShiftBit(ShiftBit(ShiftBit(ShiftBit(ShiftBit(ShiftBit(ShiftBit(ShiftBit(c))))))))
  {
    hide ShiftBit;
    assert ShiftBits(c, 4) == ShiftBit(ShiftBits(c, 3)) && ShiftBits(c, 2) == ShiftBit(ShiftBits(c, 1));
    assert ShiftBits(c, 1) == ShiftBit(ShiftBits(c, 0)) && ShiftBits(c, 3) == ShiftBit(ShiftBits(c, 2));
    assert ShiftBits(c, 6) == ShiftBit(ShiftBits(c, 5)) && ShiftBits(c, 5) == ShiftBit(ShiftBits(c, 4));
  }

  lemma Digit1()
    ensures ShiftBits(Xor(0xffffffff, 49), 8) == 0x7c231048
  {
    EightSteps(Xor(0xffffffff, 49));
    hide ShiftBits;
  }

  lemma Digit2()
    ensures ShiftBits(Xor(0x7c231048, 50), 8) == 0xb0acbb32
  {
    EightSteps(Xor(0x7c231048, 50));
    hide ShiftBits;
  }

  lemma Digit3()
    ensures ShiftBits(Xor(0xb0acbb32, 51), 8) == 0x77b79c2d
  {
    EightSteps(Xor(0xb0acbb32, 51));
    hide ShiftBits;
  }

  lemma Digit4()
    ensures ShiftBits(Xor(0x77b79c2d, 52), 8) == 0x641c1f5c
  {
    EightSteps(Xor(0x77b79c2d, 52));
    hide ShiftBits;
  }

  lemma Digit5()
    ensures ShiftBits(Xor(0x641c1f5c, 53), 8) == 0x340ac5e3
  {
    EightSteps(Xor(0x641c1f5c, 53));
    hide ShiftBits;
  }

  lemma Digit6()
    ensures ShiftBits(Xor(0x340ac5e3, 54), 8) == 0xf68d2c9e
  {
    EightSteps(Xor(0x340ac5e3, 54));
    hide ShiftBits;
  }

  lemma Digit7()
    ensures ShiftBits(Xor(0xf68d2c9e, 55), 8) == 0xaffc9660
  {
    EightSteps(Xor(0xf68d2c9e, 55));
    hide ShiftBits;
  }

  lemma Digit8()
    ensures ShiftBits(Xor(0xaffc9660, 56), 8) == 0x651f2550
  {
    EightSteps(Xor(0xaffc9660, 56));
    hide ShiftBits;
  }

  lemma Digit9()
    ensures ShiftBits(Xor(0x651f2550, 57), 8) == 0x340bc6d9
  {
    EightSteps(Xor(0x651f2550, 57));
    hide ShiftBits;
  }

  lemma WidenDigit(b: byte, w: bv8)
    requires b as bv8 == w
    ensures Widen(b) == w as bv32
  {
  }

  lemma Digits()
    ensures Widen(49) == 49 && Widen(50) == 50 && Widen(51) == 51 && Widen(52) == 52 && Widen(53) == 53
    ensures Widen(54) == 54 && Widen(55) == 55 && Widen(56) == 56 && Widen(57) == 57
  {
  }

  lemma OneMoreByte(c: bv32, data: bytes, n: nat)
    requires n < |data|
    ensures Register(c, data[..n + 1]) == ShiftBits(Xor(Register(c, data[..n]), Widen(data[n])), 8)
    ensures Register(c, data[..0]) == c && data[..|data|] == data
  {
    hide Xor, ShiftBits, Widen;
    assert data[..n + 1][..n] == data[..n];
  }

  lemma Complement()
    ensures Xor(0x340bc6d9, ONES) as int == 0xCBF43926
  {
  }

  /** The checksum of the digits 1 to 9. */
  lemma CheckValue()
    ensures Checksum([49, 50, 51, 52, 53, 54, 55, 56, 57]) == 0xCBF43926
  {
    hide Xor, ShiftBits, Widen, Register;
    Digits();
    Digit1(); Digit2(); Digit3(); Digit4(); Digit5(); Digit6(); Digit7(); Digit8(); Digit9();
    Complement();
    var d: bytes := [49, 50, 51, 52, 53, 54, 55, 56, 57];
    OneMoreByte(ONES, d, 0); OneMoreByte(ONES, d, 1); OneMoreByte(ONES, d, 2);
    OneMoreByte(ONES, d, 3); OneMoreByte(ONES, d, 4); OneMoreByte(ONES, d, 5);
    OneMoreByte(ONES, d, 6); OneMoreByte(ONES, d, 7); OneMoreByte(ONES, d, 8);
  }

  // ---------------------------------------------------------------------------
  // The log
  // ---------------------------------------------------------------------------

  lemma SizedShort(s: bytes)
    requires |s| < 256
    ensures Sized(s) == [|s|, 0, 0, 0] + s
  {
    Le32Short(|s|);
    hide Le32;
  }

  /** The bytes logged for a short PUT or DELETE: length, type, key, value, checksum of what lies between. */
  lemma LoggedBytes(r: Record)
    requires 9 + |r.key| + |r.value| < 256
    ensures var payload := [TypeByte(r.kind)] + ([|r.key|, 0, 0, 0] + r.key) + ([|r.value|, 0, 0, 0] + r.value);
            RecordBytes(r) == [9 + |r.key| + |r.value|, 0, 0, 0] + payload + Le32(Checksum(payload))
    ensures TypeByte(Put) != TypeByte(Delete)
  {
    SizedShort(r.key);
    SizedShort(r.value);
    Le32Short(9 + |r.key| + |r.value|);
    hide Checksum, Le32, Sized;
  }

  // ---------------------------------------------------------------------------
  // Tables
  // ---------------------------------------------------------------------------

  lemma MagicBytes()
    ensures Le32(MAGIC) == [0x31, 0x42, 0x44, 0x46] && Le32(VERSION) == [2, 0, 0, 0]
  {
    Le32Short(VERSION);
    assert Le(0x46, 1) == [0x46] + Le(0, 0);
    assert Le(0x4644, 2) == [0x44] + Le(0x46, 1);
    assert Le(0x464442, 3) == [0x42] + Le(0x4644, 2);
    assert Le(0x46444231, 4) == [0x31] + Le(0x464442, 3);
  }

  lemma {:induction false} LeZero(n: nat)
    ensures Le(0, n) == seq(n, i => 0)
  {
    if n > 0 {
      LeZero(n - 1);
    }
  }

  lemma Le64Short(n: nat)
    requires n < 256
    ensures Le64(n) == [n, 0, 0, 0, 0, 0, 0, 0]
  {
    LeZero(7);
    assert Le(n, 8) == [n] + Le(0, 7);
  }

  /** The bytes of an entry: sized key, one byte for a tombstone, sized value. */
  lemma EntryBytes(x: Item)
    requires |x.key| < 256 && |x.entry.value| < 256
    ensures ItemBytes(x) == ([|x.key|, 0, 0, 0] + x.key) + [if x.entry.deleted then 1 else 0]
                            + ([|x.entry.value|, 0, 0, 0] + x.entry.value)
  {
    SizedShort(x.key);
    SizedShort(x.entry.value);
    hide Sized;
  }

  /** Any other byte than zero reads as a tombstone too. */
  lemma AnyFlagReads(key: bytes, flag: byte, value: bytes, rest: bytes)
    requires |key| < TWO_32 && |value| < TWO_32
    ensures TakeItem(Sized(key) + [flag] + Sized(value) + rest) == GotItem(Item(key, Entry(value, flag != 0)), rest)
  {
    hide Sized, TakeSized;
    var tail := [flag] + (Sized(value) + rest);
    assert Sized(key) + [flag] + Sized(value) + rest == Sized(key) + tail;
    TakeSizedOfSized(key, tail, TWO_32);
    TakeSizedOfSized(value, rest, TWO_32);
    assert tail[1..] == Sized(value) + rest;
  }

  /** Of two entries with one key the later one counts. */
  lemma LaterEntryCounts(key: bytes, d: Entry, e: Entry)
    requires |key| < TWO_32 && |d.value| < TWO_32 && |e.value| < TWO_32
    ensures TakeItems(ItemBytes(Item(key, d)) + ItemBytes(Item(key, e)), 2, map[]) == GotItems(map[key := e], [])
  {
    hide ItemBytes, TakeItem;
    var x, y := Item(key, d), Item(key, e);
    TakeItemOfItemBytes(x, ItemBytes(y));
    TakeItemOfItemBytes(y, []);
    assert ItemBytes(y) + [] == ItemBytes(y);
    TakeItemsStep(ItemBytes(x) + ItemBytes(y), 1, map[], x, ItemBytes(y));
    TakeItemsStep(ItemBytes(y), 0, map[key := d], y, []);
    TakeNone(map[key := d][key := e]);
  }

  lemma OneItem(key: bytes, entry: Entry)
    ensures SortedItems(map[key := entry]) == [Item(key, entry)]
  {
    SortedItemsUnique([Item(key, entry)], map[key := entry]);
  }

  lemma OneItemBytes(x: Item)
    ensures ItemsBytes([x]) == ItemBytes(x)
  {
    hide ItemBytes;
    assert [x][..0] == [] && ItemsBytes([]) == [];
  }

  lemma HeaderOfOne()
    ensures Header(1) == [0x31, 0x42, 0x44, 0x46, 2, 0, 0, 0, 1, 0, 0, 0, 0, 0, 0, 0]
  {
    MagicBytes();
    Le64Short(1);
    hide Le32, Le64;
  }

  lemma TableIs(m: Data)
    ensures TableBytes(m) == Header(|m|) + TablePayload(m) + Le32(Checksum(TablePayload(m)))
  {
    hide Checksum, Header, TablePayload, Le32;
  }

  lemma OneEntryPayload(key: bytes, entry: Entry)
    ensures TablePayload(map[key := entry]) == ItemBytes(Item(key, entry)) && |map[key := entry]| == 1
  {
    OneItem(key, entry);
    OneItemBytes(Item(key, entry));
    hide ItemBytes, SortedItems, ItemsBytes;
  }

  /** The file of a table with one short entry. */
  lemma OneEntryTable(key: bytes, entry: Entry)
    requires |key| < 256 && |entry.value| < 256
    ensures var payload := ([|key|, 0, 0, 0] + key) + [if entry.deleted then 1 else 0] + ([|entry.value|, 0, 0, 0] + entry.value);
            TableBytes(map[key := entry])
            == [0x31, 0x42, 0x44, 0x46, 2, 0, 0, 0, 1, 0, 0, 0, 0, 0, 0, 0] + payload + Le32(Checksum(payload))
  {
    hide *;
    TableIs(map[key := entry]);
    OneEntryPayload(key, entry);
    HeaderOfOne();
    EntryBytes(Item(key, entry));
  }

  /** Every accepted file begins with the magic number and version 2, and ends with its entries' checksum. */
  lemma AcceptedTable(c: bytes)
    requires ParseTable(c).Loaded?
    ensures |c| >= 20 && c[..8] == [0x31, 0x42, 0x44, 0x46, 2, 0, 0, 0]
    ensures c[|c| - 4..] == Le32(Checksum(c[16..|c| - 4]))
    ensures TakeItems(c[16..|c| - 4], U64(c[8..]), map[]) == GotItems(ParseTable(c).data, [])
  {
    MagicBytes();
    ParseParts(c);
    AcceptedParts(c);
    Le32OfU32(c);
    Le32OfU32(c[4..]);
    Le32OfU32(c[|c| - 4..]);
    hide Checksum, TakeItems, ParseTable, U32, U64, Le32;
    assert c[4..][..4] == c[4..8] && c[..8] == c[..4] + c[4..8];
    assert c[|c| - 4..][..4] == c[|c| - 4..];
  }

  lemma AcceptedParts(c: bytes)
    requires ParseTable(c).Loaded?
    ensures |c| >= 20 && U32(c) == MAGIC && U32(c[4..]) == VERSION && U32(c[|c| - 4..]) == Checksum(c[16..|c| - 4])
  {
    hide Checksum, TakeItems, U32, U64;
  }

  /** Of two keys the one with the smaller byte at their first difference is written first and listed as smallest. */
  lemma TwoEntryOrder(p: bytes, x: byte, s: bytes, d: Entry, y: byte, t: bytes, e: Entry, id: nat, filename: bytes)
    requires x < y
    ensures var lo, hi := p + [x] + s, p + [y] + t;
            && SortedItems(map[hi := e, lo := d]) == [Item(lo, d), Item(hi, e)]
            && MetaOf(id, filename, map[hi := e, lo := d]) == Meta(id, filename, lo, hi, 2)
  {
    var lo, hi := p + [x] + s, p + [y] + t;
    LessAtDifference(p, x, s, y, t);
    LessTrichotomy(lo, hi);
    hide Less;
    SortedItemsUnique([Item(lo, d), Item(hi, e)], map[hi := e, lo := d]);
    hide SortedItems;
  }

  // ---------------------------------------------------------------------------
  // Texts
  // ---------------------------------------------------------------------------

  lemma Decimals()
    ensures Dec(0) == [48] && Dec(7) == [55] && Dec(12) == [49, 50] && Dec(340) == [51, 52, 48]
  {
  }

  /** "d/table_12.sst" */
  lemma TwelfthName()
    ensures TableName([100], 12) == [100, 47, 116, 97, 98, 108, 101, 95, 49, 50, 46, 115, 115, 116]
  {
    Decimals();
    PrefixIs();
    ExtensionIs();
    hide Dec, Prefix, Extension;
  }

  /** A MANIFEST with one table: next id, number of tables, then id, file, smallest key, largest key, entries. */
  lemma OneTableText()
    ensures Print(340, [Meta(12, [102], [97], [98], 7)])
         == [51, 52, 48, 10, 49, 10, 49, 50, 32, 102, 32, 97, 32, 98, 32, 55, 10]
  {
    Decimals();
    OneLine(Meta(12, [102], [97], [98], 7));
    assert Dec(1) == [49];
    hide Dec, Lines;
  }

  /** Behind a printed MANIFEST only blanks may follow. */
  lemma TrailingText(next: nat, tables: seq<Meta>, extra: bytes)
    requires next < TWO_64 && |tables| < TWO_64 && AllPrintable(tables)
    ensures Read(Print(next, tables) + extra) == if AllIn(Blank, extra) then Contents(next, tables) else Invalid
  {
    hide *;
    var s2 := [NEWLINE] + Lines(tables) + extra;
    var s1 := [NEWLINE] + Dec(|tables|) + s2;
    TextSplit(next, tables, extra, s1, s2);
    NewlineIsNoDigit();
    ReadWrittenNumber(next, s1);
    ReadWrittenNumber(|tables|, s2);
    ReadWrittenLines(tables, extra, 0, []);
    assert [] + tables == tables;
    ReadLinesHead([NEWLINE] + extra, 0, tables);
    BehindNewline(extra);
    ReadEnds(Print(next, tables) + extra, next, s1, |tables|, s2, tables, [NEWLINE] + extra);
  }

  lemma TextSplit(next: nat, tables: seq<Meta>, extra: bytes, s1: bytes, s2: bytes)
    requires s2 == [NEWLINE] + Lines(tables) + extra && s1 == [NEWLINE] + Dec(|tables|) + s2
    ensures Print(next, tables) + extra == Dec(next) + s1
  {
    hide Dec, Lines;
  }

  lemma BehindNewline(extra: bytes)
    ensures ReadWord([NEWLINE] + extra).NoWord? <==> AllIn(Blank, extra)
  {
    SkipOneBlank(NEWLINE, extra);
    var n := Span(Blank, extra);
    if n == |extra| {
      assert extra[..n] == extra;
    }
  }

  lemma ReadEnds(text: bytes, next: nat, s1: bytes, count: nat, s2: bytes, tables: seq<Meta>, rest: bytes)
    requires ReadNumber(text) == GotNumber(next, s1) && ReadNumber(s1) == GotNumber(count, s2)
    requires ReadLines(s2, count, []) == GotLines(tables, rest)
    ensures Read(text) == if ReadWord(rest).GotWord? then Invalid else Contents(next, tables)
  {
    hide ReadNumber, ReadLines, ReadWord;
  }

  /** A number ends before the first byte that is not one of "0" to "9". */
  lemma NumberEnds(n: nat, b: byte, rest: bytes)
    requires n < TWO_64 && (b < 48 || b > 57)
    ensures ReadNumber(Dec(n) + ([b] + rest)) == GotNumber(n, [b] + rest)
  {
    hide Dec, ReadNumber;
    ReadWrittenNumber(n, [b] + rest);
  }

  // ---------------------------------------------------------------------------
  // Frames
  // ---------------------------------------------------------------------------

  /** Four length bytes, least significant first, then the payload. */
  lemma FrameBytes(payload: bytes, limit: Protocol.Limit)
    requires |payload| < 256
    ensures Protocol.CreateFrame(payload, limit) == if |payload| > limit then [] else [|payload|, 0, 0, 0] + payload
  {
    SizedShort(payload);
    hide Sized;
  }

  /** An oversized length drops all that has been received. */
  lemma OversizedDrops(a: byte, b: byte, c: byte, d: byte, rest: bytes, limit: Protocol.Limit)
    requires a + 256 * b + 65536 * c + 16777216 * d > limit
    ensures Protocol.Extract([a, b, c, d] + rest, limit) == Protocol.NoFrame([])
  {
    U32Bytes([a, b, c, d] + rest);
    hide U32;
  }
}
