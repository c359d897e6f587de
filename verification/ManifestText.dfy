/** manifest.cpp: the text of the MANIFEST file. */
module ManifestText {
  import opened Bytes
  import opened Text
  import opened SSTable

  // ---------------------------------------------------------------------------
  // persist
  // ---------------------------------------------------------------------------

  function Line(t: Meta): bytes
  {
    Dec(t.id) + [SPACE] + t.filename + [SPACE] + t.smallest + [SPACE] + t.largest + [SPACE] + Dec(t.entryCount) + [NEWLINE]
  }

  function Lines(tables: seq<Meta>): bytes
  {
    if tables == [] then [] else Lines(tables[..|tables| - 1]) + Line(tables[|tables| - 1])
  }

  function Print(next: nat, tables: seq<Meta>): bytes
  {
    Dec(next) + [NEWLINE] + Dec(|tables|) + [NEWLINE] + Lines(tables)
  }

  // ---------------------------------------------------------------------------
  // load
  // ---------------------------------------------------------------------------

  datatype LineResult = BadLine | GotLine(meta: Meta, rest: bytes)

  function ReadLine(s: bytes): LineResult
  {
    match ReadNumber(s)
    case NoNumber => BadLine
    case GotNumber(id, s1) =>
      match ReadWord(s1)
      case NoWord => BadLine
      case GotWord(filename, s2) =>
        match ReadWord(s2)
        case NoWord => BadLine
        case GotWord(smallest, s3) =>
          match ReadWord(s3)
          case NoWord => BadLine
          case GotWord(largest, s4) =>
            match ReadNumber(s4)
            case NoNumber => BadLine
            case GotNumber(count, s5) => GotLine(Meta(id, filename, smallest, largest, count), s5)
  }

  datatype LinesResult = BadLines | GotLines(tables: seq<Meta>, rest: bytes)

  function ReadLines(s: bytes, count: nat, tables: seq<Meta>): LinesResult
    decreases count
  {
    if count == 0 then GotLines(tables, s)
    else match ReadLine(s)
         case BadLine => BadLines
         case GotLine(meta, rest) => ReadLines(rest, count - 1, tables + [meta])
  }

  datatype Contents = Invalid | Contents(next: nat, tables: seq<Meta>)

  function Read(text: bytes): Contents
  {
    match ReadNumber(text)
    case NoNumber => Invalid
    case GotNumber(next, s1) =>
      match ReadNumber(s1)
      case NoNumber => Invalid
      case GotNumber(count, s2) =>
        match ReadLines(s2, count, [])
        case BadLines => Invalid
        case GotLines(tables, rest) =>
          if ReadWord(rest).GotWord? then Invalid else Contents(next, tables)
  }

  // ---------------------------------------------------------------------------
  // Round trip
  // ---------------------------------------------------------------------------

  /** Metadata the text format can carry. */
  predicate Printable(t: Meta)
  {
    && t.id < TWO_64 && t.entryCount < TWO_64
    && IsToken(t.filename) && IsToken(t.smallest) && IsToken(t.largest)
  }

  predicate AllPrintable(tables: seq<Meta>)
  {
    forall i :: 0 <= i < |tables| ==> Printable(tables[i])
  }

  lemma ReadWrittenLine(t: Meta, rest: bytes)
    requires Printable(t)
    ensures ReadLine([NEWLINE] + Line(t) + rest) == GotLine(t, [NEWLINE] + rest)
  {
    var r5 := [NEWLINE] + rest;
    var r4 := [SPACE] + Dec(t.entryCount) + r5;
    var r3 := [SPACE] + t.largest + r4;
    var r2 := [SPACE] + t.smallest + r3;
    var r1 := [SPACE] + t.filename + r2;
    LineSplit(t, rest, r1, r2, r3, r4, r5);
    hide Line, Dec, ReadNumber, ReadWord, IsToken;
    ReadWrittenNumber(t.id, r1);
    ReadWrittenWord(t.filename, r2);
    ReadWrittenWord(t.smallest, r3);
    ReadWrittenWord(t.largest, r4);
    ReadWrittenNumber(t.entryCount, r5);
  }

  lemma LineSplit(t: Meta, rest: bytes, r1: bytes, r2: bytes, r3: bytes, r4: bytes, r5: bytes)
    requires r5 == [NEWLINE] + rest && r4 == [SPACE] + Dec(t.entryCount) + r5
    requires r3 == [SPACE] + t.largest + r4 && r2 == [SPACE] + t.smallest + r3
    requires r1 == [SPACE] + t.filename + r2
    ensures [NEWLINE] + Line(t) + rest == [NEWLINE] + Dec(t.id) + r1
  {
    hide Dec;
  }

  /** The loader takes printed lines one by one and appends them to what it has. */
  lemma {:induction false} ReadWrittenLines(tables: seq<Meta>, rest: bytes, more: nat, before: seq<Meta>)
    requires AllPrintable(tables)
    ensures ReadLines([NEWLINE] + Lines(tables) + rest, |tables| + more, before)
         == ReadLines([NEWLINE] + rest, more, before + tables)
  {
    hide *;
    if tables == [] {
      NoLines();
      Regroup([NEWLINE], [], [], rest);
      assert before + tables == before;
    } else {
      var init, last := tables[..|tables| - 1], tables[|tables| - 1];
      AllButLast(tables);
      LinesSplit(tables);
      Regroup([NEWLINE], Lines(init), Line(last), rest);
      ReadWrittenLines(init, Line(last) + rest, more + 1, before);
      Regroup([NEWLINE], [], Line(last), rest);
      ReadWrittenLine(last, rest);
      ReadLinesStep([NEWLINE] + (Line(last) + rest), more, before + init, last, [NEWLINE] + rest);
      assert before + init + [last] == before + tables;
    }
  }

  lemma NoLines()
    ensures Lines([]) == []
  {
  }

  lemma AllButLast(tables: seq<Meta>)
    requires AllPrintable(tables) && tables != []
    ensures AllPrintable(tables[..|tables| - 1]) && Printable(tables[|tables| - 1])
  {
    hide Printable;
  }

  lemma LinesSplit(tables: seq<Meta>)
    requires tables != []
    ensures Lines(tables) == Lines(tables[..|tables| - 1]) + Line(tables[|tables| - 1])
  {
    hide Line;
  }

  lemma Regroup(a: bytes, b: bytes, c: bytes, d: bytes)
    ensures a + (b + c) + d == a + b + (c + d)
    ensures a + [] + d == a + d && a + (c + d) == a + c + d
  {
  }

  lemma ReadLinesStep(s: bytes, count: nat, before: seq<Meta>, meta: Meta, rest: bytes)
    requires ReadLine(s) == GotLine(meta, rest)
    ensures ReadLines(s, count + 1, before) == ReadLines(rest, count, before + [meta])
  {
    hide ReadLine;
  }

  /** Whatever text is read, the metadata obtained is printable. */
  lemma {:induction false} LinesReadPrintable(s: bytes, count: nat, before: seq<Meta>)
    requires AllPrintable(before) && ReadLines(s, count, before).GotLines?
    ensures AllPrintable(ReadLines(s, count, before).tables)
    ensures |ReadLines(s, count, before).tables| == |before| + count
    decreases count
  {
    hide *;
    ReadLinesHead(s, count, before);
    if count > 0 {
      LineReadPrintable(s);
      var GotLine(meta, rest) := ReadLine(s);
      PrintableSnoc(before, meta);
      LinesReadPrintable(rest, count - 1, before + [meta]);
    }
  }

  lemma ReadLinesHead(s: bytes, count: nat, before: seq<Meta>)
    ensures count == 0 ==> ReadLines(s, count, before) == GotLines(before, s)
    ensures count > 0 && ReadLine(s).BadLine? ==> ReadLines(s, count, before) == BadLines
    ensures count > 0 && ReadLine(s).GotLine?
            ==> ReadLines(s, count, before) == ReadLines(ReadLine(s).rest, count - 1, before + [ReadLine(s).meta])
  {
    hide ReadLine;
  }

  lemma PrintableSnoc(tables: seq<Meta>, meta: Meta)
    requires AllPrintable(tables) && Printable(meta)
    ensures AllPrintable(tables + [meta])
  {
    hide Printable;
  }

  lemma LineReadPrintable(s: bytes)
    ensures ReadLine(s).GotLine? ==> Printable(ReadLine(s).meta)
  {
    hide ReadNumber, ReadWord;
  }

  lemma OnlyNewlineLeft()
    ensures ReadWord([NEWLINE]) == NoWord
  {
    SpanUnique(Blank, [NEWLINE], []);
    assert [NEWLINE] + [] == [NEWLINE];
  }

  /**
   * Loading a persisted MANIFEST restores the next id and every table, if and only if all names and
   * keys are non-empty and free of white space and all numbers fit 64 bits.
   */
  lemma ReadOfPrint(next: nat, tables: seq<Meta>)
    ensures Read(Print(next, tables)) == Contents(next, tables)
            <==> next < TWO_64 && |tables| < TWO_64 && AllPrintable(tables)
  {
    if next < TWO_64 && |tables| < TWO_64 && AllPrintable(tables) {
      ReadPrinted(next, tables);
    } else if Read(Print(next, tables)) == Contents(next, tables) {
      ContentsReadPrintable(Print(next, tables));
    }
  }

  lemma ContentsReadPrintable(text: bytes)
    requires Read(text).Contents?
    ensures Read(text).next < TWO_64 && |Read(text).tables| < TWO_64 && AllPrintable(Read(text).tables)
  {
    hide ReadLines, ReadWord;
    var GotNumber(next, s1) := ReadNumber(text);
    var GotNumber(count, s2) := ReadNumber(s1);
    hide ReadNumber;
    LinesReadPrintable(s2, count, []);
  }

  lemma PrintSplit(next: nat, tables: seq<Meta>, s1: bytes, s2: bytes)
    requires s2 == [NEWLINE] + Lines(tables) + [] && s1 == [NEWLINE] + Dec(|tables|) + s2
    ensures Print(next, tables) == Dec(next) + s1
  {
    hide Dec, Lines;
  }

  lemma ReadPrinted(next: nat, tables: seq<Meta>)
    requires next < TWO_64 && |tables| < TWO_64 && AllPrintable(tables)
    ensures Read(Print(next, tables)) == Contents(next, tables)
  {
    hide *;
    var s2 := [NEWLINE] + Lines(tables) + [];
    var s1 := [NEWLINE] + Dec(|tables|) + s2;
    PrintSplit(next, tables, s1, s2);
    NewlineIsNoDigit();
    ReadWrittenNumber(next, s1);
    ReadWrittenNumber(|tables|, s2);
    ReadWrittenLines(tables, [], 0, []);
    NoMoreLines(tables);
    OnlyNewlineLeft();
    ReadSteps(Print(next, tables), next, s1, |tables|, s2, tables, [NEWLINE]);
  }

  lemma NewlineIsNoDigit()
    ensures !IsDigit(NEWLINE)
  {
  }

  lemma ReadSteps(text: bytes, next: nat, s1: bytes, count: nat, s2: bytes, tables: seq<Meta>, rest: bytes)
    requires ReadNumber(text) == GotNumber(next, s1) && ReadNumber(s1) == GotNumber(count, s2)
    requires ReadLines(s2, count, []) == GotLines(tables, rest) && ReadWord(rest) == NoWord
    ensures Read(text) == Contents(next, tables)
  {
    hide ReadNumber, ReadLines, ReadWord;
  }

  lemma NoMoreLines(tables: seq<Meta>)
    ensures ReadLines([NEWLINE] + [], 0, [] + tables) == GotLines(tables, [NEWLINE])
  {
    assert [NEWLINE] + [] == [NEWLINE] && [] + tables == tables;
  }

  // ---------------------------------------------------------------------------
  // A table without entries
  // ---------------------------------------------------------------------------

  /** A file name that does not begin like a number. */
  predicate Plain(name: bytes)
  {
    name != [] && !IsDigit(name[0]) && !IsSpace(name[0]) && name[0] != 43 && name[0] != 45
  }

  lemma NoNumberInPlain(name: bytes, rest: bytes)
    requires Plain(name)
    ensures ReadNumber([SPACE] + name + rest) == NoNumber
  {
    hide DecValue;
    var s := name + rest;
    assert [SPACE] + name + rest == [SPACE] + s;
    SkipOneBlank(SPACE, s);
    SpanUnique(Blank, [], s);
    assert [] + s == s;
  }

  /** What stands behind the line of an empty table: nothing, or the line of a table with a plain file name. */
  predicate Following(rest: bytes, tables: seq<Meta>)
  {
    rest == Lines(tables) && (tables != [] ==> Plain(tables[0].filename))
  }

  lemma {:induction false} FirstLine(tables: seq<Meta>)
    requires tables != []
    ensures Line(tables[0]) <= Lines(tables)
  {
    hide Line;
    if |tables| == 1 {
      assert tables[..0] == [];
    } else {
      FirstLine(tables[..|tables| - 1]);
    }
  }

  lemma LineHead(t: Meta, more: bytes)
    ensures Line(t) + more == Dec(t.id) + ([SPACE] + t.filename
              + ([SPACE] + t.smallest + [SPACE] + t.largest + [SPACE] + Dec(t.entryCount) + [NEWLINE] + more))
  {
    hide Dec;
  }

  /** Where the empty table's line should have its largest key, no line can go on. */
  lemma NoLargestKey(rest: bytes, tables: seq<Meta>)
    requires Following(rest, tables)
    ensures var word := ReadWord([NEWLINE] + rest);
            word == NoWord || (word.GotWord? && ReadNumber(word.rest) == NoNumber)
  {
    hide ReadNumber, Line, Dec, Plain, IsToken;
    if tables == [] {
      OnlyNewlineLeft();
      assert [NEWLINE] + rest == [NEWLINE];
    } else {
      FirstLine(tables);
      var t := tables[0];
      var more := rest[|Line(t)|..];
      assert rest == Line(t) + more;
      var tail := [SPACE] + t.smallest + [SPACE] + t.largest + [SPACE] + Dec(t.entryCount) + [NEWLINE] + more;
      LineHead(t, more);
      WordBehindNewline(Dec(t.id), [SPACE] + t.filename + tail, t.id);
      NoNumberInPlain(t.filename, tail);
    }
  }

  lemma WordBehindNewline(w: bytes, rest: bytes, n: nat)
    requires w == Dec(n) && rest != [] && rest[0] == SPACE
    ensures ReadWord([NEWLINE] + (w + rest)) == GotWord(w, rest)
  {
    DecDigits(n);
    hide Dec;
    ReadWrittenWord(w, rest);
    SkipOneBlank(NEWLINE, w + rest);
    hide Span;
  }

  /** The line of a table without keys is not read back: its entry count is taken for the smallest key. */
  lemma EmptyTableLineIsBad(id: nat, filename: bytes, rest: bytes, tables: seq<Meta>)
    requires id < TWO_64 && IsToken(filename) && Following(rest, tables)
    ensures ReadLine([NEWLINE] + Line(Meta(id, filename, [], [], 0)) + rest) == BadLine
  {
    hide *;
    var zero: bytes := [48];
    var r2 := [SPACE] + ([SPACE] + ([SPACE] + zero + ([NEWLINE] + rest)));
    var r1 := [SPACE] + filename + r2;
    EmptyLineSplit(id, filename, rest, r1, r2);
    SpaceIsSpace();
    ReadWrittenNumber(id, r1);
    ReadWrittenWord(filename, r2);
    ZeroWord(zero, rest, r2);
    NoLargestKey(rest, tables);
    LineWithoutLargest([NEWLINE] + Line(Meta(id, filename, [], [], 0)) + rest, id, r1, filename, r2, zero, [NEWLINE] + rest);
  }

  lemma SpaceIsSpace()
    ensures IsSpace(SPACE) && !IsDigit(SPACE)
  {
  }

  lemma EmptyLineSplit(id: nat, filename: bytes, rest: bytes, r1: bytes, r2: bytes)
    requires r1 == [SPACE] + filename + r2
    requires r2 == [SPACE] + ([SPACE] + ([SPACE] + [48] + ([NEWLINE] + rest)))
    ensures [NEWLINE] + Line(Meta(id, filename, [], [], 0)) + rest == [NEWLINE] + Dec(id) + r1
  {
    assert Dec(0) == [48];
    hide Dec;
  }

  lemma ZeroWord(zero: bytes, rest: bytes, r2: bytes)
    requires zero == [48] && r2 == [SPACE] + ([SPACE] + ([SPACE] + zero + ([NEWLINE] + rest)))
    ensures ReadWord(r2) == GotWord(zero, [NEWLINE] + rest)
  {
    var r := [SPACE] + zero + ([NEWLINE] + rest);
    SkipOneBlank(SPACE, [SPACE] + r);
    SkipOneBlank(SPACE, r);
    ReadWrittenWord(zero, [NEWLINE] + rest);
    assert ReadWord(r2) == ReadWord(r) by { hide Span; }
  }

  lemma LineWithoutLargest(s: bytes, id: nat, s1: bytes, filename: bytes, s2: bytes, smallest: bytes, s3: bytes)
    requires ReadNumber(s) == GotNumber(id, s1) && ReadWord(s1) == GotWord(filename, s2)
    requires ReadWord(s2) == GotWord(smallest, s3)
    requires ReadWord(s3) == NoWord || (ReadWord(s3).GotWord? && ReadNumber(ReadWord(s3).rest) == NoNumber)
    ensures ReadLine(s) == BadLine
  {
    hide ReadNumber, ReadWord;
  }

  lemma {:induction false} LinesConcat(x: seq<Meta>, y: seq<Meta>)
    ensures Lines(x + y) == Lines(x) + Lines(y)
  {
    hide Line;
    if y == [] {
      assert x + y == x;
    } else {
      var init := y[..|y| - 1];
      assert (x + y)[..|x + y| - 1] == x + init;
      LinesConcat(x, init);
    }
  }

  lemma OneLine(t: Meta)
    ensures Lines([t]) == Line(t)
  {
    hide Line;
    assert [t][..0] == [];
  }

  lemma LinesAround(tables: seq<Meta>, t: Meta, more: seq<Meta>)
    ensures Lines(tables + [t] + more) == Lines(tables) + (Line(t) + Lines(more))
    ensures |tables + [t] + more| == |tables| + (1 + |more|)
  {
    hide Lines, Line;
    LinesConcat(tables + [t], more);
    LinesConcat(tables, [t]);
    OneLine(t);
  }

  lemma LinesStopAtEmpty(tables: seq<Meta>, id: nat, filename: bytes, more: seq<Meta>)
    requires AllPrintable(tables) && id < TWO_64 && IsToken(filename) && Following(Lines(more), more)
    ensures var all := tables + [Meta(id, filename, [], [], 0)] + more;
            ReadLines([NEWLINE] + Lines(all) + [], |all|, []) == BadLines
  {
    hide *;
    var empty := Meta(id, filename, [], [], 0);
    var tail := Line(empty) + Lines(more);
    LinesAround(tables, empty, more);
    Regroup([NEWLINE], Lines(tables), tail, []);
    assert tail + [] == tail;
    ReadWrittenLines(tables, tail, 1 + |more|, []);
    EmptyTableLineIsBad(id, filename, Lines(more), more);
    Regroup([NEWLINE], [], Line(empty), Lines(more));
    assert [] + tables == tables;
    ReadLinesHead([NEWLINE] + tail, 1 + |more|, tables);
  }

  /** A MANIFEST in which any table has no entries makes load fail, if the next table's file name is plain. */
  lemma EmptyTableBlocksLoad(next: nat, tables: seq<Meta>, id: nat, filename: bytes, more: seq<Meta>)
    requires next < TWO_64 && |tables| + 1 + |more| < TWO_64 && AllPrintable(tables)
    requires id < TWO_64 && IsToken(filename)
    requires more != [] ==> Plain(more[0].filename)
    ensures Read(Print(next, tables + [Meta(id, filename, [], [], 0)] + more)) == Invalid
  {
    FollowingIs(more);
    hide *;
    var all := tables + [Meta(id, filename, [], [], 0)] + more;
    LinesStopAtEmpty(tables, id, filename, more);
    var s2 := [NEWLINE] + Lines(all) + [];
    var s1 := [NEWLINE] + Dec(|all|) + s2;
    PrintSplit(next, all, s1, s2);
    NewlineIsNoDigit();
    ReadWrittenNumber(next, s1);
    ReadWrittenNumber(|all|, s2);
    ReadStops(Print(next, all), next, s1, |all|, s2);
  }

  lemma FollowingIs(tables: seq<Meta>)
    requires tables != [] ==> Plain(tables[0].filename)
    ensures Following(Lines(tables), tables)
  {
    hide Plain, Lines;
  }

  lemma ReadStops(text: bytes, next: nat, s1: bytes, count: nat, s2: bytes)
    requires ReadNumber(text) == GotNumber(next, s1) && ReadNumber(s1) == GotNumber(count, s2)
    requires ReadLines(s2, count, []) == BadLines
    ensures Read(text) == Invalid
  {
    hide ReadNumber, ReadLines, ReadWord;
  }
}
