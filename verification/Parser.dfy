/** parser.cpp: one command per message. */
module Parser {
  import opened Bytes
  import opened Text

  datatype Command = Put(key: bytes, value: bytes) | Get(key: bytes) | Delete(key: bytes) | Exit | Invalid

  // ---------------------------------------------------------------------------
  // Specification
  // ---------------------------------------------------------------------------

  /** std::toupper in the "C" locale */
  function ToUpper(b: byte): byte
  {
    if 97 <= b <= 122 then b - 32 else b
  }

  function Upper(s: bytes): (r: bytes)
    ensures |r| == |s|
  {
    if s == [] then [] else Upper(s[..|s| - 1]) + [ToUpper(s[|s| - 1])]
  }

  /** std::getline: up to the first newline. */
  function FirstLine(s: bytes): bytes
  {
    if s == [] || s[0] == NEWLINE then [] else [s[0]] + FirstLine(s[1..])
  }

  /** The value of a PUT: the rest of the line behind the key, less one leading blank. */
  function PutValue(rest: bytes): bytes
  {
    var line := FirstLine(rest);
    if line != [] && line[0] == SPACE then line[1..] else line
  }

  function ParsePut(s: bytes): Command
  {
    match ReadWord(s)
    case NoWord => Invalid
    case GotWord(key, rest) => if PutValue(rest) == [] then Invalid else Put(key, PutValue(rest))
  }

  /** A command whose only argument is a key: anything after the key makes it invalid. */
  function ParseKey(s: bytes): Option<bytes>
  {
    match ReadWord(s)
    case NoWord => None
    case GotWord(key, rest) => if ReadWord(rest).GotWord? then None else Some(key)
  }

  function ParseOperation(operation: bytes, s: bytes): Command
  {
    if operation == Ascii("PUT") then ParsePut(s)
    else if operation == Ascii("GET") then
      match ParseKey(s) case None => Invalid case Some(key) => Get(key)
    else if operation == Ascii("DELETE") || operation == Ascii("DEL") then
      match ParseKey(s) case None => Invalid case Some(key) => Delete(key)
    else if operation == Ascii("EXIT") || operation == Ascii("QUIT") then Exit
    else Invalid
  }

  function Parse(input: bytes): Command
  {
    match ReadWord(input)
    case NoWord => Invalid
    case GotWord(operation, rest) => ParseOperation(Upper(operation), rest)
  }

  // ---------------------------------------------------------------------------
  // The code
  // ---------------------------------------------------------------------------

  method UpperCase(value: bytes) returns (r: bytes)
    ensures r == Upper(value)
  {
    r := value;
    for i := 0 to |value|
      invariant |r| == |value| && r[..i] == Upper(value[..i]) && r[i..] == value[i..]
    {
      assert value[..i + 1][..i] == value[..i];
      var s := r[i := ToUpper(r[i])];
      assert s[..i + 1] == r[..i] + [ToUpper(value[i])];
      assert s[i + 1..] == value[i + 1..];
      r := s;
    }
    assert value[..|value|] == value && r[..|value|] == r;
  }

  method ParseCommand(input: bytes) returns (command: Command)
    ensures command == Parse(input)
  {
    hide ReadWord, Upper, Ascii;
    var first := ReadWord(input);
    if first.NoWord? {
      return Invalid;
    }
    var operation := UpperCase(first.word);
    var second := ReadWord(first.rest);
    if operation == Ascii("PUT") {
      if second.NoWord? {
        return Invalid;
      }
      var value := FirstLine(second.rest);
      if value != [] && value[0] == SPACE {
        value := value[1..];
      }
      if value == [] {
        return Invalid;
      }
      return Put(second.word, value);
    }
    if operation == Ascii("GET") || operation == Ascii("DELETE") || operation == Ascii("DEL") {
      if second.NoWord? {
        return Invalid;
      }
      var extra := ReadWord(second.rest);
      if extra.GotWord? {
        return Invalid;
      }
      return if operation == Ascii("GET") then Get(second.word) else Delete(second.word);
    }
    if operation == Ascii("EXIT") || operation == Ascii("QUIT") {
      return Exit;
    }
    return Invalid;
  }

  // ---------------------------------------------------------------------------
  // What accepted commands look like
  // ---------------------------------------------------------------------------

  lemma {:induction false} FirstLineHasNoNewline(s: bytes)
    ensures NEWLINE !in FirstLine(s)
  {
    if s != [] && s[0] != NEWLINE {
      FirstLineHasNoNewline(s[1..]);
    }
  }

  lemma PutValueHasNoNewline(s: bytes)
    ensures NEWLINE !in PutValue(s)
  {
    FirstLineHasNoNewline(s);
    hide FirstLine;
  }

  /** Every key of an accepted command is what the MANIFEST text can carry, and values are single lines. */
  lemma ParsedKeysAreTokens(input: bytes)
    ensures var command := Parse(input);
            && (command.Put? || command.Get? || command.Delete? ==> IsToken(command.key))
            && (command.Put? ==> command.value != [] && NEWLINE !in command.value)
  {
    hide Upper, ParseOperation;
    match ReadWord(input)
    case NoWord =>
    case GotWord(operation, rest) => OperationKeysAreTokens(Upper(operation), rest);
  }

  lemma OperationKeysAreTokens(operation: bytes, s: bytes)
    ensures var command := ParseOperation(operation, s);
            && (command.Put? || command.Get? || command.Delete? ==> IsToken(command.key))
            && (command.Put? ==> command.value != [] && NEWLINE !in command.value)
  {
    hide Ascii, PutValue, IsToken, SkipBlanks, Span;
    match ReadWord(s)
    case NoWord =>
    case GotWord(key, after) => PutValueHasNoNewline(after);
  }

  /** "PUT key value" as a client writes it, the blank being byte 32. */
  function PutMessage(key: bytes, value: bytes): bytes
  {
    [80, 85, 84, 32] + key + [32] + value
  }

  lemma {:induction false} FirstLineOfLine(s: bytes, more: bytes)
    requires NEWLINE !in s && (more == [] || more[0] == 10)
    ensures FirstLine(s + more) == s
  {
    if s == [] {
      assert s + more == more;
    } else {
      assert s[0] in s && (s + more)[1..] == s[1..] + more;
      FirstLineOfLine(s[1..], more);
    }
  }

  lemma PutKeyword()
    ensures IsToken(Ascii("PUT")) && Upper(Ascii("PUT")) == Ascii("PUT")
  {
    var p := Ascii("PUT");
    assert |"PUT"| == 3;
    assert p == [80, 85, 84];
    assert p[..2] == [80, 85] && p[..2][..1] == [80] && p[..1][..0] == [];
    assert Upper([80]) == [80] by { assert [80][..0] == []; }
    assert Upper([80, 85]) == [80, 85] by { assert [80, 85][..1] == [80]; }
  }

  lemma PutMessageSplit(key: bytes, value: bytes)
    ensures PutMessage(key, value) == Ascii("PUT") + ([SPACE] + key + ([SPACE] + value))
  {
    Keywords();
    hide Ascii;
  }

  lemma ValueBehindBlank(value: bytes, more: bytes)
    requires NEWLINE !in value && (more == [] || more[0] == 10)
    ensures PutValue([SPACE] + (value + more)) == value
  {
    FirstLineOfLine([SPACE] + value, more);
    assert [SPACE] + value + more == [SPACE] + (value + more);
    hide FirstLine;
    assert ([SPACE] + value)[1..] == value;
  }

  /**
   * A PUT message is parsed to exactly the key and value it was made from, if and only if the key is a
   * non-empty word and the value is a non-empty line.
   */
  lemma PutRoundTrip(key: bytes, value: bytes)
    ensures Parse([80, 85, 84, 32] + key + [32] + value) == Put(key, value)
            <==> IsWord(key) && value != [] && 10 !in value
  {
    WordIsToken(key);
    assert PutMessage(key, value) == [80, 85, 84, 32] + key + [32] + value;
    if IsToken(key) && value != [] && NEWLINE !in value {
      PutParses(key, value, []);
      assert PutMessage(key, value) + [] == PutMessage(key, value);
    } else if Parse(PutMessage(key, value)) == Put(key, value) {
      ParsedKeysAreTokens(PutMessage(key, value));
    }
  }

  /** And whatever follows a newline is not looked at. */
  lemma PutParses(key: bytes, value: bytes, more: bytes)
    requires IsToken(key) && value != [] && NEWLINE !in value && (more == [] || more[0] == 10)
    ensures Parse(PutMessage(key, value) + more) == Put(key, value)
  {
    hide *;
    PutKeyword();
    PutMessageSplit(key, value);
    BlankIsSpace();
    var after := [SPACE] + (value + more);
    var rest := [SPACE] + key + after;
    assert PutMessage(key, value) + more == Ascii("PUT") + rest;
    ReadWrittenWord(Ascii("PUT"), rest);
    ReadWrittenWord(key, after);
    ValueBehindBlank(value, more);
    ParsePutIs(Ascii("PUT") + rest, Ascii("PUT"), rest, key, after);
  }

  lemma BlankIsSpace()
    ensures IsSpace(SPACE)
  {
  }

  lemma ParsePutIs(input: bytes, operation: bytes, rest: bytes, key: bytes, after: bytes)
    requires ReadWord(input) == GotWord(operation, rest) && Upper(operation) == Ascii("PUT")
    requires ReadWord(rest) == GotWord(key, after) && PutValue(after) != []
    ensures Parse(input) == Put(key, PutValue(after))
  {
    hide ReadWord, Upper, PutValue, Ascii;
  }

  // ---------------------------------------------------------------------------
  // The other commands, letter by letter
  // ---------------------------------------------------------------------------

  /** A word: bytes that are neither a blank nor one of the control characters 9 to 13. */
  predicate IsWord(w: bytes)
  {
    w != [] && forall i :: 0 <= i < |w| ==> w[i] != 32 && !(9 <= w[i] <= 13)
  }

  predicate IsSeparator(b: byte)
  {
    b == 32 || 9 <= b <= 13
  }

  lemma WordIsToken(w: bytes)
    ensures IsWord(w) <==> IsToken(w)
  {
  }

  /** The letters of an upper-case word, each in either case. */
  predicate Spells(s: bytes, upper: bytes)
  {
    |s| == |upper| && forall i :: 0 <= i < |s| ==> 65 <= upper[i] <= 90 && (s[i] == upper[i] || s[i] == upper[i] + 32)
  }

  lemma {:induction false} SpelledUpper(s: bytes, upper: bytes)
    requires Spells(s, upper)
    ensures Upper(s) == upper
  {
    if s != [] {
      var n := |s| - 1;
      SpelledUpper(s[..n], upper[..n]);
      assert upper == upper[..n] + [upper[n]];
    }
  }

  lemma Keywords()
    ensures Ascii("PUT") == [80, 85, 84] && Ascii("GET") == [71, 69, 84] && Ascii("DEL") == [68, 69, 76]
    ensures Ascii("DELETE") == [68, 69, 76, 69, 84, 69]
    ensures Ascii("EXIT") == [69, 88, 73, 84] && Ascii("QUIT") == [81, 85, 73, 84]
  {
    ThreeLetters();
    FourLetters();
    SixLetters();
    hide Ascii;
  }

  lemma ThreeLetters()
    ensures Ascii("PUT") == [80, 85, 84] && Ascii("GET") == [71, 69, 84] && Ascii("DEL") == [68, 69, 76]
  {
    assert |"PUT"| == 3 && |"GET"| == 3 && |"DEL"| == 3;
  }

  lemma FourLetters()
    ensures Ascii("EXIT") == [69, 88, 73, 84] && Ascii("QUIT") == [81, 85, 73, 84]
  {
    assert |"EXIT"| == 4 && |"QUIT"| == 4;
  }

  lemma SixLetters()
    ensures Ascii("DELETE") == [68, 69, 76, 69, 84, 69]
  {
    assert |"DELETE"| == 6;
  }

  lemma NoWordInBlanks(s: bytes)
    ensures ReadWord(s).NoWord? <==> AllIn(Blank, s)
  {
    var n := Span(Blank, s);
    if n == |s| {
      assert s[..n] == s;
    }
  }

  lemma WordBehind(sep: byte, w: bytes, rest: bytes)
    requires IsSeparator(sep) && IsToken(w) && (rest == [] || IsSpace(rest[0]))
    ensures ReadWord([sep] + w + rest) == GotWord(w, rest)
  {
    hide ReadWord, IsToken;
    ReadWrittenWord(w, rest);
    SkipOneBlank(sep, w + rest);
    assert [sep] + w + rest == [sep] + (w + rest);
    SkippedWord(sep, w + rest);
  }

  lemma SkippedWord(sep: byte, s: bytes)
    requires IsSpace(sep)
    ensures ReadWord([sep] + s) == ReadWord(s)
  {
    SkipOneBlank(sep, s);
    hide SkipBlanks, Span;
  }

  lemma SpelledIsToken(s: bytes, upper: bytes)
    requires Spells(s, upper) && s != []
    ensures IsToken(s)
  {
  }

  lemma ParseIs(input: bytes, word: bytes, rest: bytes)
    requires ReadWord(input) == GotWord(word, rest)
    ensures Parse(input) == ParseOperation(Upper(word), rest)
  {
    hide ReadWord, Upper, ParseOperation;
  }

  lemma OperationIs(upper: bytes, s: bytes)
    ensures upper == [71, 69, 84] ==> ParseOperation(upper, s) == match ParseKey(s) case None => Invalid case Some(key) => Get(key)
    ensures upper == [68, 69, 76] || upper == [68, 69, 76, 69, 84, 69] ==>
              ParseOperation(upper, s) == match ParseKey(s) case None => Invalid case Some(key) => Delete(key)
    ensures upper == [69, 88, 73, 84] || upper == [81, 85, 73, 84] ==> ParseOperation(upper, s) == Exit
  {
    Keywords();
    hide Ascii, ParseKey;
  }

  lemma ParseKeyIs(s: bytes, key: bytes, tail: bytes)
    requires ReadWord(s) == GotWord(key, tail)
    ensures ParseKey(s) == if AllIn(Blank, tail) then Some(key) else None
  {
    NoWordInBlanks(tail);
    hide ReadWord;
  }

  /** The spelled operation, a separator, a word, and what follows: only blanks may. */
  lemma KeyArgument(s: bytes, upper: bytes, sep: byte, key: bytes, tail: bytes)
    requires Spells(s, upper) && s != [] && IsSeparator(sep) && IsWord(key) && (tail == [] || IsSeparator(tail[0]))
    ensures Parse(s + [sep] + key + tail) == ParseOperation(upper, [sep] + key + tail)
    ensures ParseKey([sep] + key + tail) == if forall i :: 0 <= i < |tail| ==> IsSeparator(tail[i]) then Some(key) else None
  {
    hide ReadWord, Parse, ParseOperation, ParseKey, Upper, IsToken;
    WordIsToken(key);
    SpelledUpper(s, upper);
    SpelledIsToken(s, upper);
    WordBehind(sep, key, tail);
    var rest := [sep] + key + tail;
    ReadWrittenWord(s, rest);
    assert s + [sep] + key + tail == s + rest;
    ParseIs(s + rest, s, rest);
    ParseKeyIs(rest, key, tail);
  }

  /**
   * GET in any spelling, a separator, a key: a read of that key if only blanks follow, and invalid if another word
   * does.
   */
  lemma GetParses(s: bytes, sep: byte, key: bytes, tail: bytes)
    requires Spells(s, [71, 69, 84]) && IsSeparator(sep) && IsWord(key) && (tail == [] || IsSeparator(tail[0]))
    ensures Parse(s + [sep] + key + tail) == if forall i :: 0 <= i < |tail| ==> IsSeparator(tail[i]) then Get(key) else Invalid
  {
    hide Parse, ParseOperation, ParseKey;
    KeyArgument(s, [71, 69, 84], sep, key, tail);
    OperationIs([71, 69, 84], [sep] + key + tail);
  }

  /** The same for DELETE and DEL. */
  lemma DeleteParses(s: bytes, sep: byte, key: bytes, tail: bytes)
    requires Spells(s, [68, 69, 76]) || Spells(s, [68, 69, 76, 69, 84, 69])
    requires IsSeparator(sep) && IsWord(key) && (tail == [] || IsSeparator(tail[0]))
    ensures Parse(s + [sep] + key + tail) == if forall i :: 0 <= i < |tail| ==> IsSeparator(tail[i]) then Delete(key) else Invalid
  {
    hide Parse, ParseOperation, ParseKey;
    var upper: bytes := if |s| == 3 then [68, 69, 76] else [68, 69, 76, 69, 84, 69];
    KeyArgument(s, upper, sep, key, tail);
    OperationIs(upper, [sep] + key + tail);
  }

  /** GET, DELETE and DEL messages are parsed to their key if and only if it is a word. */
  lemma KeyRoundTrip(key: bytes)
    ensures Parse([71, 69, 84, 32] + key) == Get(key) <==> IsWord(key)
    ensures Parse([68, 69, 76, 32] + key) == Delete(key) <==> IsWord(key)
    ensures Parse([68, 69, 76, 69, 84, 69, 32] + key) == Delete(key) <==> IsWord(key)
  {
    hide Parse, IsToken;
    WordIsToken(key);
    var get, del, delete: bytes := [71, 69, 84], [68, 69, 76], [68, 69, 76, 69, 84, 69];
    assert get + [32] + key + [] == [71, 69, 84, 32] + key;
    assert del + [32] + key + [] == [68, 69, 76, 32] + key;
    assert delete + [32] + key + [] == [68, 69, 76, 69, 84, 69, 32] + key;
    if IsWord(key) {
      GetParses(get, 32, key, []);
      DeleteParses(del, 32, key, []);
      DeleteParses(delete, 32, key, []);
    } else {
      ParsedKeysAreTokens([71, 69, 84, 32] + key);
      ParsedKeysAreTokens([68, 69, 76, 32] + key);
      ParsedKeysAreTokens([68, 69, 76, 69, 84, 69, 32] + key);
    }
  }

  lemma PutIs(s: bytes, key: bytes, tail: bytes)
    requires ReadWord(s) == GotWord(key, tail)
    ensures ParseOperation([80, 85, 84], s) == if PutValue(tail) == [] then Invalid else Put(key, PutValue(tail))
  {
    Keywords();
    hide Ascii, PutValue, ReadWord;
  }

  /** PUT in any spelling: only a blank directly behind the key is taken off the value, any other separator stays. */
  lemma PutTail(s: bytes, sep: byte, key: bytes, behind: byte, value: bytes)
    requires Spells(s, [80, 85, 84]) && IsSeparator(sep) && IsWord(key) && IsSeparator(behind) && 10 !in value
    ensures Parse(s + [sep] + key + ([behind] + value)) ==
            if behind == 10 || (behind == 32 && value == []) then Invalid
            else Put(key, if behind == 32 then value else [behind] + value)
  {
    hide ReadWord, Parse, ParseOperation, Upper, IsToken;
    WordIsToken(key);
    SpelledUpper(s, [80, 85, 84]);
    SpelledIsToken(s, [80, 85, 84]);
    var tail := [behind] + value;
    WordBehind(sep, key, tail);
    var rest := [sep] + key + tail;
    ReadWrittenWord(s, rest);
    assert s + [sep] + key + tail == s + rest;
    ParseIs(s + rest, s, rest);
    PutIs(rest, key, tail);
    if behind != 10 {
      FirstLineOfLine(tail, []);
      assert tail + [] == tail && tail[1..] == value;
    }
  }

  /** EXIT and QUIT in any spelling, whatever follows a separator. */
  lemma ExitParses(s: bytes, rest: bytes)
    requires Spells(s, [69, 88, 73, 84]) || Spells(s, [81, 85, 73, 84])
    requires rest == [] || IsSeparator(rest[0])
    ensures Parse(s + rest) == Exit
  {
    hide Parse, ParseOperation, ReadWord, Upper, IsToken;
    var upper: bytes := if Spells(s, [69, 88, 73, 84]) then [69, 88, 73, 84] else [81, 85, 73, 84];
    SpelledUpper(s, upper);
    SpelledIsToken(s, upper);
    ReadWrittenWord(s, rest);
    ParseIs(s + rest, s, rest);
    OperationIs(upper, rest);
  }

  /** An operation without its argument, and a PUT without a value, are invalid. */
  lemma ArgumentMissing(s: bytes, blanks: bytes)
    requires Spells(s, [80, 85, 84]) || Spells(s, [71, 69, 84]) || Spells(s, [68, 69, 76]) || Spells(s, [68, 69, 76, 69, 84, 69])
    requires forall i :: 0 <= i < |blanks| ==> IsSeparator(blanks[i])
    ensures Parse(s + blanks) == Invalid
  {
    hide Parse, ReadWord, Upper, IsToken, Ascii, AllIn, ParseOperation;
    AllBlank(blanks);
    NoWordInBlanks(blanks);
    var upper: bytes := if |s| == 6 then [68, 69, 76, 69, 84, 69] else if Spells(s, [80, 85, 84]) then [80, 85, 84]
                        else if Spells(s, [71, 69, 84]) then [71, 69, 84] else [68, 69, 76];
    SpelledUpper(s, upper);
    SpelledIsToken(s, upper);
    ReadWrittenWord(s, blanks);
    ParseIs(s + blanks, s, blanks);
    WithoutArgument(upper, blanks);
  }

  lemma AllBlank(s: bytes)
    ensures AllIn(Blank, s) <==> forall i :: 0 <= i < |s| ==> IsSeparator(s[i])
  {
  }

  lemma WithoutArgument(upper: bytes, s: bytes)
    requires upper in [[80, 85, 84], [71, 69, 84], [68, 69, 76], [68, 69, 76, 69, 84, 69]] && ReadWord(s).NoWord?
    ensures ParseOperation(upper, s) == Invalid
  {
    Keywords();
    hide Ascii, ReadWord;
  }

  /** Any other operation is invalid. */
  lemma UnknownOperation(s: bytes, rest: bytes)
    requires IsWord(s) && (rest == [] || IsSeparator(rest[0]))
    requires !Spells(s, [80, 85, 84]) && !Spells(s, [71, 69, 84]) && !Spells(s, [68, 69, 76])
    requires !Spells(s, [68, 69, 76, 69, 84, 69]) && !Spells(s, [69, 88, 73, 84]) && !Spells(s, [81, 85, 73, 84])
    ensures Parse(s + rest) == Invalid
  {
    Keywords();
    WordIsToken(s);
    hide Parse, ReadWord, Upper, IsToken, Ascii, Spells;
    ReadWrittenWord(s, rest);
    ParseIs(s + rest, s, rest);
    UpperSpelled(s, [80, 85, 84]);
    UpperSpelled(s, [71, 69, 84]);
    UpperSpelled(s, [68, 69, 76]);
    UpperSpelled(s, [68, 69, 76, 69, 84, 69]);
    UpperSpelled(s, [69, 88, 73, 84]);
    UpperSpelled(s, [81, 85, 73, 84]);
  }

  lemma {:induction false} UpperSpelled(s: bytes, upper: bytes)
    requires forall i :: 0 <= i < |upper| ==> 65 <= upper[i] <= 90
    ensures Upper(s) == upper ==> Spells(s, upper)
  {
    if Upper(s) == upper && s != [] {
      var n := |s| - 1;
      assert upper[..n] == Upper(s[..n]) && upper[n] == ToUpper(s[n]);
      UpperSpelled(s[..n], upper[..n]);
      assert forall i :: 0 <= i < n ==> s[..n][i] == s[i] && upper[..n][i] == upper[i];
    }
  }
}
