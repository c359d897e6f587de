/** What operator>> and operator<< do with text streams: blanks, words and decimal numbers. */
module Text {
  import opened Bytes

  const SPACE: byte := 32
  const NEWLINE: byte := 10

  /** isspace in the "C" locale. */
  predicate IsSpace(b: byte)
  {
    b == 32 || 9 <= b <= 13
  }

  predicate IsDigit(b: byte)
  {
    48 <= b <= 57
  }

  datatype CharClass = Blank | Digit | Visible

  predicate In(c: CharClass, b: byte)
  {
    match c
    case Blank => IsSpace(b)
    case Digit => IsDigit(b)
    case Visible => !IsSpace(b)
  }

  predicate AllIn(c: CharClass, s: bytes)
  {
    forall i :: 0 <= i < |s| ==> In(c, s[i])
  }

  /** The length of the longest prefix of s inside the class. */
  function Span(c: CharClass, s: bytes): (n: nat)
    ensures n <= |s| && AllIn(c, s[..n]) && (n < |s| ==> !In(c, s[n]))
  {
    if s == [] || !In(c, s[0]) then 0 else 1 + Span(c, s[1..])
  }

  /** The span is the only cut with the class on its left and none of it next on its right. */
  lemma {:induction false} SpanUnique(c: CharClass, w: bytes, rest: bytes)
    requires AllIn(c, w) && (rest == [] || !In(c, rest[0]))
    ensures Span(c, w + rest) == |w|
  {
    if w == [] {
      assert w + rest == rest;
    } else {
      assert (w + rest)[1..] == w[1..] + rest;
      SpanUnique(c, w[1..], rest);
    }
  }

  function SkipBlanks(s: bytes): bytes
  {
    s[Span(Blank, s)..]
  }

  lemma SkipOneBlank(b: byte, s: bytes)
    requires IsSpace(b)
    ensures SkipBlanks([b] + s) == SkipBlanks(s)
  {
    assert ([b] + s)[1..] == s;
    assert ([b] + s)[1 + Span(Blank, s)..] == s[Span(Blank, s)..];
  }

  // ---------------------------------------------------------------------------
  // Words
  // ---------------------------------------------------------------------------

  /** A string that survives being written to and read from a stream. */
  predicate IsToken(w: bytes)
  {
    w != [] && AllIn(Visible, w)
  }

  datatype WordResult = NoWord | GotWord(word: bytes, rest: bytes)

  function ReadWord(s: bytes): (r: WordResult)
    ensures r.GotWord? ==> IsToken(r.word) && |r.rest| < |s|
  {
    var t := SkipBlanks(s);
    var n := Span(Visible, t);
    if n == 0 then NoWord else GotWord(t[..n], t[n..])
  }

  lemma ReadWrittenWord(w: bytes, rest: bytes)
    requires IsToken(w) && (rest == [] || IsSpace(rest[0]))
    ensures ReadWord(w + rest) == GotWord(w, rest)
    ensures ReadWord([SPACE] + w + rest) == GotWord(w, rest)
  {
    SpanUnique(Blank, [], w + rest);
    assert [] + (w + rest) == w + rest;
    SpanUnique(Visible, w, rest);
    assert [SPACE] + w + rest == [SPACE] + (w + rest);
    SkipOneBlank(SPACE, w + rest);
  }

  // ---------------------------------------------------------------------------
  // Decimal numbers
  // ---------------------------------------------------------------------------

  function Dec(n: nat): (s: bytes)
    ensures s != []
  {
    if n < 10 then [48 + n] else Dec(n / 10) + [48 + n % 10]
  }

  function DecValue(s: bytes): nat
    requires AllIn(Digit, s)
  {
    if s == [] then 0 else 10 * DecValue(s[..|s| - 1]) + (s[|s| - 1] - 48)
  }

  lemma {:induction false} DecDigits(n: nat)
    ensures AllIn(Digit, Dec(n)) && AllIn(Visible, Dec(n)) && DecValue(Dec(n)) == n
  {
    if n >= 10 {
      DecDigits(n / 10);
      var s := Dec(n);
      assert s[..|s| - 1] == Dec(n / 10);
    } else {
      assert [48 + n][..0] == [];
    }
  }

  lemma DecInjective(m: nat, n: nat)
    requires Dec(m) == Dec(n)
    ensures m == n
  {
    DecDigits(m);
    DecDigits(n);
  }

  datatype NumberResult = NoNumber | GotNumber(value: nat, rest: bytes)

  function ReadDigits(s: bytes, negative: bool): NumberResult
  {
    var n := Span(Digit, s);
    if n == 0 || DecValue(s[..n]) >= TWO_64 then NoNumber
    else GotNumber(if negative then (TWO_64 - DecValue(s[..n])) % TWO_64 else DecValue(s[..n]), s[n..])
  }

  /** Extraction of a uint64_t, which also accepts a sign; too large a number fails. */
  function ReadNumber(s: bytes): (r: NumberResult)
    ensures r.GotNumber? ==> r.value < TWO_64
  {
    var t := SkipBlanks(s);
    if t != [] && (t[0] == 43 || t[0] == 45) then ReadDigits(t[1..], t[0] == 45) else ReadDigits(t, false)
  }

  lemma ReadDecDigits(n: nat, rest: bytes)
    requires n < TWO_64 && (rest == [] || !IsDigit(rest[0]))
    ensures ReadDigits(Dec(n) + rest, false) == GotNumber(n, rest)
  {
    DecDigits(n);
    hide Dec, DecValue;
    SpanUnique(Digit, Dec(n), rest);
    assert (Dec(n) + rest)[..|Dec(n)|] == Dec(n) && (Dec(n) + rest)[|Dec(n)|..] == rest;
  }

  lemma DecStartsWithDigit(n: nat, rest: bytes)
    ensures IsDigit((Dec(n) + rest)[0])
  {
    DecDigits(n);
    assert In(Digit, Dec(n)[0]);
  }

  lemma ReadNumberAtDigit(s: bytes)
    requires s != [] && IsDigit(s[0])
    ensures ReadNumber(s) == ReadDigits(s, false)
  {
    hide ReadDigits, Span;
    SpanUnique(Blank, [], s);
    assert [] + s == s;
    assert SkipBlanks(s) == s;
  }

  lemma ReadNumberSkips(b: byte, s: bytes)
    requires IsSpace(b)
    ensures ReadNumber([b] + s) == ReadNumber(s)
  {
    hide ReadDigits, SkipBlanks, IsSpace;
    SkipOneBlank(b, s);
  }

  lemma SignedDigits(sign: byte, n: nat, rest: bytes)
    requires sign == 43 || sign == 45
    ensures ReadNumber([sign] + (Dec(n) + rest)) == ReadDigits(Dec(n) + rest, sign == 45)
  {
    hide ReadDigits, Dec;
    var s := [sign] + (Dec(n) + rest);
    SpanUnique(Blank, [], s);
    assert [] + s == s && SkipBlanks(s) == s;
  }

  /** A plus sign is passed over; a minus sign counts down from 2 to the 64, as extraction into unsigned types does. */
  lemma ReadSigned(n: nat, rest: bytes)
    requires n < TWO_64 && (rest == [] || !IsDigit(rest[0]))
    ensures ReadNumber([43] + (Dec(n) + rest)) == GotNumber(n, rest)
    ensures ReadNumber([45] + (Dec(n) + rest)) == GotNumber(if n == 0 then 0 else 0x1_0000_0000_0000_0000 - n, rest)
  {
    hide *;
    SignedDigits(43, n, rest);
    SignedDigits(45, n, rest);
    ReadDecDigits(n, rest);
    ReadNegative(n, rest);
  }

  lemma ReadNegative(n: nat, rest: bytes)
    requires n < TWO_64 && (rest == [] || !IsDigit(rest[0]))
    ensures ReadDigits(Dec(n) + rest, true) == GotNumber(if n == 0 then 0 else 0x1_0000_0000_0000_0000 - n, rest)
  {
    DecDigits(n);
    hide Dec, DecValue;
    SpanUnique(Digit, Dec(n), rest);
    assert (Dec(n) + rest)[..|Dec(n)|] == Dec(n) && (Dec(n) + rest)[|Dec(n)|..] == rest;
  }

  /** A number of more than 64 bits is not read. */
  lemma ReadTooLarge(n: nat, rest: bytes)
    requires n >= TWO_64 && (rest == [] || !IsDigit(rest[0]))
    ensures ReadNumber(Dec(n) + rest) == NoNumber
  {
    DecDigits(n);
    DecStartsWithDigit(n, rest);
    ReadNumberAtDigit(Dec(n) + rest);
    hide Dec, DecValue, ReadNumber;
    SpanUnique(Digit, Dec(n), rest);
    assert (Dec(n) + rest)[..|Dec(n)|] == Dec(n);
  }

  lemma BlanksAreSpaces()
    ensures IsSpace(SPACE) && IsSpace(NEWLINE)
  {
  }

  /** A printed number is read back, at the start of the stream or behind one blank. */
  lemma ReadWrittenNumber(n: nat, rest: bytes)
    requires n < TWO_64 && (rest == [] || !IsDigit(rest[0]))
    ensures ReadNumber(Dec(n) + rest) == GotNumber(n, rest)
    ensures ReadNumber([SPACE] + Dec(n) + rest) == GotNumber(n, rest)
    ensures ReadNumber([NEWLINE] + Dec(n) + rest) == GotNumber(n, rest)
  {
    hide *;
    var s := Dec(n) + rest;
    ReadDecDigits(n, rest);
    DecStartsWithDigit(n, rest);
    ReadNumberAtDigit(s);
    BlanksAreSpaces();
    ReadNumberSkips(SPACE, s);
    ReadNumberSkips(NEWLINE, s);
    assert [SPACE] + Dec(n) + rest == [SPACE] + s;
    assert [NEWLINE] + Dec(n) + rest == [NEWLINE] + s;
  }
}
