/** serialization.cpp: the little-endian writers and readers under every binary format. */
module Serialization {
  import opened Bytes

  /** Shifting out the bytes already written leaves the value the next ones are taken from. */
  lemma {:induction false} LeStep(v: nat, i: nat)
    ensures Le(v, i + 1) == Le(v, i) + [(v / Pow256(i)) % 256]
  {
    if i == 0 {
    } else {
      LeStep(v / 256, i - 1);
      DivDiv(v, Pow256(i - 1));
    }
  }

  lemma DivDiv(v: nat, p: nat)
    requires p > 0
    ensures (v / 256) / p == v / (256 * p)
  {
    var q, r := (v / 256) / p, (v / 256) % p;
    var low := v % 256;
    assert v / 256 == p * q + r;
    assert v == (256 * p) * q + (256 * r + low);
    assert 256 * r + low < 256 * p;
    DivModUnique(v, 256 * p, q, 256 * r + low);
  }

  method AppendUint(buffer: bytes, value: nat, width: nat) returns (extended: bytes)
    ensures extended == buffer + Le(value, width)
  {
    extended := buffer;
    for i := 0 to width
      invariant extended == buffer + Le(value, i)
    {
      LeStep(value, i);
      assert buffer + (Le(value, i) + [(value / Pow256(i)) % 256])
          == (buffer + Le(value, i)) + [(value / Pow256(i)) % 256];
      extended := extended + [(value / Pow256(i)) % 256];
    }
  }

  method AppendUint32(buffer: bytes, value: nat) returns (extended: bytes)
    ensures extended == buffer + Le32(value)
  {
    extended := AppendUint(buffer, value, 4);
  }

  method AppendUint64(buffer: bytes, value: nat) returns (extended: bytes)
    ensures extended == buffer + Le64(value)
  {
    extended := AppendUint(buffer, value, 8);
  }

  lemma {:induction false} FromLeStep(s: bytes, i: nat)
    requires i < |s|
    ensures FromLe(s[..i + 1]) == FromLe(s[..i]) + s[i] * Pow256(i)
  {
    if i == 0 {
      assert s[..1][1..] == [] && s[..0] == [];
    } else {
      FromLeStep(s[1..], i - 1);
      assert s[..i + 1][1..] == s[1..][..i] && s[..i][1..] == s[1..][..i - 1];
      assert s[i] * Pow256(i) == 256 * (s[i] * Pow256(i - 1)) by {
        assert s[1..][i - 1] == s[i];
        MulSwap(s[i], Pow256(i - 1));
      }
    }
  }

  lemma MulSwap(a: nat, p: nat)
    ensures a * (256 * p) == 256 * (a * p)
  {
  }

  /** The reader's bounds check, the accumulated value and the advanced offset. */
  method ReadUint(buffer: bytes, offset: nat, width: nat) returns (ok: bool, value: nat, next: nat)
    requires offset <= |buffer|
    ensures ok <==> |buffer[offset..]| >= width
    ensures ok ==> next == offset + width && value == FromLe(buffer[offset..][..width])
    ensures !ok ==> next == offset
  {
    if offset + width > |buffer| {
      return false, 0, offset;
    }
    value := 0;
    ghost var window := buffer[offset..];
    for i := 0 to width
      invariant value == FromLe(window[..i])
    {
      FromLeStep(window, i);
      assert window[i] == buffer[offset + i];
      value := value + buffer[offset + i] * Pow256(i);
    }
    ok, next := true, offset + width;
  }

  method ReadUint32(buffer: bytes, offset: nat) returns (ok: bool, value: nat, next: nat)
    requires offset <= |buffer|
    ensures ok <==> |buffer[offset..]| >= 4
    ensures ok ==> next == offset + 4 && value == U32(buffer[offset..]) && value < TWO_32
    ensures !ok ==> next == offset
  {
    ok, value, next := ReadUint(buffer, offset, 4);
    if ok {
      FromLeBound(buffer[offset..][..4]);
      PowersOf256();
    }
  }

  method ReadUint64(buffer: bytes, offset: nat) returns (ok: bool, value: nat, next: nat)
    requires offset <= |buffer|
    ensures ok <==> |buffer[offset..]| >= 8
    ensures ok ==> next == offset + 8 && value == U64(buffer[offset..]) && value < TWO_64
    ensures !ok ==> next == offset
  {
    ok, value, next := ReadUint(buffer, offset, 8);
    if ok {
      FromLeBound(buffer[offset..][..8]);
      PowersOf256();
    }
  }

  // ---------------------------------------------------------------------------
  // Length-prefixed strings
  // ---------------------------------------------------------------------------

  function Sized(s: bytes): (r: bytes)
  {
    Le32(|s|) + s
  }

  datatype SizedResult = NoString | GotString(text: bytes, rest: bytes)

  /** A length-prefixed string at the front of s, and what follows it. */
  function TakeSized(s: bytes, limit: nat): SizedResult
  {
    if |s| < 4 then NoString
    else
      var n := U32(s);
      if n > limit || n > |s| - 4 then NoString else GotString(s[4..][..n], s[4..][n..])
  }

  /** The same at an offset of a longer buffer. */
  lemma TakeSizedAt(buffer: bytes, offset: nat, limit: nat)
    requires offset <= |buffer|
    ensures |buffer| - offset < 4 ==> TakeSized(buffer[offset..], limit) == NoString
    ensures |buffer| - offset >= 4 ==>
              var n := U32(buffer[offset..]);
              TakeSized(buffer[offset..], limit)
              == if n > limit || n > |buffer| - offset - 4 then NoString
                 else GotString(buffer[offset + 4..offset + 4 + n], buffer[offset + 4 + n..])
  {
    hide U32;
    if |buffer| - offset >= 4 {
      var n := U32(buffer[offset..]);
      if n <= |buffer| - offset - 4 {
        assert buffer[offset..][4..][..n] == buffer[offset + 4..offset + 4 + n];
        assert buffer[offset..][4..][n..] == buffer[offset + 4 + n..];
      }
    }
  }

  lemma TakeSizedOfSized(s: bytes, rest: bytes, limit: nat)
    requires |s| <= limit && |s| < TWO_32
    ensures TakeSized(Sized(s) + rest, limit) == GotString(s, rest)
  {
    hide Le32, U32;
    assert Sized(s) + rest == Le32(|s|) + (s + rest);
    U32OfLe32(|s|, s + rest);
    assert (s + rest)[..|s|] == s && (s + rest)[|s|..] == rest;
  }

  lemma SizedOfTakeSized(s: bytes, limit: nat)
    requires TakeSized(s, limit).GotString?
    ensures var GotString(t, rest) := TakeSized(s, limit); |t| <= limit && s == Sized(t) + rest
  {
    hide Le32, U32;
    Le32OfU32(s);
    assert s == s[..4] + s[4..];
    var n := U32(s);
    assert s[4..] == s[4..][..n] + s[4..][n..];
  }
}
