/** Byte strings (the std::string of the source), their little-endian integers and their order. */
module Bytes {

  type byte = b: int | 0 <= b < 256

  type bytes = seq<byte>

  datatype Option<+T> = None | Some(value: T)

  /** The bytes of an ASCII literal. */
  function Ascii(s: string): (r: bytes)
    ensures |r| == |s| && forall i :: 0 <= i < |s| ==> r[i] == (s[i] as int) % 256
  {
    if s == [] then [] else [(s[0] as int) % 256] + Ascii(s[1..])
  }

  // ---------------------------------------------------------------------------
  // Little-endian integers of n bytes
  // ---------------------------------------------------------------------------

  function Pow256(n: nat): (p: nat)
    ensures p > 0
  {
    if n == 0 then 1 else 256 * Pow256(n - 1)
  }

  const TWO_32: nat := 0x1_0000_0000
  const TWO_64: nat := 0x1_0000_0000_0000_0000

  lemma PowersOf256()
    ensures Pow256(4) == TWO_32 && Pow256(8) == TWO_64
  {
    assert Pow256(2) == 65536;
    assert Pow256(4) == TWO_32;
    assert Pow256(6) == 65536 * TWO_32;
  }

  /** The low n bytes of v, least significant first. */
  function Le(v: nat, n: nat): (r: bytes)
    ensures |r| == n
  {
    if n == 0 then [] else [v % 256] + Le(v / 256, n - 1)
  }

  /** The number whose bytes, least significant first, are s. */
  function FromLe(s: bytes): nat
  {
    if s == [] then 0 else s[0] + 256 * FromLe(s[1..])
  }

  lemma {:induction false} FromLeBound(s: bytes)
    ensures FromLe(s) < Pow256(|s|)
  {
    if s != [] {
      FromLeBound(s[1..]);
    }
  }

  /** Decoding an encoding gives back the value truncated to n bytes. */
  lemma {:induction false} FromLeOfLe(v: nat, n: nat)
    ensures FromLe(Le(v, n)) == v % Pow256(n)
  {
    if n > 0 {
      FromLeOfLe(v / 256, n - 1);
      ModSplit(v, Pow256(n - 1));
      assert Le(v, n)[1..] == Le(v / 256, n - 1);
    }
  }

  lemma ModSplit(v: nat, p: nat)
    requires p > 0
    ensures v % (256 * p) == v % 256 + 256 * ((v / 256) % p)
  {
    var q, r := v / 256, v % 256;
    var a, b := q / p, q % p;
    assert v == 256 * (a * p + b) + r;
    assert v == (256 * p) * a + (256 * b + r);
    assert 256 * b + r < 256 * p;
    DivModUnique(v, 256 * p, a, 256 * b + r);
  }

  lemma DivModUnique(v: nat, d: nat, q: nat, r: nat)
    requires d > 0 && v == d * q + r && r < d
    ensures v / d == q && v % d == r
  {
    var q', r' := v / d, v % d;
    assert v == d * q' + r';
    if q > q' {
      MulGap(d, q, q');
    } else if q < q' {
      MulGap(d, q', q);
    }
  }

  lemma MulGap(d: nat, hi: nat, lo: nat)
    requires hi > lo
    ensures d * hi >= d * lo + d
  {
    assert d * hi == d * lo + d * (hi - lo);
    if hi > lo + 1 {
      MulGap(d, hi - 1, lo);
      assert d * hi == d * (hi - 1) + d;
    }
  }

  /** Encoding a decoded string gives back the string. */
  lemma {:induction false} LeOfFromLe(s: bytes)
    ensures Le(FromLe(s), |s|) == s
  {
    if s != [] {
      var t := FromLe(s[1..]);
      assert (s[0] + 256 * t) % 256 == s[0] && (s[0] + 256 * t) / 256 == t;
      LeOfFromLe(s[1..]);
    }
  }

  function Le32(v: nat): (r: bytes)
    ensures |r| == 4
  {
    Le(v, 4)
  }

  function Le64(v: nat): (r: bytes)
    ensures |r| == 8
  {
    Le(v, 8)
  }

  function U32(s: bytes): nat
    requires |s| >= 4
  {
    FromLe(s[..4])
  }

  function U64(s: bytes): nat
    requires |s| >= 8
  {
    FromLe(s[..8])
  }

  /** A uint32_t written in front of any bytes is read back, and the rest is left over. */
  lemma U32OfLe32(v: nat, rest: bytes)
    ensures |Le32(v) + rest| >= 4
    ensures U32(Le32(v) + rest) == v % TWO_32
    ensures (Le32(v) + rest)[4..] == rest
  {
    assert (Le32(v) + rest)[..4] == Le32(v);
    FromLeOfLe(v, 4);
    PowersOf256();
  }

  lemma U64OfLe64(v: nat, rest: bytes)
    ensures |Le64(v) + rest| >= 8
    ensures U64(Le64(v) + rest) == v % TWO_64
    ensures (Le64(v) + rest)[8..] == rest
  {
    assert (Le64(v) + rest)[..8] == Le64(v);
    FromLeOfLe(v, 8);
    PowersOf256();
  }

  lemma Le32OfU32(s: bytes)
    requires |s| >= 4
    ensures Le32(U32(s)) == s[..4] && U32(s) < TWO_32
  {
    LeOfFromLe(s[..4]);
    FromLeBound(s[..4]);
    PowersOf256();
  }

  // ---------------------------------------------------------------------------
  // The order of std::string: byte-lexicographic, a proper prefix is smaller
  // ---------------------------------------------------------------------------

  predicate Less(a: bytes, b: bytes)
  {
    b != [] && (a == [] || a[0] < b[0] || (a[0] == b[0] && Less(a[1..], b[1..])))
  }

  lemma {:induction false} LessTrichotomy(a: bytes, b: bytes)
    ensures Less(a, b) || a == b || Less(b, a)
    ensures !(Less(a, b) && Less(b, a))
    ensures !Less(a, a)
  {
    if a != [] {
      LessTrichotomy(a[1..], a[1..]);
      if b != [] {
        LessTrichotomy(a[1..], b[1..]);
        if a[0] == b[0] && a[1..] == b[1..] {
          assert a == [a[0]] + a[1..] && b == [b[0]] + b[1..];
        }
      }
    }
  }

  lemma {:induction false} LessTransitive(a: bytes, b: bytes, c: bytes)
    requires Less(a, b) && Less(b, c)
    ensures Less(a, c)
  {
    if a != [] && a[0] == b[0] == c[0] {
      LessTransitive(a[1..], b[1..], c[1..]);
    }
  }

  /** The first byte that differs decides. */
  lemma {:induction false} LessAtDifference(p: bytes, x: byte, s: bytes, y: byte, t: bytes)
    requires x < y
    ensures Less(p + [x] + s, p + [y] + t)
  {
    var a, b := p + [x] + s, p + [y] + t;
    if p != [] {
      assert a[1..] == p[1..] + [x] + s && b[1..] == p[1..] + [y] + t;
      LessAtDifference(p[1..], x, s, y, t);
    }
  }

  /** A proper prefix is less. */
  lemma {:induction false} LessPrefix(p: bytes, x: byte, s: bytes)
    ensures Less(p, p + [x] + s)
  {
    if p != [] {
      assert (p + [x] + s)[1..] == p[1..] + [x] + s;
      LessPrefix(p[1..], x, s);
    }
  }

  /** Two strings differ at a byte, or one ends first. */
  ghost predicate Before(a: bytes, b: bytes)
  {
    || (exists n :: 0 <= n < |a| && n < |b| && a[..n] == b[..n] && a[n] < b[n])
    || (|a| < |b| && b[..|a|] == a)
  }

  lemma BeforeIsLess(a: bytes, b: bytes)
    requires Before(a, b)
    ensures Less(a, b)
  {
    if |a| < |b| && b[..|a|] == a {
      assert b == a + [b[|a|]] + b[|a| + 1..];
      LessPrefix(a, b[|a|], b[|a| + 1..]);
    } else {
      var n :| 0 <= n < |a| && n < |b| && a[..n] == b[..n] && a[n] < b[n];
      assert a == a[..n] + [a[n]] + a[n + 1..] && b == a[..n] + [b[n]] + b[n + 1..];
      LessAtDifference(a[..n], a[n], a[n + 1..], b[n], b[n + 1..]);
    }
  }

  lemma {:induction false} FirstDifference(a: bytes, b: bytes) returns (n: nat)
    ensures n <= |a| && n <= |b| && a[..n] == b[..n]
    ensures n < |a| && n < |b| ==> a[n] != b[n]
  {
    n := 0;
    while n < |a| && n < |b| && a[n] == b[n]
      invariant n <= |a| && n <= |b| && a[..n] == b[..n]
    {
      n := n + 1;
    }
  }

  lemma SomeBefore(a: bytes, b: bytes)
    ensures Before(a, b) || a == b || Before(b, a)
  {
    var n := FirstDifference(a, b);
    if n == |a| {
      assert a[..n] == a;
      if n == |b| {
        assert b[..n] == b;
      }
    } else if n == |b| {
      assert b[..n] == b;
    }
  }

  /** The order is the one of unsigned bytes at the first difference, a proper prefix coming first. */
  lemma LessIsLexicographic(a: bytes, b: bytes)
    ensures Less(a, b) <==> Before(a, b)
  {
    SomeBefore(a, b);
    LessTrichotomy(a, b);
    hide Less, Before;
    if Before(a, b) {
      BeforeIsLess(a, b);
    }
    if Before(b, a) {
      BeforeIsLess(b, a);
    }
  }
}
