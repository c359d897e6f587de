/** Damage within four consecutive bytes always changes the checksum. */
module BurstErrors {
  import opened Bytes
  import opened Crc32

  lemma XorCancels(x: bv32, y: bv32)
    ensures Xor(x, y) == 0 <==> x == y
  {
  }

  /** Eight register steps never merge two states. */
  lemma StepInjective(x: bv32, y: bv32)
    requires ShiftBits(x, 8) == ShiftBits(y, 8)
    ensures x == y
  {
    hide Xor, ShiftBits;
    ShiftBitsLinear(x, y, 8);
    XorCancels(ShiftBits(x, 8), ShiftBits(y, 8));
    ShiftBitsInjective(Xor(x, y), 8);
    XorCancels(x, y);
  }

  lemma XorRightInjective(x: bv32, y: bv32, z: bv32)
    requires Xor(x, z) == Xor(y, z)
    ensures x == y
  {
  }

  /** Equal bytes keep different registers different. */
  lemma {:induction false} RegisterInjective(c: bv32, d: bv32, data: bytes)
    requires Register(c, data) == Register(d, data)
    ensures c == d
  {
    hide Xor, ShiftBits, Widen;
    if data != [] {
      var init, w := data[..|data| - 1], Widen(data[|data| - 1]);
      StepInjective(Xor(Register(c, init), w), Xor(Register(d, init), w));
      XorRightInjective(Register(c, init), Register(d, init), w);
      RegisterInjective(c, d, init);
    }
  }

  lemma {:induction false} RegisterConcat(c: bv32, x: bytes, y: bytes)
    ensures Register(c, x + y) == Register(Register(c, x), y)
  {
    hide Xor, ShiftBits, Widen;
    if y == [] {
      assert x + y == x;
    } else {
      var init := y[..|y| - 1];
      assert (x + y)[..|x + y| - 1] == x + init;
      RegisterConcat(c, x, init);
    }
  }

  /** 2 to the 8k. */
  function Limit(k: nat): bv32
    requires k <= 3
  {
    if k == 0 then 1 else if k == 1 then 0x100 else if k == 2 then 0x1_0000 else 0x100_0000
  }

  predicate Below(x: bv32, k: nat)
    requires k <= 3
  {
    x < Limit(k)
  }

  /** Undoing one byte step: a small difference grows by one byte at most. */
  lemma UndoStep(c: bv32, d: bv32, v: byte, w: byte, k: nat)
    requires k <= 2
    requires Below(Xor(ShiftBits(Xor(c, Widen(v)), 8), ShiftBits(Xor(d, Widen(w)), 8)), k)
    ensures Below(Xor(c, d), k + 1)
  {
    hide Xor, ShiftBits, Widen, Limit;
    var x, y := Xor(c, Widen(v)), Xor(d, Widen(w));
    var diff := Xor(ShiftBits(x, 8), ShiftBits(y, 8));
    ShiftBitsLinear(x, y, 8);
    SmallLimits(diff, k);
    UndoSmall(Xor(x, y), diff);
    XorSolve(c, d, Widen(v), Widen(w), diff << 8);
    AppendByteBound(diff, v as bv8, w as bv8, k);
    WidenIsCast(v);
    WidenIsCast(w);
  }

  lemma WidenIsCast(v: byte)
    ensures Widen(v) == (v as bv8) as bv32
  {
  }

  lemma XorAlgebra(a: bv32, b: bv32, c: bv32)
    ensures Xor(a, b) == Xor(b, a)
    ensures Xor(Xor(a, b), c) == Xor(a, Xor(b, c))
    ensures Xor(a, Xor(a, b)) == b
  {
  }

  lemma XorPairs(c: bv32, d: bv32, v: bv32, w: bv32)
    ensures Xor(Xor(c, v), Xor(d, w)) == Xor(Xor(c, d), Xor(v, w))
  {
    hide Xor;
    XorAlgebra(c, v, Xor(d, w));
    XorAlgebra(v, d, w);
    XorAlgebra(d, v, w);
    XorAlgebra(c, d, Xor(v, w));
  }

  lemma XorSolve(c: bv32, d: bv32, v: bv32, w: bv32, z: bv32)
    requires Xor(Xor(c, v), Xor(d, w)) == z
    ensures Xor(c, d) == Xor(z, Xor(v, w))
  {
    hide Xor;
    XorPairs(c, d, v, w);
    var e, u := Xor(c, d), Xor(v, w);
    XorAlgebra(e, u, z);
    XorAlgebra(u, z, z);
    XorAlgebra(u, e, z);
  }

  lemma AppendByteBound(diff: bv32, v: bv8, w: bv8, k: nat)
    requires k <= 2 && Below(diff, k)
    ensures Below(Xor(diff << 8, Xor(v as bv32, w as bv32)), k + 1)
  {
    AppendByteMask(diff, v, w);
  }

  lemma AppendByteMask(diff: bv32, v: bv8, w: bv8)
    ensures diff < 0x1 ==> (diff << 8) ^ ((v as bv32) ^ (w as bv32)) < 0x100
    ensures diff < 0x100 ==> (diff << 8) ^ ((v as bv32) ^ (w as bv32)) < 0x1_0000
    ensures diff < 0x1_0000 ==> (diff << 8) ^ ((v as bv32) ^ (w as bv32)) < 0x100_0000
  {
  }

  lemma SmallLimits(diff: bv32, k: nat)
    requires k <= 2 && Below(diff, k)
    ensures diff < 0x100_0000
  {
  }

  lemma ShiftUpDown(diff: bv32)
    requires diff < 0x100_0000
    ensures (diff << 8) & 0xFF == 0 && (diff << 8) >> 8 == diff
  {
  }

  lemma UndoSmall(z: bv32, diff: bv32)
    requires diff < 0x100_0000 && ShiftBits(z, 8) == diff
    ensures z == diff << 8
  {
    hide ShiftBits;
    var up := diff << 8;
    ShiftUpDown(diff);
    ShiftZeroByte(up);
    StepInjective(z, up);
  }

  /** Registers that agree up to k low bytes after m more bytes agreed up to k + m low bytes before them. */
  lemma {:induction false} DifferenceBound(c: bv32, d: bv32, x: bytes, y: bytes, k: nat)
    requires |x| == |y| && k + |x| <= 3
    requires Below(Xor(Register(c, x), Register(d, y)), k)
    ensures Below(Xor(c, d), k + |x|)
  {
    hide Xor, ShiftBits, Widen, Below;
    if x != [] {
      var n := |x| - 1;
      UndoStep(Register(c, x[..n]), Register(d, y[..n]), x[n], y[n], k);
      DifferenceBound(c, d, x[..n], y[..n], k + 1);
    }
  }

  lemma FirstByteSame(c: bv32, a: byte, b: byte, k: nat)
    requires k <= 3
    requires Below(Xor(ShiftBits(Xor(c, Widen(a)), 8), ShiftBits(Xor(c, Widen(b)), 8)), k)
    ensures a == b
  {
    hide Xor, ShiftBits, Widen;
    var x, y := Xor(c, Widen(a)), Xor(c, Widen(b));
    var diff := Xor(ShiftBits(x, 8), ShiftBits(y, 8));
    ShiftBitsLinear(x, y, 8);
    UndoSmall(Xor(x, y), diff);
    WidenIsCast(a);
    WidenIsCast(b);
    SameByte(c, a as bv8, b as bv8, diff);
    WidenIsInjective(a, b);
  }

  lemma SameByte(c: bv32, a: bv8, b: bv8, diff: bv32)
    requires Xor(Xor(c, a as bv32), Xor(c, b as bv32)) == diff << 8
    ensures a == b
  {
    XorSelf(c, a as bv32, b as bv32);
    LowByteZero(diff);
    LowBytes(a, b);
  }

  lemma XorSelf(c: bv32, v: bv32, w: bv32)
    ensures Xor(Xor(c, v), Xor(c, w)) == v ^ w
  {
    assert Xor(Xor(c, v), Xor(c, w)) == Xor(v, w) by {
      hide Xor;
      XorAlgebra(c, v, Xor(c, w));
      XorAlgebra(v, c, w);
      XorAlgebra(v, c, Xor(c, w));
      XorAlgebra(c, w, w);
    }
  }

  lemma LowByteZero(diff: bv32)
    ensures (diff << 8) & 0xFF == 0
  {
  }

  lemma LowBytes(a: bv8, b: bv8)
    requires ((a as bv32) ^ (b as bv32)) & 0xFF == 0
    ensures a == b
  {
  }

  /** The 8 bits reached by counting up to b. */
  function Counted(b: byte): bv8
  {
    if b == 0 then 0 else Counted(b - 1) + 1
  }

  lemma CountOne(x: bv8)
    requires x < 255
    ensures (x + 1) as int == x as int + 1
  {
  }

  lemma LastCount(x: bv8)
    ensures x < 255 || x as int == 255
  {
  }

  lemma {:induction false} CountedIs(b: byte)
    ensures Counted(b) as int == b
  {
    if b > 0 {
      CountedIs(b - 1);
      LastCount(Counted(b - 1));
      CountOne(Counted(b - 1));
    }
  }

  lemma Bv8AndBack(x: bv8)
    ensures (x as int) as bv8 == x
  {
  }

  lemma ByteOfBv8(b: byte)
    ensures (b as bv8) as int == b
  {
    CountedIs(b);
    Bv8AndBack(Counted(b));
  }

  lemma WidenIsInjective(a: byte, b: byte)
    requires a as bv8 == b as bv8
    ensures a == b
  {
    ByteOfBv8(a);
    ByteOfBv8(b);
  }

  lemma RegisterOfOne(c: bv32, b: byte)
    ensures Register(c, [b]) == ShiftBits(Xor(c, Widen(b)), 8)
  {
    hide Xor, ShiftBits, Widen;
    assert [b][..0] == [];
  }

  /** From one register state, four bytes lead to different states unless they are the same four bytes. */
  lemma {:induction false} FourBytesInjective(c: bv32, a: bytes, b: bytes)
    requires |a| == |b| <= 4
    requires Register(c, a) == Register(c, b)
    ensures a == b
    decreases |a|
  {
    hide Xor, ShiftBits, Widen, Register, Limit;
    if a != [] {
      assert a == [a[0]] + a[1..] && b == [b[0]] + b[1..];
      RegisterConcat(c, [a[0]], a[1..]);
      RegisterConcat(c, [b[0]], b[1..]);
      var c', d' := Register(c, [a[0]]), Register(c, [b[0]]);
      SameIsBelow(Register(c', a[1..]), Register(d', b[1..]));
      DifferenceBound(c', d', a[1..], b[1..], 0);
      RegisterOfOne(c, a[0]);
      RegisterOfOne(c, b[0]);
      FirstByteSame(c, a[0], b[0], |a| - 1);
      FourBytesInjective(c', a[1..], b[1..]);
    }
  }

  lemma SameIsBelow(x: bv32, y: bv32)
    requires x == y
    ensures Below(Xor(x, y), 0)
  {
  }

  lemma ComplementInjective(x: bv32, y: bv32)
    requires Xor(x, ONES) as int == Xor(y, ONES) as int
    ensures x == y
  {
    IntAndBack(Xor(x, ONES));
    IntAndBack(Xor(y, ONES));
  }

  /** Two payloads of one length that differ only within four consecutive bytes have different checksums. */
  lemma BurstChangesChecksum(before: bytes, a: bytes, b: bytes, after: bytes)
    requires |a| == |b| <= 4 && a != b
    ensures Checksum(before + a + after) != Checksum(before + b + after)
  {
    hide Xor;
    if Checksum(before + a + after) == Checksum(before + b + after) {
      ComplementInjective(Register(ONES, before + a + after), Register(ONES, before + b + after));
      RegisterConcat(ONES, before + a, after);
      RegisterConcat(ONES, before + b, after);
      RegisterInjective(Register(ONES, before + a), Register(ONES, before + b), after);
      RegisterConcat(ONES, before, a);
      RegisterConcat(ONES, before, b);
      FourBytesInjective(Register(ONES, before), a, b);
    }
  }
}
