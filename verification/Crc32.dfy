/** The reflected CRC-32 of section 8 of RFC 1952 and section 8.1.1.6.2 of ITU-T V.42. */
module Crc32 {
  import opened Bytes

  const ONES: bv32 := 0xFFFF_FFFF

  function Xor(a: bv32, b: bv32): bv32
  {
    a ^ b
  }

  // ---------------------------------------------------------------------------
  // The bit-at-a-time definition
  // ---------------------------------------------------------------------------

  /** One step of the shift register: divide by x, reducing by the generator when a 1 falls out. */
  function ShiftBit(c: bv32): bv32
  {
    if c & 1 == 1 then (c >> 1) ^ 0xEDB88320 else c >> 1
  }

  function ShiftBits(c: bv32, n: nat): bv32
  {
    if n == 0 then c else ShiftBit(ShiftBits(c, n - 1))
  }

  /** A byte at the low end of the register. */
  function Widen(b: byte): bv32
  {
    (b as bv8) as bv32
  }

  /** The register after `data`, each byte fed in low bit first, starting from c. */
  function Register(c: bv32, data: bytes): bv32
  {
    if data == [] then c
    else ShiftBits(Xor(Register(c, data[..|data| - 1]), Widen(data[|data| - 1])), 8)
  }

  /** The checksum as the number stored in a file: register preset to ones, complemented at the end. */
  function Checksum(data: bytes): (crc: nat)
    ensures crc < TWO_32
  {
    Xor(Register(ONES, data), ONES) as int
  }

  // ---------------------------------------------------------------------------
  // The register step is linear over exclusive or, and loses nothing
  // ---------------------------------------------------------------------------

  lemma XorShift(x: bv32, y: bv32)
    ensures (x ^ y) >> 1 == (x >> 1) ^ (y >> 1)
    ensures (x ^ y) & 1 == (x & 1) ^ (y & 1)
  {
  }

  lemma XorRegroup(a: bv32, b: bv32, p: bv32)
    ensures (a ^ p) ^ b == (a ^ b) ^ p
    ensures a ^ (b ^ p) == (a ^ b) ^ p
    ensures (a ^ p) ^ (b ^ p) == a ^ b
  {
  }

  lemma LowBit(x: bv32)
    ensures x & 1 == 0 || x & 1 == 1
  {
  }

  lemma XorOfBits()
    ensures (1 as bv32) ^ (1 as bv32) == 0 && (1 as bv32) ^ (0 as bv32) == 1
    ensures (0 as bv32) ^ (1 as bv32) == 1 && (0 as bv32) ^ (0 as bv32) == 0
  {
  }

  lemma ShiftBitLinear(x: bv32, y: bv32)
    ensures ShiftBit(Xor(x, y)) == Xor(ShiftBit(x), ShiftBit(y))
  {
    XorShift(x, y);
    LowBit(x);
    LowBit(y);
    XorOfBits();
    XorRegroup(x >> 1, y >> 1, 0xEDB88320);
  }

  lemma {:induction false} ShiftBitsLinear(x: bv32, y: bv32, n: nat)
    ensures ShiftBits(Xor(x, y), n) == Xor(ShiftBits(x, n), ShiftBits(y, n))
  {
    hide ShiftBit, Xor;
    if n > 0 {
      ShiftBitsLinear(x, y, n - 1);
      ShiftBitLinear(ShiftBits(x, n - 1), ShiftBits(y, n - 1));
    }
  }

  lemma ShiftBitInjective(x: bv32)
    requires ShiftBit(x) == 0
    ensures x == 0
  {
  }

  lemma {:induction false} ShiftBitsInjective(x: bv32, n: nat)
    requires ShiftBits(x, n) == 0
    ensures x == 0
  {
    if n > 0 {
      ShiftBitInjective(ShiftBits(x, n - 1));
      ShiftBitsInjective(x, n - 1);
    }
  }

  lemma {:induction false} ShiftBitsAdd(c: bv32, m: nat, n: nat)
    ensures ShiftBits(c, m + n) == ShiftBits(ShiftBits(c, m), n)
  {
    hide ShiftBit;
    if n > 0 {
      ShiftBitsAdd(c, m, n - 1);
    }
  }

  // Low zero bits are only shifted out: doubling from one bit to a byte.

  lemma ShiftZeroBit(c: bv32)
    requires c & 1 == 0
    ensures ShiftBits(c, 1) == c >> 1
  {
    assert ShiftBits(c, 0) == c;
  }

  lemma ShiftZeroPair(c: bv32)
    requires c & 3 == 0
    ensures ShiftBits(c, 2) == c >> 2
  {
    assert c & 1 == 0 && (c >> 1) & 1 == 0 && (c >> 1) >> 1 == c >> 2;
    ShiftZeroBit(c);
    ShiftZeroBit(c >> 1);
    ShiftBitsAdd(c, 1, 1);
  }

  lemma ShiftZeroNibble(c: bv32)
    requires c & 0xF == 0
    ensures ShiftBits(c, 4) == c >> 4
  {
    assert c & 3 == 0 && (c >> 2) & 3 == 0 && (c >> 2) >> 2 == c >> 4;
    ShiftZeroPair(c);
    ShiftZeroPair(c >> 2);
    ShiftBitsAdd(c, 2, 2);
  }

  lemma ShiftZeroByte(c: bv32)
    requires c & 0xFF == 0
    ensures ShiftBits(c, 8) == c >> 8
  {
    assert c & 0xF == 0 && (c >> 4) & 0xF == 0 && (c >> 4) >> 4 == c >> 8;
    ShiftZeroNibble(c);
    ShiftZeroNibble(c >> 4);
    ShiftBitsAdd(c, 4, 4);
  }

  /** One lookup on the low byte does the work of eight bit steps. */
  lemma TableStep(c: bv32)
    ensures Xor(c >> 8, ShiftBits(c & 0xFF, 8)) == ShiftBits(c, 8)
  {
    hide ShiftBits, Xor;
    var hi, lo := c & 0xFFFF_FF00, c & 0xFF;
    SplitLowByte(c);
    ShiftBitsLinear(hi, lo, 8);
    ShiftZeroByte(hi);
  }

  lemma SplitLowByte(c: bv32)
    ensures Xor(c & 0xFFFF_FF00, c & 0xFF) == c
    ensures (c & 0xFFFF_FF00) & 0xFF == 0
    ensures (c & 0xFFFF_FF00) >> 8 == c >> 8
  {
  }

  // ---------------------------------------------------------------------------
  // The table-driven form
  // ---------------------------------------------------------------------------

  /** The function's two static variables: a table, filled at the first call. */
  class Calculator {
    const table: array<bv32>
    var initialized: bool

    ghost predicate Valid()
      reads this, table
    {
      && table.Length == 256
      && (initialized ==> forall i :: 0 <= i < 256 ==> table[i] == ShiftBits(i as bv32, 8))
    }

    constructor ()
      ensures Valid() && fresh(table)
    {
      table := new bv32[256];
      initialized := false;
    }

    /** crc32.cpp:12-28: the table holds, for each byte, the register after eight bit steps. */
    method Initialize()
      requires Valid()
      modifies this, table
      ensures Valid() && initialized
    {
      if !initialized {
        for i := 0 to 256
          invariant forall j :: 0 <= j < i ==> table[j] == ShiftBits(j as bv32, 8)
        {
          var crc := i as bv32;
          for bit := 0 to 8
            invariant crc == ShiftBits(i as bv32, bit)
          {
            if crc & 1 != 0 {
              crc := (crc >> 1) ^ 0xEDB88320;
            } else {
              crc := crc >> 1;
            }
          }
          table[i] := crc;
        }
        initialized := true;
      }
    }

    method Calculate(data: bytes) returns (result: nat)
      requires Valid()
      modifies this, table
      ensures Valid()
      ensures result == Checksum(data)
    {
      Initialize();
      var crc := ONES;
      for i := 0 to |data|
        invariant Valid() && initialized
        invariant crc == Register(ONES, data[..i])
      {
        hide Xor, ShiftBits, Widen;
        var mixed := Xor(crc, Widen(data[i]));
        var index := mixed & 0xFF;
        IndexInRange(mixed);
        crc := Xor(crc >> 8, table[index as int]);
        TableStep(mixed);
        ShiftDropsByte(ONES, data[..i], data[i]);
        assert data[..i + 1][..i] == data[..i];
      }
      assert data[..|data|] == data;
      result := Xor(crc, ONES) as int;
    }
  }

  lemma IndexInRange(x: bv32)
    ensures (x & 0xFF) as int < 256
    ensures ((x & 0xFF) as int) as bv32 == x & 0xFF
  {
    LowByteSmall(x);
    SmallAsInt(x & 0xFF);
    IntAndBack(x & 0xFF);
  }

  lemma LowByteSmall(x: bv32)
    ensures x & 0xFF < 256
  {
  }

  lemma SmallAsInt(x: bv32)
    requires x < 256
    ensures x as int < 256
  {
  }

  lemma IntAndBack(x: bv32)
    ensures (x as int) as bv32 == x
  {
  }

  lemma ShiftDropsByte(start: bv32, before: bytes, b: byte)
    ensures Xor(Register(start, before), Widen(b)) >> 8 == Register(start, before) >> 8
  {
    DropByte(Register(start, before), b as bv8);
  }

  lemma DropByte(c: bv32, b: bv8)
    ensures Xor(c, b as bv32) >> 8 == c >> 8
  {
  }

  /** calculate_crc32 as the codecs call it. */
  method CalculateCrc32(data: bytes) returns (crc: nat)
    ensures crc == Checksum(data)
  {
    var calculator := new Calculator();
    crc := calculator.Calculate(data);
  }
}
