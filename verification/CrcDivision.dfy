/**
 * What the shift register computes: the remainder of a division of polynomials over the two-element field by
 * the generator of section 8.1.1.6.2 of ITU-T V.42, with the coefficients of a register in reverse order.
 */
module CrcDivision {
  import opened Bytes
  import opened Crc32

  // ---------------------------------------------------------------------------
  // Polynomials
  // ---------------------------------------------------------------------------

  /** A polynomial over the two-element field is the set of its exponents. */
  type Poly = set<nat>

  function Add(p: Poly, q: Poly): Poly
  {
    (p - q) + (q - p)
  }

  /** p times x to the k. */
  function Times(p: Poly, k: nat): Poly
  {
    set e | e in p :: e + k
  }

  /** The unreflected generator, 0x104C11DB7. */
  const GENERATOR: Poly := {32, 26, 23, 22, 16, 12, 11, 10, 8, 7, 5, 4, 2, 1, 0}

  /** The generator times a quotient whose coefficients are given from the highest down. */
  function Product(quotient: seq<bool>): Poly
  {
    if quotient == [] then {}
    else
      var n := |quotient| - 1;
      Add(Times(Product(quotient[..n]), 1), if quotient[n] then GENERATOR else {})
  }

  /** r is what is left of p after division by the generator. */
  ghost predicate IsRemainder(p: Poly, r: Poly)
  {
    (forall e :: e in r ==> e < 32) && exists quotient: seq<bool> :: p == Add(Product(quotient), r)
  }

  function Half(c: bv32): bv32
  {
    c >> 1
  }

  predicate IsOdd(c: bv32)
  {
    c & 1 == 1
  }

  predicate Bit(c: bv32, i: nat)
    decreases i
  {
    if i == 0 then IsOdd(c) else Bit(Half(c), i - 1)
  }

  /** The coefficient of x to the e in a word of n bits, its lowest bit counting highest. */
  predicate Coefficient(c: bv32, n: nat, e: nat)
  {
    e < n && Bit(c, n - 1 - e)
  }

  /** The polynomial of a register. */
  function Reflected(c: bv32): Poly
  {
    set e: nat | e < 32 && Coefficient(c, 32, e)
  }

  /** The polynomial of a byte, whose lowest bit is sent first. */
  function OfByte(b: byte): Poly
  {
    set e: nat | e < 8 && Coefficient(Widen(b), 8, e)
  }

  /** A message's polynomial. */
  function Message(data: bytes): Poly
  {
    if data == [] then {} else Add(Times(Message(data[..|data| - 1]), 8), OfByte(data[|data| - 1]))
  }

  // ---------------------------------------------------------------------------
  // Laws
  // ---------------------------------------------------------------------------

  lemma AddLaws(p: Poly, q: Poly, r: Poly)
    ensures Add(p, q) == Add(q, p)
    ensures Add(Add(p, q), r) == Add(p, Add(q, r))
    ensures Add(p, {}) == p && Add({}, p) == p && Add(p, p) == {}
  {
  }

  lemma TimesIn(p: Poly, k: nat, e: nat)
    ensures e in Times(p, k) <==> e >= k && (e - k) in p
  {
    if e >= k && (e - k) in p {
      assert e == (e - k) + k;
    }
  }

  lemma TimesAdd(p: Poly, q: Poly, k: nat)
    ensures Times(Add(p, q), k) == Add(Times(p, k), Times(q, k))
  {
    hide Times;
    forall e: nat
      ensures e in Times(Add(p, q), k) <==> e in Add(Times(p, k), Times(q, k))
    {
      TimesIn(Add(p, q), k, e);
      TimesIn(p, k, e);
      TimesIn(q, k, e);
    }
  }

  lemma TimesTimes(p: Poly, j: nat, k: nat)
    ensures Times(Times(p, j), k) == Times(p, j + k)
    ensures Times(p, 0) == p && Times({}, k) == {}
  {
    hide Times;
    forall e: nat
      ensures e in Times(Times(p, j), k) <==> e in Times(p, j + k)
      ensures e in Times(p, 0) <==> e in p
      ensures e !in Times({}, k)
    {
      TimesIn(Times(p, j), k, e);
      if e >= k {
        TimesIn(p, j, e - k);
      }
      TimesIn(p, j + k, e);
      TimesIn(p, 0, e);
      TimesIn({}, k, e);
    }
  }

  lemma Exchange(a: Poly, b: Poly, c: Poly, d: Poly)
    ensures Add(Add(a, b), Add(c, d)) == Add(Add(a, c), Add(b, d))
  {
    hide Add;
    AddLaws(a, b, Add(c, d));
    AddLaws(b, c, d);
    AddLaws(c, b, d);
    AddLaws(a, c, Add(b, d));
  }

  lemma ProductSnoc(q: seq<bool>, b: bool)
    ensures Product(q + [b]) == Add(Times(Product(q), 1), if b then GENERATOR else {})
  {
    assert (q + [b])[..|q + [b]| - 1] == q;
    hide Add, Times;
  }

  /** Quotients in a row: the first counts that much higher. */
  lemma {:induction false} ProductConcat(p: seq<bool>, q: seq<bool>)
    ensures Product(p + q) == Add(Times(Product(p), |q|), Product(q))
  {
    hide *;
    if q == [] {
      assert p + q == p;
      ProductNone();
      TimesTimes(Product(p), 0, 0);
      AddLaws(Product(p), {}, {});
    } else {
      var n := |q| - 1;
      var init, b := q[..n], q[n];
      assert p + q == p + init + [b] && q == init + [b];
      ProductConcat(p, init);
      ProductSnoc(p + init, b);
      ProductSnoc(init, b);
      TimesAdd(Times(Product(p), n), Product(init), 1);
      TimesTimes(Product(p), n, 1);
      AddLaws(Times(Product(p), n + 1), Times(Product(init), 1), if b then GENERATOR else {});
    }
  }

  lemma ProductNone()
    ensures Product([]) == {}
  {
  }

  // ---------------------------------------------------------------------------
  // One step of the register
  // ---------------------------------------------------------------------------

  lemma HalfXor(x: bv32, y: bv32)
    ensures Half(Xor(x, y)) == Xor(Half(x), Half(y))
  {
  }

  lemma OddXor(x: bv32, y: bv32)
    ensures IsOdd(Xor(x, y)) <==> IsOdd(x) != IsOdd(y)
  {
  }

  lemma {:induction false} BitXor(x: bv32, y: bv32, i: nat)
    ensures Bit(Xor(x, y), i) <==> Bit(x, i) != Bit(y, i)
    decreases i
  {
    hide Half, IsOdd, Xor;
    HalfXor(x, y);
    OddXor(x, y);
    if i > 0 {
      BitXor(Half(x), Half(y), i - 1);
    }
  }

  function Half8(c: bv32): bv32
  {
    Half(Half(Half(Half(Half(Half(Half(Half(c))))))))
  }

  function Shift8(c: bv32): bv32
  {
    c >> 8
  }

  lemma Half8Is(c: bv32)
    ensures Half8(c) == Shift8(c)
  {
  }

  lemma ShiftAll(c: bv32)
    ensures Shift8(Shift8(Shift8(Shift8(c)))) == 0
  {
  }

  lemma Half32Is(c: bv32)
    ensures Half8(Half8(Half8(Half8(c)))) == 0
  {
    hide Half8, Shift8;
    Half8Is(c);
    Half8Is(Shift8(c));
    Half8Is(Shift8(Shift8(c)));
    Half8Is(Shift8(Shift8(Shift8(c))));
    ShiftAll(c);
  }

  lemma NextBit(c: bv32, i: nat)
    ensures Bit(c, i + 1) == Bit(Half(c), i)
    ensures Bit(c, 0) == IsOdd(c)
  {
    hide Half, IsOdd;
  }

  lemma EightBits(c: bv32, i: nat)
    ensures Bit(c, i + 8) == Bit(Half8(c), i)
  {
    hide Half, IsOdd, Bit;
    var c1 := Half(c);
    var c2 := Half(c1);
    var c3 := Half(c2);
    var c4 := Half(c3);
    var c5 := Half(c4);
    var c6 := Half(c5);
    var c7 := Half(c6);
    NextBit(c, i + 7);
    NextBit(c1, i + 6);
    NextBit(c2, i + 5);
    NextBit(c3, i + 4);
    NextBit(c4, i + 3);
    NextBit(c5, i + 2);
    NextBit(c6, i + 1);
    NextBit(c7, i);
  }

  lemma ZeroIsEven()
    ensures !IsOdd(0)
  {
  }

  /** A register has 32 bits. */
  lemma NoBit32(c: bv32)
    ensures !Bit(c, 32)
  {
    hide Bit, Half8, IsOdd;
    EightBits(c, 24);
    EightBits(Half8(c), 16);
    EightBits(Half8(Half8(c)), 8);
    EightBits(Half8(Half8(Half8(c))), 0);
    Half32Is(c);
    ZeroIsEven();
    NextBit(0, 0);
  }

  /** The reflected constant, a byte at a time. */
  lemma GeneratorBytes()
    ensures Half8(0xEDB88320) == 0xEDB883 && Half8(0xEDB883) == 0xEDB8 && Half8(0xEDB8) == 0xED
  {
    hide Half8;
    Half8Is(0xEDB88320);
    Half8Is(0xEDB883);
    Half8Is(0xEDB8);
  }

  lemma OddBits(c: bv32)
    ensures Bit(c, 0) == IsOdd(c) && Bit(c, 1) == IsOdd(Half(c)) && Bit(c, 2) == IsOdd(Half(Half(c)))
    ensures Bit(c, 3) == IsOdd(Half(Half(Half(c)))) && Bit(c, 4) == Bit(Half(Half(Half(Half(c)))), 0)
    ensures Bit(c, 5) == Bit(Half(Half(Half(Half(c)))), 1)
    ensures Bit(c, 6) == Bit(Half(Half(Half(Half(c)))), 2)
    ensures Bit(c, 7) == Bit(Half(Half(Half(Half(c)))), 3)
  {
    hide Bit, Half, IsOdd;
    NextBit(c, 0); NextBit(c, 1); NextBit(c, 2); NextBit(c, 3); NextBit(c, 4); NextBit(c, 5); NextBit(c, 6);
    var d := Half(c);
    NextBit(d, 0); NextBit(d, 1); NextBit(d, 2); NextBit(d, 3); NextBit(d, 4); NextBit(d, 5);
    var e := Half(d);
    NextBit(e, 0); NextBit(e, 1); NextBit(e, 2); NextBit(e, 3); NextBit(e, 4);
    var f := Half(e);
    NextBit(f, 0); NextBit(f, 1); NextBit(f, 2); NextBit(f, 3);
  }

  lemma OddTests(c: bv32)
    ensures IsOdd(c) <==> c & 1 == 1
    ensures IsOdd(Half(c)) <==> c & 2 == 2
    ensures IsOdd(Half(Half(c))) <==> c & 4 == 4
    ensures IsOdd(Half(Half(Half(c)))) <==> c & 8 == 8
  {
  }

  lemma Half4Is(c: bv32)
    ensures Half(Half(Half(Half(c)))) == c >> 4
  {
  }

  lemma LowByte(c: bv32)
    ensures Bit(c, 0) == (c & 1 == 1) && Bit(c, 1) == (c & 2 == 2) && Bit(c, 2) == (c & 4 == 4) && Bit(c, 3) == (c & 8 == 8)
    ensures Bit(c, 4) == (c & 16 == 16) && Bit(c, 5) == (c & 32 == 32) && Bit(c, 6) == (c & 64 == 64) && Bit(c, 7) == (c & 128 == 128)
  {
    hide Bit, Half, IsOdd;
    OddBits(c);
    OddBits(c >> 4);
    OddTests(c);
    OddTests(c >> 4);
    Half4Is(c);
    HighTests(c);
  }

  lemma HighTests(c: bv32)
    ensures (c >> 4) & 1 == 1 <==> c & 16 == 16
    ensures (c >> 4) & 2 == 2 <==> c & 32 == 32
    ensures (c >> 4) & 4 == 4 <==> c & 64 == 64
    ensures (c >> 4) & 8 == 8 <==> c & 128 == 128
  {
  }

  lemma ByteOf(c: bv32, k: nat)
    requires k < 8
    ensures Bit(c, k) == (c & PowerOf(k) == PowerOf(k))
  {
    hide Bit;
    LowByte(c);
  }

  function PowerOf(k: nat): bv32
    requires k < 8
  {
    if k == 0 then 1 else if k == 1 then 2 else if k == 2 then 4 else if k == 3 then 8
    else if k == 4 then 16 else if k == 5 then 32 else if k == 6 then 64 else 128
  }

  lemma LowestByte(k: nat)
    requires k < 8
    ensures Bit(0xEDB88320, k) <==> k == 5
  {
    hide Bit;
    ByteOf(0xEDB88320, k);
  }

  lemma SecondByte(k: nat)
    requires k < 8
    ensures Bit(0xEDB883, k) <==> k == 0 || k == 1 || k == 7
  {
    hide Bit;
    ByteOf(0xEDB883, k);
  }

  lemma ThirdByte(k: nat)
    requires k < 8
    ensures Bit(0xEDB8, k) <==> k == 3 || k == 4 || k == 5 || k == 7
  {
    hide Bit;
    ByteOf(0xEDB8, k);
  }

  lemma HighestByte(k: nat)
    requires k < 8
    ensures Bit(0xED, k) <==> k == 0 || k == 2 || k == 3 || k == 5 || k == 6 || k == 7
  {
    hide Bit;
    ByteOf(0xED, k);
  }

  /** The reflected constant holds the generator's coefficients below x to the 32. */
  lemma GeneratorBits(i: nat)
    requires i < 32
    ensures Bit(0xEDB88320, i) <==> 31 - i in GENERATOR
  {
    hide Bit, Half8;
    GeneratorBytes();
    if i < 8 {
      LowestByte(i);
    } else if i < 16 {
      EightBits(0xEDB88320, i - 8);
      SecondByte(i - 8);
    } else if i < 24 {
      EightBits(0xEDB88320, i - 8);
      EightBits(0xEDB883, i - 16);
      ThirdByte(i - 16);
    } else {
      EightBits(0xEDB88320, i - 8);
      EightBits(0xEDB883, i - 16);
      EightBits(0xEDB8, i - 24);
      HighestByte(i - 24);
    }
  }

  lemma ReflectedIn(c: bv32, e: nat)
    ensures e in Reflected(c) <==> e < 32 && Bit(c, 31 - e)
  {
    hide Bit;
  }

  lemma StepBits(c: bv32)
    ensures ShiftBit(c) == if IsOdd(c) then Xor(Half(c), 0xEDB88320) else Half(c)
  {
  }

  lemma GeneratorTop()
    ensures 32 in GENERATOR && forall e :: e in GENERATOR ==> e <= 32
  {
  }

  /** One exponent of the step: what was one lower, or the generator's. */
  lemma StepExponent(c: bv32, e: nat)
    ensures e in Times(Reflected(c), 1) <==>
              ((e in Reflected(ShiftBit(c))) != (IsOdd(c) && e in GENERATOR))
  {
    hide Reflected, Bit, Half, IsOdd, Xor, ShiftBit, Times, GENERATOR;
    TimesIn(Reflected(c), 1, e);
    ReflectedIn(ShiftBit(c), e);
    StepBits(c);
    GeneratorTop();
    if e > 0 {
      ReflectedIn(c, e - 1);
    }
    if e < 32 {
      NextBit(c, 31 - e);
      BitXor(Half(c), 0xEDB88320, 31 - e);
      GeneratorBits(31 - e);
      if e == 0 {
        NoBit32(c);
      }
    } else if e == 32 {
      NextBit(c, 0);
    }
  }

  /** A bit step multiplies by x and takes the generator off when the degree reaches 32. */
  lemma StepDivides(c: bv32)
    ensures Times(Reflected(c), 1) == Add(Reflected(ShiftBit(c)), if IsOdd(c) then GENERATOR else {})
  {
    hide Reflected, Bit, Half, IsOdd, Xor, ShiftBit, Times, GENERATOR;
    forall e: nat
      ensures e in Times(Reflected(c), 1) <==> e in Add(Reflected(ShiftBit(c)), if IsOdd(c) then GENERATOR else {})
    {
      StepExponent(c, e);
    }
  }

  lemma ShiftBitsSplit(c: bv32, n: nat)
    ensures ShiftBits(c, 0) == c && ShiftBits(c, n + 1) == ShiftBit(ShiftBits(c, n))
  {
    hide ShiftBit;
  }

  /** n bit steps divide by the generator, one quotient coefficient each. */
  lemma {:induction false} StepsDivide(c: bv32, n: nat) returns (quotient: seq<bool>)
    ensures |quotient| == n
    ensures Times(Reflected(c), n) == Add(Product(quotient), Reflected(ShiftBits(c, n)))
  {
    hide *;
    if n == 0 {
      quotient := [];
      ProductNone();
      ShiftBitsSplit(c, 0);
      TimesTimes(Reflected(c), 0, 0);
      AddLaws(Reflected(c), {}, {});
    } else {
      var before := StepsDivide(c, n - 1);
      var s := ShiftBits(c, n - 1);
      var g: Poly := if IsOdd(s) then GENERATOR else {};
      quotient := before + [IsOdd(s)];
      ShiftBitsSplit(c, n - 1);
      ProductSnoc(before, IsOdd(s));
      TimesTimes(Reflected(c), n - 1, 1);
      TimesAdd(Product(before), Reflected(s), 1);
      StepDivides(s);
      var x, y := Times(Product(before), 1), Reflected(ShiftBit(s));
      AddLaws(x, y, g);
      AddLaws(y, g, {});
      AddLaws(x, g, y);
    }
  }

  // ---------------------------------------------------------------------------
  // The register after a message
  // ---------------------------------------------------------------------------

  lemma ReflectedXor(x: bv32, y: bv32)
    ensures Reflected(Xor(x, y)) == Add(Reflected(x), Reflected(y))
  {
    hide Reflected, Bit, Xor;
    forall e: nat
      ensures e in Reflected(Xor(x, y)) <==> e in Add(Reflected(x), Reflected(y))
    {
      ReflectedIn(Xor(x, y), e);
      ReflectedIn(x, e);
      ReflectedIn(y, e);
      if e < 32 {
        BitXor(x, y, 31 - e);
      }
    }
  }

  lemma NoHighBit(c: bv32, i: nat)
    requires c < 256 && i >= 8
    ensures !Bit(c, i)
    decreases i
  {
    hide Bit, Half8, IsOdd, Half;
    EightBits(c, i - 8);
    Half8OfByte(c);
    NoBitOfZero(i - 8);
  }

  lemma Half8OfByte(c: bv32)
    requires c < 256
    ensures Half8(c) == 0
  {
  }

  lemma HalfOfZero()
    ensures Half(0) == 0 && !IsOdd(0)
  {
  }

  lemma {:induction false} NoBitOfZero(i: nat)
    ensures !Bit(0, i)
  {
    hide Half, IsOdd;
    HalfOfZero();
    if i > 0 {
      NoBitOfZero(i - 1);
    }
  }

  lemma WidenIsSmall(b: byte)
    ensures Widen(b) < 256
  {
    CastIsSmall(b as bv8);
  }

  lemma CastIsSmall(b: bv8)
    ensures b as bv32 < 256
  {
  }

  lemma OfByteIn(b: byte, e: nat)
    ensures e in OfByte(b) <==> e < 8 && Bit(Widen(b), 7 - e)
  {
    hide Bit, Widen;
  }

  /** A byte at the low end of a register stands for its polynomial times x to the 24. */
  lemma WidenReflected(b: byte)
    ensures Reflected(Widen(b)) == Times(OfByte(b), 24)
  {
    hide Reflected, OfByte, Bit, Widen, Times;
    WidenIsSmall(b);
    forall e: nat
      ensures e in Reflected(Widen(b)) <==> e in Times(OfByte(b), 24)
    {
      ReflectedIn(Widen(b), e);
      TimesIn(OfByte(b), 24, e);
      if e >= 24 {
        OfByteIn(b, e - 24);
      } else {
        NoHighBit(Widen(b), 31 - e);
      }
    }
  }

  /** The start register in front of the message, the message times x to the 32. */
  function Dividend(c: bv32, data: bytes): Poly
  {
    Add(Times(Reflected(c), 8 * |data|), Times(Message(data), 32))
  }

  lemma DividendStep(c: bv32, data: bytes)
    requires data != []
    ensures Dividend(c, data) == Add(Times(Dividend(c, data[..|data| - 1]), 8), Times(OfByte(data[|data| - 1]), 32))
  {
    var n := |data| - 1;
    var init, b := data[..n], OfByte(data[n]);
    assert Dividend(c, init) == Add(Times(Reflected(c), 8 * n), Times(Message(init), 32));
    assert Dividend(c, data) == Add(Times(Reflected(c), 8 * (n + 1)), Times(Message(data), 32));
    assert Message(data) == Add(Times(Message(init), 8), b);
    hide *;
    TimesAdd(Times(Reflected(c), 8 * n), Times(Message(init), 32), 8);
    TimesTimes(Reflected(c), 8 * n, 8);
    TimesTimes(Message(init), 32, 8);
    TimesAdd(Times(Message(init), 8), b, 32);
    TimesTimes(Message(init), 8, 32);
    AddLaws(Times(Reflected(c), 8 * n + 8), Times(Message(init), 40), Times(b, 32));
  }

  lemma DividendNone(c: bv32)
    ensures Dividend(c, []) == Reflected(c) && Register(c, []) == c
  {
    assert Message([]) == {};
    TimesTimes(Reflected(c), 0, 0);
    TimesTimes({}, 0, 32);
    AddLaws(Reflected(c), {}, {});
  }

  lemma RegisterStep(c: bv32, data: bytes)
    requires data != []
    ensures Register(c, data) == ShiftBits(Xor(Register(c, data[..|data| - 1]), Widen(data[|data| - 1])), 8)
  {
    hide Xor, ShiftBits, Widen;
  }

  lemma {:induction false} RegisterDivides(c: bv32, data: bytes) returns (quotient: seq<bool>)
    ensures Dividend(c, data) == Add(Product(quotient), Reflected(Register(c, data)))
  {
    hide *;
    if data == [] {
      quotient := [];
      ProductNone();
      DividendNone(c);
      AddLaws(Reflected(c), {}, {});
    } else {
      var init, b := data[..|data| - 1], data[|data| - 1];
      var before := RegisterDivides(c, init);
      var r := Register(c, init);
      var mixed := Xor(r, Widen(b));
      var steps := StepsDivide(mixed, 8);
      quotient := before + steps;
      RegisterStep(c, data);
      DividendStep(c, data);
      ProductConcat(before, steps);
      ReflectedXor(r, Widen(b));
      WidenReflected(b);
      TimesTimes(OfByte(b), 24, 8);
      TimesAdd(Product(before), Reflected(r), 8);
      TimesAdd(Reflected(r), Reflected(Widen(b)), 8);
      var x, y, z := Times(Product(before), 8), Times(Reflected(r), 8), Times(OfByte(b), 32);
      AddLaws(x, y, z);
      AddLaws(x, Product(steps), Reflected(Register(c, data)));
    }
  }

  lemma ReflectedDegree(c: bv32)
    ensures forall e :: e in Reflected(c) ==> e < 32
  {
    hide Bit;
  }

  /**
   * After any bytes the register is the remainder of dividing the start register, then the message, times x to
   * the 32, by the generator.
   */
  lemma RegisterIsRemainder(c: bv32, data: bytes)
    ensures IsRemainder(Dividend(c, data), Reflected(Register(c, data)))
  {
    hide Dividend, Product, Reflected, Register, Add;
    var quotient := RegisterDivides(c, data);
    ReflectedDegree(Register(c, data));
  }

  // ---------------------------------------------------------------------------
  // There is one remainder, and one register for it
  // ---------------------------------------------------------------------------

  /** The highest exponent of a multiple that is not zero is at least 32. */
  lemma {:induction false} MultipleIsHigh(q: seq<bool>)
    ensures Product(q) != {} ==> exists e :: e in Product(q) && e >= 32 && forall f :: f in Product(q) ==> f <= e
  {
    hide *;
    if q == [] {
      ProductNone();
    } else {
      var n := |q| - 1;
      var p := Product(q[..n]);
      MultipleIsHigh(q[..n]);
      assert q == q[..n] + [q[n]];
      ProductSnoc(q[..n], q[n]);
      GeneratorTop();
      HighestOfSum(p, if q[n] then GENERATOR else {});
    }
  }

  lemma HighestOfSum(p: Poly, g: Poly)
    requires p != {} ==> exists e :: e in p && e >= 32 && forall f :: f in p ==> f <= e
    requires g == {} || (32 in g && forall f :: f in g ==> f <= 32)
    ensures var s := Add(Times(p, 1), g);
            s != {} ==> exists e :: e in s && e >= 32 && forall f :: f in s ==> f <= e
  {
    hide Times;
    var s := Add(Times(p, 1), g);
    if p == {} {
      TimesTimes({}, 0, 1);
      if g != {} {
        assert 32 in s;
      }
    } else {
      var e :| e in p && e >= 32 && forall f :: f in p ==> f <= e;
      TimesIn(p, 1, e + 1);
      forall f | f in s
        ensures f <= e + 1
      {
        TimesIn(p, 1, f);
      }
      assert e + 1 in s;
    }
  }

  function Zeros(n: nat): seq<bool>
  {
    seq(n, i => false)
  }

  lemma {:induction false} LeadingZeros(n: nat, q: seq<bool>)
    ensures Product(Zeros(n) + q) == Product(q)
  {
    if n == 0 {
      assert Zeros(0) + q == q;
    } else {
      assert Zeros(n) + q == Zeros(n - 1) + ([false] + q);
      LeadingZeros(n - 1, [false] + q);
      ProductConcat([false], q);
      assert Product([false]) == {} by {
        ProductSnoc([], false);
        assert [] + [false] == [false];
        TimesTimes({}, 0, 1);
      }
      TimesTimes({}, 0, |q|);
      hide Product, Times;
      AddLaws(Product(q), {}, {});
    }
  }

  lemma {:induction false} SumOfProducts(p: seq<bool>, q: seq<bool>) returns (s: seq<bool>)
    requires |p| == |q|
    ensures Product(s) == Add(Product(p), Product(q))
  {
    hide *;
    if p == [] {
      s := [];
      ProductNone();
      AddLaws({}, {}, {});
    } else {
      var n := |p| - 1;
      var init := SumOfProducts(p[..n], q[..n]);
      s := init + [p[n] != q[n]];
      assert p == p[..n] + [p[n]] && q == q[..n] + [q[n]];
      ProductSnoc(init, p[n] != q[n]);
      ProductSnoc(p[..n], p[n]);
      ProductSnoc(q[..n], q[n]);
      TimesAdd(Product(p[..n]), Product(q[..n]), 1);
      var g, h: Poly := if p[n] then GENERATOR else {}, if q[n] then GENERATOR else {};
      AddLaws(g, h, {});
      AddLaws(h, g, {});
      Exchange(Times(Product(p[..n]), 1), g, Times(Product(q[..n]), 1), h);
    }
  }

  lemma SumIsMultiple(p: seq<bool>, q: seq<bool>) returns (s: seq<bool>)
    ensures Product(s) == Add(Product(p), Product(q))
  {
    LeadingZeros(|q|, p);
    LeadingZeros(|p|, q);
    hide Product, Add;
    s := SumOfProducts(Zeros(|q|) + p, Zeros(|p|) + q);
  }

  lemma Cancel(x: Poly, r: Poly, y: Poly, s: Poly)
    requires Add(x, r) == Add(y, s)
    ensures Add(r, s) == Add(x, y)
  {
    forall e: nat
      ensures e in Add(r, s) <==> e in Add(x, y)
    {
      assert e in Add(x, r) <==> e in Add(y, s);
    }
  }

  lemma LowMultipleIsZero(q: seq<bool>, r: Poly, s: Poly)
    requires Product(q) == Add(r, s) && (forall e :: e in r ==> e < 32) && (forall e :: e in s ==> e < 32)
    ensures r == s
  {
    MultipleIsHigh(q);
    hide Product;
    if Add(r, s) == {} {
      forall e: nat
        ensures e in r <==> e in s
      {
        assert e !in Add(r, s);
      }
    }
  }

  lemma RemainderIsUnique(p: Poly, r: Poly, s: Poly)
    requires IsRemainder(p, r) && IsRemainder(p, s)
    ensures r == s
  {
    hide Product, Add;
    var x: seq<bool> :| p == Add(Product(x), r);
    var y: seq<bool> :| p == Add(Product(y), s);
    Cancel(Product(x), r, Product(y), s);
    var z := SumIsMultiple(x, y);
    LowMultipleIsZero(z, r, s);
  }

  lemma SameHalf(x: bv32, y: bv32)
    requires Half(x) == Half(y) && IsOdd(x) == IsOdd(y)
    ensures x == y
  {
  }

  /** n halvings. */
  function Halves(c: bv32, n: nat): bv32
  {
    if n == 0 then c else Halves(Half(c), n - 1)
  }

  lemma {:induction false} SameBits(x: bv32, y: bv32, n: nat)
    requires Halves(x, n) == Halves(y, n) && forall i :: 0 <= i < n ==> Bit(x, i) == Bit(y, i)
    ensures x == y
    decreases n
  {
    hide Half, IsOdd, Bit;
    if n > 0 {
      NextBit(x, 0);
      NextBit(y, 0);
      forall i | 0 <= i < n - 1
        ensures Bit(Half(x), i) == Bit(Half(y), i)
      {
        NextBit(x, i);
        NextBit(y, i);
        assert Bit(x, i + 1) == Bit(y, i + 1);
      }
      SameBits(Half(x), Half(y), n - 1);
      SameHalf(x, y);
    }
  }

  lemma EightHalves(c: bv32, n: nat)
    ensures Halves(c, n + 8) == Halves(Half8(c), n)
  {
    hide Half;
    var c4 := Half(Half(Half(Half(c))));
    assert Halves(c, n + 8) == Halves(Half(Half(c)), n + 6);
    assert Halves(Half(Half(c)), n + 6) == Halves(c4, n + 4);
    assert Halves(c4, n + 4) == Halves(Half(Half(c4)), n + 2);
  }

  lemma NothingLeft(c: bv32)
    ensures Halves(c, 32) == 0
  {
    EightHalves(c, 24);
    EightHalves(Half8(c), 16);
    EightHalves(Half8(Half8(c)), 8);
    EightHalves(Half8(Half8(Half8(c))), 0);
    hide Half8;
    Half32Is(c);
  }

  /** Different registers stand for different polynomials. */
  lemma ReflectedInjective(x: bv32, y: bv32)
    requires Reflected(x) == Reflected(y)
    ensures x == y
  {
    hide Bit, Halves, Reflected;
    forall i | 0 <= i < 32
      ensures Bit(x, i) == Bit(y, i)
    {
      ReflectedIn(x, 31 - i);
      ReflectedIn(y, 31 - i);
    }
    NothingLeft(x);
    NothingLeft(y);
    SameBits(x, y, 32);
  }

  /** The register after any bytes is the only one that stands for the remainder. */
  lemma RegisterIsTheRemainder(c: bv32, data: bytes, d: bv32)
    ensures IsRemainder(Dividend(c, data), Reflected(d)) <==> d == Register(c, data)
  {
    hide *;
    RegisterIsRemainder(c, data);
    if IsRemainder(Dividend(c, data), Reflected(d)) {
      RemainderIsUnique(Dividend(c, data), Reflected(d), Reflected(Register(c, data)));
      ReflectedInjective(d, Register(c, data));
    }
  }
}
