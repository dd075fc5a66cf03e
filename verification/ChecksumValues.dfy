/** What the frame checksum is, in numbers: the values of concrete bodies, and the constant a frame followed by its own
    checksum leaves in the register. */
module ChecksumValues {
  import opened Bytes
  import opened FrameChecksum

  // A number spread over bytes is the word it spells.

  lemma {:induction false} LowBitsOfRemainder(n: nat, k: nat)
    ensures LowBits(n % Pow2(k), k) == LowBits(n, k)
  {
    if k > 0 {
      HalfOfRemainder(n, Pow2(k - 1));
      LowBitsOfRemainder(n / 2, k - 1);
    }
  }

  lemma HalfOfRemainder(n: nat, p: nat)
    requires p > 0
    ensures n % (2 * p) / 2 == n / 2 % p && n % (2 * p) % 2 == n % 2
  {
    var q, r := n / (2 * p), n % (2 * p);
    assert n == 2 * p * q + r;
    assert 2 * p * q == 2 * (p * q);
    assert n / 2 == p * q + r / 2;
    Remainder(p, q, r / 2);
  }

  lemma Remainder(p: nat, q: nat, r: nat)
    requires r < p
    ensures (p * q + r) % p == r
  {
    if q > 0 {
      Remainder(p, q - 1, r);
      assert p * q + r == p * (q - 1) + r + p;
      assert (p * (q - 1) + r + p) % p == (p * (q - 1) + r) % p by { AddModulus(p * (q - 1) + r, p); }
    }
  }

  lemma AddModulus(n: nat, p: nat)
    requires p > 0
    ensures (n + p) % p == n % p
  {
    var q := n / p;
    assert n + p == (q + 1) * p + n % p;
    QuotientIs(n + p, p, q + 1, n % p);
  }

  lemma QuotientIs(n: nat, p: nat, q: nat, r: nat)
    requires r < p && n == q * p + r
    ensures n % p == r
  {
    var d := n / p - q;
    assert d * p == r - n % p;
    if d >= 1 {
      Grows(d, p);
    } else if d <= -1 {
      Grows(-d, p);
    }
  }

  lemma Grows(d: int, p: nat)
    requires d >= 1
    ensures d * p >= p
  {
    assert d * p == (d - 1) * p + p;
  }

  function Shr(n: nat, k: nat): nat { if k == 0 then n else Shr(n / 2, k - 1) }

  lemma {:induction false} UpXor(a: bv32, b: bv32)
    ensures Up(Xor32(a, b)) == Xor32(Up(a), Up(b))
  {}

  lemma {:induction false} LowBitsSplit(n: nat, k: nat, m: nat)
    ensures LowBits(n, k + m) == Xor32(LowBits(n, k), UpBy(k, LowBits(Shr(n, k), m)))
  {
    hide Xor32, Up;
    if k == 0 {
      ZeroXor(LowBits(n, m));
    } else {
      var later := UpBy(k - 1, LowBits(Shr(n, k), m));
      LowBitsSplit(n / 2, k - 1, m);
      UpXor(LowBits(n / 2, k - 1), later);
      XorAssociates(if n % 2 == 1 then 1 else 0, Up(LowBits(n / 2, k - 1)), Up(later));
    }
  }

  lemma ZeroXor(a: bv32)
    ensures Xor32(0, a) == a
  {}

  lemma {:induction false} ShrEight(n: nat)
    ensures Shr(n, 8) == n / 256
  {
    ShrFour(n, 4);
    ShrFour(n / 16, 0);
  }

  lemma {:induction false} ShrFour(n: nat, k: nat)
    ensures Shr(n, 4 + k) == Shr(n / 16, k)
  {
    assert Shr(n, 4 + k) == Shr(n / 2, 3 + k) == Shr(n / 2 / 2, 2 + k) == Shr(n / 2 / 2 / 2, 1 + k);
    assert n / 2 / 2 / 2 / 2 == n / 16;
  }

  /** Packing the little-endian bytes of a number gives its low bits. */
  lemma {:induction false} PackToLE(n: nat, k: nat)
    ensures Pack(ToLE(n, k)) == LowBits(n, 8 * k)
  {
    hide Xor32, Up, UpBy;
    if k > 0 {
      var s := ToLE(n, k);
      assert s[0] == n % 256 && s[1..] == ToLE(n / 256, k - 1);
      PackToLE(n / 256, k - 1);
      Pow2Of8();
      LowBitsOfRemainder(n, 8);
      ShrEight(n);
      LowBitsSplit(n, 8, 8 * (k - 1));
    }
  }

  lemma {:induction false} PackOfValue(a: bv32)
    ensures Pack(ToLE(Value(a), 4)) == a
  {
    PackToLE(Value(a), 4);
    ValueBack(a);
  }

  // The residue.

  const RESIDUE: bv32 := 0xC4E5_FCDD

  lemma {:induction false} EightSteps(a: bv32, b: bv32, n: nat)
    requires b == BitStep(BitStep(BitStep(BitStep(BitStep(BitStep(BitStep(BitStep(a))))))))
    requires Steps(n, ALL_ONES) == a
    ensures Steps(n + 8, ALL_ONES) == b
  {
    hide BitStep;
    assert Steps(n + 2, ALL_ONES) == BitStep(BitStep(a));
    assert Steps(n + 4, ALL_ONES) == BitStep(BitStep(BitStep(BitStep(a))));
    assert Steps(n + 6, ALL_ONES) == BitStep(BitStep(BitStep(BitStep(BitStep(BitStep(a))))));
  }

  lemma {:induction false} OnesShifted()
    ensures Steps(32, ALL_ONES) == RESIDUE
  {
    EightSteps(ALL_ONES, 0x2DFD_1300, 0);
    EightSteps(0x2DFD_1300, 0x2DFD13, 8);
    EightSteps(0x2DFD13, 0x84BE_63F9, 16);
    EightSteps(0x84BE_63F9, RESIDUE, 24);
  }

  lemma XorComplement(a: bv32)
    ensures Xor32(a, Xor32(a, ALL_ONES)) == ALL_ONES
  {}

  /** The residue law: any body followed by its own checksum leaves one and the same constant in the register. */
  lemma {:induction false} Residue(data: seq<byte>)
    ensures Register(ALL_ONES, data + ToLE(FrameCrc(data), 4)) == 0xC4E5_FCDD
  {
    var r := Register(ALL_ONES, data);
    var trailer := ToLE(FrameCrc(data), 4);
    RegisterAppend(ALL_ONES, data, trailer);
    RegisterOfWindow(r, trailer);
    PackOfValue(Xor32(r, ALL_ONES));
    XorComplement(r);
    OnesShifted();
  }

  // Concrete bodies.

  lemma {:induction false} NoBody()
    ensures Register(ALL_ONES, []) == ALL_ONES
  {}

  /** The number of a word, from the four bytes it packs. */
  lemma {:induction false} ValueOfBytes(a: bv32, bytes: seq<byte>)
    requires |bytes| == 4 && Pack(bytes) == a
    ensures Value(a) == FromLE(bytes)
  {
    PackOfValue(a);
    PackInjective(ToLE(Value(a), 4), bytes);
    Widths();
    FromLEToLE(Value(a), 4);
  }

  /** The checksum of nothing is zero. */
  lemma {:induction false} CrcOfNothing()
    ensures FrameCrc([]) == 0
  {
    XorSelf(ALL_ONES);
    assert NumberOf(0, 32) == 0 by { NumberOfZero(32); }
  }

  lemma XorSelf(a: bv32)
    ensures Xor32(a, a) == 0
  {}

  lemma {:induction false} NumberOfZero(n: nat)
    ensures NumberOf(0, n) == 0
  {
    if n > 0 {
      ZeroHalves();
      NumberOfZero(n - 1);
    }
  }

  lemma ZeroHalves()
    ensures Halve(0) == 0 && !Odd(0)
  {}


  lemma {:induction false} WordsOfBodies()
    ensures Word(0x41) == 0x41 && Word(0x31) == 0x31 && Word(0x32) == 0x32
  {
    assert LowBits(0x4, 4) == 0x4 && LowBits(0x3, 4) == 0x3;
  }

  lemma {:induction false} WordsOfFirstTrailer()
    ensures Word(0xEF) == 0xEF && Word(0x9D) == 0x9D && Word(0xD9) == 0xD9 && Word(0xD3) == 0xD3
  {
    assert LowBits(0xE, 4) == 0xE && LowBits(0x9, 4) == 0x9 && LowBits(0xD, 4) == 0xD;
  }

  lemma {:induction false} WordsOfSecondTrailer()
    ensures Word(0x25) == 0x25 && Word(0xC9) == 0xC9 && Word(0xE2) == 0xE2 && Word(0x3E) == 0x3E
  {
    assert LowBits(0x2, 4) == 0x2 && LowBits(0xC, 4) == 0xC && LowBits(0xE, 4) == 0xE && LowBits(0x3, 4) == 0x3;
  }

  lemma {:induction false} ShiftedBodies()
    ensures Steps(8, Xor32(ALL_ONES, 0x41)) == 0x2C26_6210
    ensures Steps(8, Xor32(ALL_ONES, 0x31)) == 0x7C23_150C && Steps(8, Xor32(0x7C23_150C, 0x32)) == 0xC11D_36DA
  {}

  /** The checksum of the one byte 0x41. */
  lemma {:induction false} CrcOfOne()
    ensures FrameCrc([0x41]) == 0xD3D9_9DEF
  {
    PackedTrailers();
    WordsOfBodies();
    ShiftedBodies();
    hide Word, Steps, Xor32, Pack, FrameCrc;
    RegisterOfByte(ALL_ONES, 0x41);
    Complemented([0x41], 0x2C26_6210, [0xEF, 0x9D, 0xD9, 0xD3]);
    FourBytes(0xEF, 0x9D, 0xD9, 0xD3);
  }

  /** The checksum of the two bytes 0x31 0x32. */
  lemma {:induction false} CrcOfTwo()
    ensures FrameCrc([0x31, 0x32]) == 0x3EE2_C925
  {
    PackedTrailers();
    WordsOfBodies();
    ShiftedBodies();
    hide Word, Steps, Xor32, Pack, FrameCrc, Register;
    RegisterAppend(ALL_ONES, [0x31], [0x32]);
    assert [0x31] + [0x32] == [0x31, 0x32];
    RegisterOfByte(ALL_ONES, 0x31);
    RegisterOfByte(0x7C23_150C, 0x32);
    Complemented([0x31, 0x32], 0xC11D_36DA, [0x25, 0xC9, 0xE2, 0x3E]);
    FourBytes(0x25, 0xC9, 0xE2, 0x3E);
  }

  lemma {:induction false} PackedTrailers()
    ensures Pack([0xEF, 0x9D, 0xD9, 0xD3]) == Xor32(0x2C26_6210, ALL_ONES)
    ensures Pack([0x25, 0xC9, 0xE2, 0x3E]) == Xor32(0xC11D_36DA, ALL_ONES)
  {
    hide Pack, Word;
    PackFour(0xEF, 0x9D, 0xD9, 0xD3);
    PackFour(0x25, 0xC9, 0xE2, 0x3E);
    WordsOfFirstTrailer();
    WordsOfSecondTrailer();
  }

  lemma {:induction false} PackFour(a: byte, b: byte, c: byte, d: byte)
    ensures Pack([a, b, c, d]) == Xor32(Word(a), Up8(Xor32(Word(b), Up8(Xor32(Word(c), Up8(Word(d)))))))
  {
    hide Xor32, Up8, UpBy, Word;
    assert [a, b, c, d][1..] == [b, c, d] && [b, c, d][1..] == [c, d] && [c, d][1..] == [d] && [d][1..] == [];
    UpBy8(Pack([b, c, d]));
    UpBy8(Pack([c, d]));
    UpBy8(Pack([d]));
    UpBy8(0);
    LastPacked(d);
  }

  lemma {:induction false} LastPacked(d: byte)
    ensures Pack([d]) == Word(d)
  {
    assert [d][1..] == [];
    UpBy8(0);
    ShiftZero();
    XorZero(Word(d));
  }

  lemma {:induction false} FourBytes(a: byte, b: byte, c: byte, d: byte)
    ensures FromLE([a, b, c, d]) == a + 0x100 * b + 0x1_0000 * c + 0x100_0000 * d
  {
    assert [a, b, c, d][1..] == [b, c, d] && [b, c, d][1..] == [c, d] && [c, d][1..] == [d] && [d][1..] == [];
    FromLE2([c, d]);
    assert FromLE([b, c, d]) == b + 256 * FromLE([c, d]);
  }

  /** The checksum as the number of the complemented register. */
  lemma {:induction false} Complemented(data: seq<byte>, register: bv32, bytes: seq<byte>)
    requires Register(ALL_ONES, data) == register
    requires |bytes| == 4 && Pack(bytes) == Xor32(register, ALL_ONES)
    ensures FrameCrc(data) == FromLE(bytes)
  {
    ValueOfBytes(Xor32(register, ALL_ONES), bytes);
  }
}
