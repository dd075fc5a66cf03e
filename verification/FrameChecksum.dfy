/** The frame checksum of `frame_crc` (Python host) and `frame_crc_step` (C firmware): a reflected
    32-bit CRC register over a non-standard polynomial, and what it can detect. */
module FrameChecksum {
  import opened Bytes

  const POLYNOMIAL: bv32 := 0xEDB8_8820
  const ALL_ONES: bv32 := 0xFFFF_FFFF

  // Bit operations behind names, so that the solver meets them only in the lemmas that need them.
  function Xor32(a: bv32, b: bv32): bv32 { a ^ b }
  function Halve(a: bv32): bv32 { a >> 1 }
  predicate Odd(a: bv32) { a & 1 == 1 }
  function Up(a: bv32): bv32 { a << 1 }

  /** The low n bits of a word as a number. */
  function NumberOf(a: bv32, n: nat): (v: nat)
    ensures v < Pow2(n)
  {
    if n == 0 then 0 else (if Odd(a) then 1 else 0) + 2 * NumberOf(Halve(a), n - 1)
  }

  function Value(a: bv32): u32 {
    Pow2Of32();
    NumberOf(a, 32)
  }

  lemma Pow2Of32()
    ensures Pow2(32) == 0x1_0000_0000
  {
    Pow2Of8();
    assert Pow2(12) == 16 * Pow2(8) && Pow2(16) == 16 * Pow2(12) && Pow2(20) == 16 * Pow2(16);
    assert Pow2(24) == 16 * Pow2(20) && Pow2(28) == 16 * Pow2(24) && Pow2(32) == 16 * Pow2(28);
  }

  function Join(bit: bool, u: bv32): bv32 { Xor32(if bit then 1 else 0, Up(u)) }

  /** The low n bits of an integer as a word. */
  function LowBits(b: nat, n: nat): bv32 {
    if n == 0 then 0 else Join(b % 2 == 1, LowBits(b / 2, n - 1))
  }

  function Word(b: byte): bv32 { LowBits(b, 8) }

  /** One turn of the inner loop. */
  function BitStep(crc: bv32): bv32 {
    if Odd(crc) then Xor32(Halve(crc), POLYNOMIAL) else Halve(crc)
  }

  function Steps(n: nat, crc: bv32): bv32 {
    if n == 0 then crc else BitStep(Steps(n - 1, crc))
  }

  /** The register after shifting in `data`, starting from `crc`. */
  function Register(crc: bv32, data: seq<byte>): bv32 {
    if data == [] then crc
    else
      var last := |data| - 1;
      Steps(8, Xor32(Register(crc, data[..last]), Word(data[last])))
  }

  function FrameCrc(data: seq<byte>): u32 {
    Value(Xor32(Register(ALL_ONES, data), ALL_ONES))
  }

  /** The loop both implementations run, from an arbitrary register: C calls it once for the header and
      once for the payload, Python once for the whole body. */
  method Shift(start: bv32, data: seq<byte>) returns (crc: bv32)
    ensures crc == Register(start, data)
  {
    crc := start;
    for i := 0 to |data|
      invariant crc == Register(start, data[..i])
    {
      var before := crc;
      crc := Xor32(crc, Word(data[i]));
      for k := 0 to 8
        invariant crc == Steps(k, Xor32(before, Word(data[i])))
      {
        crc := if Odd(crc) then Xor32(Halve(crc), POLYNOMIAL) else Halve(crc);
      }
      assert data[..i + 1][..i] == data[..i];
    }
    assert data[..|data|] == data;
  }

  method ComputeFrameCrc(data: seq<byte>) returns (crc: u32)
    ensures crc == FrameCrc(data)
  {
    var register := Shift(ALL_ONES, data);
    crc := Value(Xor32(register, ALL_ONES));
  }

  /** Shifting in two pieces one after the other is shifting in their concatenation. */
  lemma {:induction false} RegisterAppend(crc: bv32, a: seq<byte>, b: seq<byte>)
    ensures Register(crc, a + b) == Register(Register(crc, a), b)
  {
    if b == [] {
      assert a + b == a;
    } else {
      var last := |b| - 1;
      RegisterAppend(crc, a, b[..last]);
      assert (a + b)[..|a + b| - 1] == a + b[..last];
    }
  }

  // Facts of bit-vector arithmetic, one per lemma.

  lemma BitStepInjective(a: bv32, b: bv32)
    requires BitStep(a) == BitStep(b)
    ensures a == b
  {}

  lemma XorCancels(a: bv32, b: bv32, c: bv32)
    requires Xor32(a, c) == Xor32(b, c) || Xor32(c, a) == Xor32(c, b)
    ensures a == b
  {}

  lemma XorAssociates(a: bv32, b: bv32, c: bv32)
    ensures Xor32(Xor32(a, b), c) == Xor32(a, Xor32(b, c))
  {}

  lemma XorCommutes(a: bv32, b: bv32)
    ensures Xor32(a, b) == Xor32(b, a)
  {}

  lemma XorSwaps(a: bv32, b: bv32, c: bv32)
    ensures Xor32(Xor32(a, b), c) == Xor32(Xor32(a, c), b)
  {
    hide Xor32;
    XorAssociates(a, b, c);
    XorCommutes(b, c);
    XorAssociates(a, c, b);
  }

  lemma OddXor(a: bv32, even: bv32)
    requires !Odd(even)
    ensures Odd(Xor32(a, even)) == Odd(a)
  {}

  lemma HalveXor(a: bv32, b: bv32)
    ensures Halve(Xor32(a, b)) == Xor32(Halve(a), Halve(b))
  {}

  lemma ValueInjective(a: bv32, b: bv32)
    requires Value(a) == Value(b)
    ensures a == b
  {
    ValueBack(a);
    ValueBack(b);
  }

  /** The word can be read back from its number. */
  lemma {:induction false} ValueBack(a: bv32)
    ensures LowBits(Value(a), 32) == a
  {
    AllMasked();
    NumberBack(a, 32);
  }

  lemma AllMasked()
    ensures forall a :: Clear(a, Mask(32))
  {
    MaskOf32();
    forall a ensures Clear(a, Mask(32)) { ClearNothing(a); }
  }

  lemma ClearNothing(a: bv32)
    ensures Clear(a, 0)
  {}

  lemma {:induction false} MaskOf32()
    ensures Mask(32) == 0
  {
    hide Up;
    MaskOf8(0);
    MaskOf8(8);
    MaskOf8(16);
    MaskOf8(24);
    UpByAll(ALL_ONES);
  }

  lemma {:induction false} MaskOf8(n: nat)
    ensures Mask(n + 8) == Up8(Mask(n))
  {
    hide Up, Up8;
    UpBy8(Mask(n));
    assert Mask(n + 1) == UpBy(1, Mask(n)) by { assert UpBy(0, Mask(n)) == Mask(n); }
    assert Mask(n + 2) == UpBy(2, Mask(n));
    assert Mask(n + 3) == UpBy(3, Mask(n));
    assert Mask(n + 4) == UpBy(4, Mask(n));
    assert Mask(n + 5) == UpBy(5, Mask(n));
    assert Mask(n + 6) == UpBy(6, Mask(n));
    assert Mask(n + 7) == UpBy(7, Mask(n));
  }

  lemma UpByAll(a: bv32)
    ensures Up8(Up8(Up8(Up8(a)))) == 0
  {}

  lemma {:induction false} NumberBack(a: bv32, n: nat)
    requires Clear(a, Mask(n))
    ensures LowBits(NumberOf(a, n), n) == a
    decreases n
  {
    hide Clear, Up, Halve, Odd, Xor32, Join;
    if n == 0 {
      ClearAll(a);
    } else {
      ClearHalf(a, Mask(n - 1));
      NumberBack(Halve(a), n - 1);
      JoinOddHalve(a);
      NumberHalf(a, n);
      hide NumberOf, Mask;
    }
  }

  lemma {:induction false} NumberHalf(a: bv32, n: nat)
    requires n > 0
    ensures NumberOf(a, n) / 2 == NumberOf(Halve(a), n - 1) && (NumberOf(a, n) % 2 == 1 <==> Odd(a))
  {
    hide Halve, Odd;
  }

  lemma ClearAll(a: bv32)
    requires Clear(a, ALL_ONES)
    ensures a == 0
  {}

  lemma ClearHalf(a: bv32, mask: bv32)
    requires Clear(a, Up(mask))
    ensures Clear(Halve(a), mask)
  {}

  lemma JoinOddHalve(a: bv32)
    ensures Join(Odd(a), Halve(a)) == a
  {
    EvenJoin(a);
    OddJoin(a);
  }

  lemma EvenJoin(a: bv32)
    ensures !Odd(a) ==> Xor32(0, Up(Halve(a))) == a
  {}

  lemma OddJoin(a: bv32)
    ensures Odd(a) ==> Xor32(1, Up(Halve(a))) == a
  {}

  // Xor by an even word commutes with one bit step, up to halving it.
  lemma BitStepXorEven(a: bv32, even: bv32)
    requires !Odd(even)
    ensures BitStep(Xor32(a, even)) == Xor32(BitStep(a), Halve(even))
  {
    OddXor(a, even);
    HalveXor(a, even);
    if Odd(a) {
      XorSwaps(Halve(a), Halve(even), POLYNOMIAL);
    }
  }

  function UpBy(n: nat, a: bv32): bv32 { if n == 0 then a else Up(UpBy(n - 1, a)) }

  // The window bytes as one word, first byte lowest.
  function Pack(w: seq<byte>): bv32 {
    if w == [] then 0 else Xor32(Word(w[0]), UpBy(8, Pack(w[1..])))
  }

  predicate TopClear(a: bv32) { a & 0x8000_0000 == 0 }
  predicate Below24(a: bv32) { a & 0xFF00_0000 == 0 }
  predicate Below16(a: bv32) { a & 0xFFFF_0000 == 0 }
  predicate Below8(a: bv32) { a & 0xFFFF_FF00 == 0 }

  lemma UpIsEven(a: bv32)
    ensures !Odd(Up(a))
  {}

  lemma HalveUp(a: bv32)
    requires TopClear(a)
    ensures Halve(Up(a)) == a
  {}

  lemma JoinHalves(bit: bool, u: bv32)
    requires TopClear(u)
    ensures Halve(Join(bit, u)) == u
  {
    HalveUp(u);
    HalveXor(1, Up(u));
    HalveXor(0, Up(u));
    LowestHalved(u);
  }

  lemma LowestHalved(u: bv32)
    ensures Xor32(Halve(0), u) == u && Xor32(Halve(1), u) == u
  {}

  lemma JoinOdd(bit: bool, u: bv32)
    ensures Odd(Join(bit, u)) == bit
  {
    UpIsEven(u);
    OddXor(1, Up(u));
    OddXor(0, Up(u));
  }

  lemma JoinInjective(a: bool, u: bv32, b: bool, v: bv32)
    requires TopClear(u) && TopClear(v)
    requires Join(a, u) == Join(b, v)
    ensures a == b && u == v
  {
    JoinHalves(a, u);
    JoinHalves(b, v);
    JoinOdd(a, u);
    JoinOdd(b, v);
  }

  predicate Clear(a: bv32, mask: bv32) { a & mask == 0 }

  // The bits at or above position n.
  function Mask(n: nat): bv32 { if n == 0 then ALL_ONES else Up(Mask(n - 1)) }

  lemma ClearUp(bit: bool, a: bv32, mask: bv32)
    requires Clear(a, mask)
    ensures Clear(Join(bit, a), Up(mask))
  {
    ClearUpBits(a, mask);
  }

  lemma ClearUpBits(a: bv32, mask: bv32)
    requires Clear(a, mask)
    ensures Clear(Xor32(0, Up(a)), Up(mask)) && Clear(Xor32(1, Up(a)), Up(mask))
  {}

  lemma {:induction false} LowBitsClear(b: nat, n: nat)
    ensures Clear(LowBits(b, n), Mask(n))
  {
    if n > 0 {
      LowBitsClear(b / 2, n - 1);
      ClearUp(b % 2 == 1, LowBits(b / 2, n - 1), Mask(n - 1));
    }
  }

  lemma {:induction false} Masks(n: nat)
    requires n <= 8
    ensures !TopClear(Mask(n))
    ensures Mask(8) == 0xFFFF_FF00
  {
    assert Mask(1) == 0xFFFF_FFFE;
    assert Mask(2) == 0xFFFF_FFFC;
    assert Mask(3) == 0xFFFF_FFF8;
    assert Mask(4) == 0xFFFF_FFF0;
    assert Mask(5) == 0xFFFF_FFE0;
    assert Mask(6) == 0xFFFF_FFC0;
    assert Mask(7) == 0xFFFF_FF80;
  }

  lemma ClearTop(a: bv32, mask: bv32)
    requires Clear(a, mask) && !TopClear(mask)
    ensures TopClear(a)
  {}

  lemma {:induction false} LowBitsTopClear(b: nat, n: nat)
    requires n <= 8
    ensures TopClear(LowBits(b, n))
  {
    Masks(n);
    LowBitsClear(b, n);
    ClearTop(LowBits(b, n), Mask(n));
  }

  lemma {:induction false} LowBitsInjective(a: nat, b: nat, n: nat)
    requires n <= 8 && a < Pow2(n) && b < Pow2(n)
    requires LowBits(a, n) == LowBits(b, n)
    ensures a == b
  {
    if n > 0 {
      LowBitsTopClear(a / 2, n - 1);
      LowBitsTopClear(b / 2, n - 1);
      JoinInjective(a % 2 == 1, LowBits(a / 2, n - 1), b % 2 == 1, LowBits(b / 2, n - 1));
      LowBitsInjective(a / 2, b / 2, n - 1);
    }
  }

  lemma WordInjective(a: byte, b: byte)
    requires Word(a) == Word(b)
    ensures a == b
  {
    Pow2Of8();
    LowBitsInjective(a, b, 8);
  }

  lemma WordBelow8(b: byte)
    ensures Below8(Word(b))
  {
    LowBitsClear(b, 8);
    Masks(8);
  }

  function Up2(a: bv32): bv32 { a << 2 }
  function Up8(a: bv32): bv32 { a << 8 }

  lemma UpTwice(a: bv32)
    ensures Up(Up(a)) == Up2(a)
  {}

  lemma Up2FourTimes(a: bv32)
    ensures Up2(Up2(Up2(Up2(a)))) == Up8(a)
  {}

  lemma {:induction false} UpBy8(a: bv32)
    ensures UpBy(8, a) == Up8(a)
  {
    hide Up, Up2, Up8;
    UpTwice(a);
    assert UpBy(2, a) == Up2(a) by { assert UpBy(1, a) == Up(a); }
    UpTwice(UpBy(2, a));
    assert UpBy(4, a) == Up2(UpBy(2, a)) by { assert UpBy(3, a) == Up(UpBy(2, a)); }
    UpTwice(UpBy(4, a));
    assert UpBy(6, a) == Up2(UpBy(4, a)) by { assert UpBy(5, a) == Up(UpBy(4, a)); }
    UpTwice(UpBy(6, a));
    assert UpBy(8, a) == Up2(UpBy(6, a)) by { assert UpBy(7, a) == Up(UpBy(6, a)); }
    Up2FourTimes(a);
  }

  // A word below 2^24 can be shifted up seven times without losing a bit.
  lemma {:induction false} UpByKeepsTopClear(k: nat, a: bv32)
    requires Below24(a) && k <= 7
    ensures TopClear(UpBy(k, a))
  {
    var a1 := Up(a);
    var a2 := Up(a1);
    var a3 := Up(a2);
    var a4 := Up(a3);
    var a5 := Up(a4);
    var a6 := Up(a5);
    var a7 := Up(a6);
    assert UpBy(1, a) == a1;
    assert UpBy(2, a) == a2;
    assert UpBy(3, a) == a3;
    assert UpBy(4, a) == a4;
    assert UpBy(5, a) == a5;
    assert UpBy(6, a) == a6;
    assert UpBy(7, a) == a7;
    assert TopClear(a) && TopClear(a1) && TopClear(a2) && TopClear(a3);
    assert TopClear(a4) && TopClear(a5) && TopClear(a6) && TopClear(a7);
  }

  // j bit steps bring a word waiting 8 bits up down to 8 - j bits up, untouched by the polynomial.
  lemma {:induction false} StepsXorUp(j: nat, crc: bv32, p: bv32)
    requires Below24(p) && j <= 8
    ensures Steps(j, Xor32(crc, UpBy(8, p))) == Xor32(Steps(j, crc), UpBy(8 - j, p))
  {
    if j > 0 {
      StepsXorUp(j - 1, crc, p);
      var waiting := UpBy(8 - j, p);
      UpByKeepsTopClear(8 - j, p);
      UpIsEven(waiting);
      HalveUp(waiting);
      BitStepXorEven(Steps(j - 1, crc), Up(waiting));
    }
  }

  lemma PackJoin24(b: bv32, p: bv32)
    requires Below8(b) && Below16(p)
    ensures Below24(Xor32(b, Up8(p)))
  {}

  lemma PackJoin16(b: bv32, p: bv32)
    requires Below8(b) && Below8(p)
    ensures Below16(Xor32(b, Up8(p)))
  {}

  lemma PackSplit(b: bv32, p: bv32, c: bv32, q: bv32)
    requires Below8(b) && Below8(c) && Below24(p) && Below24(q)
    requires Xor32(b, Up8(p)) == Xor32(c, Up8(q))
    ensures b == c && p == q
  {}

  lemma {:induction false} PackSplitUp(b: bv32, p: bv32, c: bv32, q: bv32)
    requires Below8(b) && Below8(c) && Below24(p) && Below24(q)
    requires Xor32(b, UpBy(8, p)) == Xor32(c, UpBy(8, q))
    ensures b == c && p == q
  {
    UpBy8(p);
    UpBy8(q);
    PackSplit(b, p, c, q);
  }

  lemma Below8Widens(a: bv32)
    requires Below8(a)
    ensures Below16(a)
  {}

  lemma Below16Widens(a: bv32)
    requires Below16(a)
    ensures Below24(a)
  {}

  lemma Below8Zero()
    ensures Below8(0)
  {}

  lemma XorZero(a: bv32)
    ensures Xor32(a, 0) == a
  {}

  lemma {:induction false} PackBelow(w: seq<byte>)
    requires |w| <= 3
    ensures |w| <= 1 ==> Below8(Pack(w))
    ensures |w| <= 2 ==> Below16(Pack(w))
    ensures Below24(Pack(w))
  {
    if w == [] {
      Below8Zero();
    } else {
      PackBelow(w[1..]);
      WordBelow8(w[0]);
      UpBy8(Pack(w[1..]));
      if |w| == 1 {
        ShiftZero();
        XorZero(Word(w[0]));
      } else if |w| == 2 {
        PackJoin16(Word(w[0]), Pack(w[1..]));
      } else {
        PackJoin24(Word(w[0]), Pack(w[1..]));
      }
    }
    if |w| <= 1 {
      Below8Widens(Pack(w));
    }
    if |w| <= 2 {
      Below16Widens(Pack(w));
    }
  }

  lemma ShiftZero()
    ensures Up8(0) == 0
  {}

  lemma {:induction false} PackInjective(v: seq<byte>, w: seq<byte>)
    requires |v| == |w| <= 4
    requires Pack(v) == Pack(w)
    ensures v == w
  {
    if v != [] {
      PackBelow(v[1..]);
      PackBelow(w[1..]);
      WordBelow8(v[0]);
      WordBelow8(w[0]);
      PackSplitUp(Word(v[0]), Pack(v[1..]), Word(w[0]), Pack(w[1..]));
      WordInjective(v[0], w[0]);
      PackInjective(v[1..], w[1..]);
      assert v == [v[0]] + v[1..] && w == [w[0]] + w[1..];
    }
  }

  lemma {:induction false} StepsAdd(m: nat, n: nat, crc: bv32)
    ensures Steps(m + n, crc) == Steps(m, Steps(n, crc))
  {
    if m > 0 {
      StepsAdd(m - 1, n, crc);
    }
  }

  lemma {:induction false} StepsInjective(n: nat, a: bv32, b: bv32)
    requires Steps(n, a) == Steps(n, b)
    ensures a == b
  {
    if n > 0 {
      BitStepInjective(Steps(n - 1, a), Steps(n - 1, b));
      StepsInjective(n - 1, a, b);
    }
  }

  lemma {:induction false} RegisterOfByte(crc: bv32, b: byte)
    ensures Register(crc, [b]) == Steps(8, Xor32(crc, Word(b)))
  {
    assert [b][..0] == [];
    assert Register(crc, []) == crc;
  }

  // One byte step and a word to come, as a single xor ahead of m + 8 bit steps.
  lemma {:induction false} StepsAbsorb(m: nat, crc: bv32, b: bv32, p: bv32)
    requires Below24(p)
    ensures Steps(m, Xor32(Steps(8, Xor32(crc, b)), p)) == Steps(m + 8, Xor32(crc, Xor32(b, UpBy(8, p))))
  {
    StepsXorUp(8, Xor32(crc, b), p);
    XorAssociates(crc, b, UpBy(8, p));
    StepsAdd(m, 8, Xor32(crc, Xor32(b, UpBy(8, p))));
  }

  /** Up to four bytes act on the register as one xor of their packed word, then plain bit steps. */
  lemma {:induction false} RegisterOfWindow(crc: bv32, w: seq<byte>)
    requires |w| <= 4
    ensures Register(crc, w) == Steps(8 * |w|, Xor32(crc, Pack(w)))
    decreases |w|
  {
    hide Xor32, BitStep, Word, Below24, UpBy;
    if w == [] {
      XorZero(crc);
    } else {
      var b, rest := w[0], w[1..];
      assert w == [b] + rest;
      RegisterAppend(crc, [b], rest);
      RegisterOfByte(crc, b);
      RegisterOfWindow(Register(crc, [b]), rest);
      PackBelow(rest);
      StepsAbsorb(8 * |rest|, crc, Word(b), Pack(rest));
    }
  }

  /** The register never forgets: different registers stay different under the same further bytes. */
  lemma {:induction false} RegisterInjective(a: bv32, b: bv32, data: seq<byte>)
    requires Register(a, data) == Register(b, data)
    ensures a == b
  {
    if data != [] {
      var last := |data| - 1;
      var a', b' := Register(a, data[..last]), Register(b, data[..last]);
      StepsInjective(8, Xor32(a', Word(data[last])), Xor32(b', Word(data[last])));
      XorCancels(a', b', Word(data[last]));
      RegisterInjective(a, b, data[..last]);
    }
  }

  /** Every error burst confined to four consecutive bytes changes the checksum. */
  lemma BurstDetected(before: seq<byte>, w: seq<byte>, v: seq<byte>, after: seq<byte>)
    requires |w| == |v| <= 4 && w != v
    ensures FrameCrc(before + w + after) != FrameCrc(before + v + after)
  {
    if FrameCrc(before + w + after) == FrameCrc(before + v + after) {
      var whole, other := Register(ALL_ONES, before + w + after), Register(ALL_ONES, before + v + after);
      ValueInjective(Xor32(whole, ALL_ONES), Xor32(other, ALL_ONES));
      XorCancels(whole, other, ALL_ONES);
      RegisterAppend(ALL_ONES, before + w, after);
      RegisterAppend(ALL_ONES, before + v, after);
      RegisterAppend(ALL_ONES, before, w);
      RegisterAppend(ALL_ONES, before, v);
      var start := Register(ALL_ONES, before);
      RegisterInjective(Register(start, w), Register(start, v), after);
      RegisterOfWindow(start, w);
      RegisterOfWindow(start, v);
      StepsInjective(8 * |w|, Xor32(start, Pack(w)), Xor32(start, Pack(v)));
      XorCancels(Pack(w), Pack(v), start);
      PackInjective(w, v);
      assert false;
    }
  }
}
