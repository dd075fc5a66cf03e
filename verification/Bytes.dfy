/** Bytes, fixed-width integers and the byte-level arithmetic every codec here shares. */
module Bytes {
  type byte = x: int | 0 <= x < 256
  type u16 = x: int | 0 <= x < 0x1_0000
  type u32 = x: int | 0 <= x < 0x1_0000_0000

  function Pow256(k: nat): (p: nat)
    ensures p > 0
  {
    if k == 0 then 1 else 256 * Pow256(k - 1)
  }

  /** `n.to_bytes(k, "little")` for an `n` that fits. */
  function ToLE(n: nat, k: nat): (s: seq<byte>)
    ensures |s| == k
  {
    if k == 0 then [] else [n % 256] + ToLE(n / 256, k - 1)
  }

  /** `int.from_bytes(s, "little")`. */
  function FromLE(s: seq<byte>): nat {
    if s == [] then 0 else s[0] + 256 * FromLE(s[1..])
  }

  /** Network order, as `struct.pack("!H")` and `struct.pack("!Q")` write it. */
  function ToBE(n: nat, k: nat): (s: seq<byte>)
    ensures |s| == k
  {
    if k == 0 then [] else ToBE(n / 256, k - 1) + [n % 256]
  }

  function FromBE(s: seq<byte>): nat {
    if s == [] then 0 else 256 * FromBE(s[..|s| - 1]) + s[|s| - 1]
  }

  /** Pieces one after the other. */
  function Joined(pieces: seq<seq<byte>>): seq<byte> {
    if pieces == [] then [] else pieces[0] + Joined(pieces[1..])
  }

  lemma {:induction false} JoinedSnoc(pieces: seq<seq<byte>>, last: seq<byte>)
    ensures Joined(pieces + [last]) == Joined(pieces) + last
  {
    if pieces == [] {
      assert [last][1..] == [];
      assert pieces + [last] == [last] && last + [] == last && [] + last == last;
    } else {
      JoinedSnoc(pieces[1..], last);
      assert (pieces + [last])[1..] == pieces[1..] + [last];
      assert pieces[0] + (Joined(pieces[1..]) + last) == pieces[0] + Joined(pieces[1..]) + last;
    }
  }

  lemma {:induction false} FromLEToLE(n: nat, k: nat)
    requires n < Pow256(k)
    ensures FromLE(ToLE(n, k)) == n
  {
    if k > 0 {
      FromLEToLE(n / 256, k - 1);
      assert ToLE(n, k)[1..] == ToLE(n / 256, k - 1);
    }
  }

  lemma {:induction false} ToLEFromLE(s: seq<byte>)
    ensures FromLE(s) < Pow256(|s|)
    ensures ToLE(FromLE(s), |s|) == s
  {
    if s != [] {
      ToLEFromLE(s[1..]);
    }
  }

  lemma {:induction false} FromBEToBE(n: nat, k: nat)
    requires n < Pow256(k)
    ensures FromBE(ToBE(n, k)) == n
  {
    if k > 0 {
      FromBEToBE(n / 256, k - 1);
      assert ToBE(n, k)[..k - 1] == ToBE(n / 256, k - 1);
    }
  }

  lemma Widths()
    ensures Pow256(1) == 0x100 && Pow256(2) == 0x1_0000 && Pow256(4) == 0x1_0000_0000
    ensures Pow256(8) == 0x1_0000_0000_0000_0000
  {
    assert Pow256(1) == 256 * Pow256(0);
    assert Pow256(2) == 256 * Pow256(1);
    assert Pow256(3) == 256 * Pow256(2);
    assert Pow256(4) == 256 * Pow256(3);
    assert Pow256(5) == 256 * Pow256(4);
    assert Pow256(6) == 256 * Pow256(5);
    assert Pow256(7) == 256 * Pow256(6);
  }

  /** Two little-endian bytes read back, by index: the form the parsers and the blitter use. */
  lemma {:induction false} FromLE2(s: seq<byte>)
    requires |s| == 2
    ensures FromLE(s) == (s[0] as int) + 256 * (s[1] as int) < 0x1_0000
  {
    assert FromLE(s[1..]) == s[1] + 256 * FromLE(s[1..][1..]);
  }

  /** Exclusive or of the low n bits. */
  function XorLow(a: nat, b: nat, n: nat): nat {
    if n == 0 then 0
    else (if a % 2 == b % 2 then 0 else 1) + 2 * XorLow(a / 2, b / 2, n - 1)
  }

  function Pow2(n: nat): (p: nat)
    ensures p > 0
  {
    if n == 0 then 1 else 2 * Pow2(n - 1)
  }

  lemma {:induction false} XorLowBelow(a: nat, b: nat, n: nat)
    ensures XorLow(a, b, n) < Pow2(n)
  {
    if n > 0 {
      XorLowBelow(a / 2, b / 2, n - 1);
    }
  }

  lemma {:induction false} XorLowTwice(a: nat, b: nat, n: nat)
    requires a < Pow2(n)
    ensures XorLow(XorLow(a, b, n), b, n) == a
  {
    if n > 0 {
      XorLowTwice(a / 2, b / 2, n - 1);
    }
  }

  lemma Pow2Of8()
    ensures Pow2(8) == 256
  {
    assert Pow2(4) == 16 && Pow2(8) == 16 * Pow2(4);
  }

  /** `a ^ b` on bytes. */
  function Xor(a: byte, b: byte): byte {
    XorLowBelow(a, b, 8);
    Pow2Of8();
    XorLow(a, b, 8)
  }

  lemma XorTwice(b: byte, m: byte)
    ensures Xor(Xor(b, m), m) == b
  {
    Pow2Of8();
    XorLowTwice(b, m, 8);
  }

  predicate Bit(n: nat, i: nat) {
    if i == 0 then n % 2 == 1 else Bit(n / 2, i - 1)
  }

  lemma {:induction false} XorLowBit(a: nat, b: nat, n: nat, i: nat)
    requires i < n
    ensures Bit(XorLow(a, b, n), i) <==> Bit(a, i) != Bit(b, i)
  {
    XorHalf(a, b, n);
    hide XorLow;
    if i > 0 {
      XorLowBit(a / 2, b / 2, n - 1, i - 1);
    }
  }

  lemma {:induction false} XorHalf(a: nat, b: nat, n: nat)
    requires n > 0
    ensures XorLow(a, b, n) / 2 == XorLow(a / 2, b / 2, n - 1)
    ensures XorLow(a, b, n) % 2 == 1 <==> a % 2 != b % 2
  {}

  /** Exclusive or: a bit is set where the bits of the two bytes differ. */
  lemma {:induction false} XorBits(a: byte, b: byte, i: nat)
    requires i < 8
    ensures Bit(Xor(a, b), i) <==> Bit(a, i) != Bit(b, i)
  {
    XorLowBit(a, b, 8, i);
  }
}
