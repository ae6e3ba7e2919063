/** Bytes, and numbers packed into them. */
module Bytes {
  import opened Bits

  type Byte = b: int | 0 <= b < 256
  type Word = w: int | 0 <= w < 0x1_0000_0000

  /** `struct.pack(">I", w)`. */
  function Big(w: Word): (s: seq<Byte>)
    ensures |s| == 4
  {
    var a: int := w / 256;
    var b: int := a / 256;
    var c: int := b / 256;
    [c, b % 256, a % 256, w % 256]
  }

  function FromBig(s: seq<Byte>): (w: Word)
    requires |s| == 4
  {
    var a: int, b: int, c: int, d: int := s[0], s[1], s[2], s[3];
    ((a * 256 + b) * 256 + c) * 256 + d
  }

  /** `struct.pack("<H", v)`. */
  function Little(v: int): (s: seq<Byte>)
    requires 0 <= v < 0x1_0000
    ensures |s| == 2
  {
    [v % 256, v / 256]
  }

  function FromLittle(s: seq<Byte>): (v: int)
    requires |s| == 2
    ensures 0 <= v < 0x1_0000
  {
    var a: int, b: int := s[0], s[1];
    a + 256 * b
  }

  /** Most significant byte first. */
  lemma BigIs(w: Word)
    ensures var s := Big(w);
            var a: int, b: int, c: int, d: int := s[0], s[1], s[2], s[3];
            w == 16_777_216 * a + 65_536 * b + 256 * c + d
  {
  }

  /** Least significant byte first. */
  lemma LittleIs(v: int)
    requires 0 <= v < 0x1_0000
    ensures var s := Little(v); var a: int, b: int := s[0], s[1]; v == a + 256 * b
  {
  }

  lemma BigRoundTrip(w: Word)
    ensures FromBig(Big(w)) == w
  {
  }

  lemma BigIsOnto(s: seq<Byte>)
    requires |s| == 4
    ensures Big(FromBig(s)) == s
  {
    var a: int, b: int, c: int, d: int := s[0], s[1], s[2], s[3];
    var w: int := FromBig(s);
    assert w / 256 == (a * 256 + b) * 256 + c;
  }

  lemma LittleRoundTrip(v: int)
    requires 0 <= v < 0x1_0000
    ensures FromLittle(Little(v)) == v
  {
  }

  /** Exclusive or with all ones is the complement. */
  lemma {:induction false} XorOnes(x: nat, m: nat)
    requires x < Pow2(m)
    ensures Xor(x, Pow2(m) - 1) == Pow2(m) - 1 - x
  {
    if m > 0 {
      var half, ones := x / 2, Pow2(m - 1) - 1;
      XorOnes(half, m - 1);
      Digits(ones, true);
      assert Xor(x, 2 * ones + 1) == 2 * Xor(half, ones) + FromBit(x % 2 != 1);
    }
  }
}
