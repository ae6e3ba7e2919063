/** Bitwise operators on non-negative integers of any width, as Python's `int` has them. */
module Bits {

  function Pow2(n: nat): (r: nat)
    ensures r > 0
  {
    if n == 0 then 1 else 2 * Pow2(n - 1)
  }

  /** Bit `i` of `x`. */
  predicate Bit(x: nat, i: nat) {
    if i == 0 then x % 2 == 1 else Bit(x / 2, i - 1)
  }

  function FromBit(b: bool): nat {
    if b then 1 else 0
  }

  function And(x: nat, y: nat): nat
    decreases x
  {
    if x == 0 then 0 else 2 * And(x / 2, y / 2) + FromBit(x % 2 == 1 && y % 2 == 1)
  }

  function Or(x: nat, y: nat): nat
    decreases x + y
  {
    if x == 0 && y == 0 then 0 else 2 * Or(x / 2, y / 2) + FromBit(x % 2 == 1 || y % 2 == 1)
  }

  function Xor(x: nat, y: nat): nat
    decreases x + y
  {
    if x == 0 && y == 0 then 0 else 2 * Xor(x / 2, y / 2) + FromBit(x % 2 != y % 2)
  }

  /** `~x & ((1 << m) - 1)`: the complement of the low `m` bits. */
  function Not(x: nat, m: nat): nat {
    if m == 0 then 0 else 2 * Not(x / 2, m - 1) + FromBit(x % 2 == 0)
  }

  /** `x & ((1 << m) - 1)`. */
  function Mask(x: nat, m: nat): nat {
    And(x, Pow2(m) - 1)
  }

  lemma {:induction false} ZeroBits(i: nat)
    ensures !Bit(0, i)
  {
    if i > 0 { ZeroBits(i - 1); }
  }

  lemma Digits(a: nat, b: bool)
    ensures (2 * a + FromBit(b)) / 2 == a
    ensures (2 * a + FromBit(b)) % 2 == 1 <==> b
  {
  }

  lemma {:induction false} AndBit(x: nat, y: nat, i: nat)
    ensures Bit(And(x, y), i) <==> Bit(x, i) && Bit(y, i)
    decreases i
  {
    if x == 0 {
      ZeroBits(i);
    } else {
      Digits(And(x / 2, y / 2), x % 2 == 1 && y % 2 == 1);
      if i > 0 { AndBit(x / 2, y / 2, i - 1); }
    }
  }

  lemma {:induction false} OrBit(x: nat, y: nat, i: nat)
    ensures Bit(Or(x, y), i) <==> Bit(x, i) || Bit(y, i)
    decreases i
  {
    if x == 0 && y == 0 {
      ZeroBits(i);
    } else {
      Digits(Or(x / 2, y / 2), x % 2 == 1 || y % 2 == 1);
      if i > 0 { OrBit(x / 2, y / 2, i - 1); }
    }
  }

  lemma {:induction false} XorBit(x: nat, y: nat, i: nat)
    ensures Bit(Xor(x, y), i) <==> Bit(x, i) != Bit(y, i)
    decreases i
  {
    if x == 0 && y == 0 {
      ZeroBits(i);
    } else {
      Digits(Xor(x / 2, y / 2), x % 2 != y % 2);
      if i > 0 { XorBit(x / 2, y / 2, i - 1); }
    }
  }

  lemma {:induction false} NotBit(x: nat, m: nat, i: nat)
    ensures Bit(Not(x, m), i) <==> i < m && !Bit(x, i)
    decreases i
  {
    if m == 0 {
      ZeroBits(i);
    } else {
      Digits(Not(x / 2, m - 1), x % 2 == 0);
      if i > 0 { NotBit(x / 2, m - 1, i - 1); }
    }
  }

  lemma {:induction false} FullBit(m: nat, i: nat)
    ensures Bit(Pow2(m) - 1, i) <==> i < m
    decreases i
  {
    if m == 0 {
      ZeroBits(i);
    } else if i > 0 {
      FullBit(m - 1, i - 1);
      assert (Pow2(m) - 1) / 2 == Pow2(m - 1) - 1;
    }
  }

  lemma {:induction false} MaskBit(x: nat, m: nat, i: nat)
    ensures Bit(Mask(x, m), i) <==> i < m && Bit(x, i)
  {
    AndBit(x, Pow2(m) - 1, i);
    FullBit(m, i);
  }

  lemma {:induction false} PowerBit(k: nat, i: nat)
    ensures Bit(Pow2(k), i) <==> i == k
    decreases i
  {
    if k == 0 {
      if i > 0 { ZeroBits(i - 1); }
    } else if i > 0 {
      PowerBit(k - 1, i - 1);
    }
  }

  /** `x << 1` moves every bit up by one. */
  lemma {:induction false} ShiftBit(x: nat, i: nat)
    ensures Bit(2 * x, i) <==> i > 0 && Bit(x, i - 1)
  {
  }

  /** The carry into bit `i` when `x`, `y` and the carry-in `c` are added. */
  predicate Carry(x: nat, y: nat, c: bool, i: nat) {
    if i == 0 then c
    else
      var a, b, k := Bit(x, i - 1), Bit(y, i - 1), Carry(x, y, c, i - 1);
      (a && b) || (a && k) || (b && k)
  }

  lemma {:induction false} CarryHalf(x: nat, y: nat, c: bool, i: nat)
    requires i > 0
    ensures Carry(x, y, c, i) == Carry(x / 2, y / 2, Carry(x, y, c, 1), i - 1)
    decreases i
  {
    if i > 1 { CarryHalf(x, y, c, i - 1); }
  }

  /** Integer addition is ripple-carry addition on the bits. */
  lemma {:induction false} AddBit(x: nat, y: nat, c: bool, i: nat)
    ensures Bit(x + y + FromBit(c), i) <==> ((Bit(x, i) != Bit(y, i)) != Carry(x, y, c, i))
    decreases i
  {
    if i > 0 {
      var c' := Carry(x, y, c, 1);
      assert c' == ((Bit(x, 0) && Bit(y, 0)) || (Bit(x, 0) && Carry(x, y, c, 0)) || (Bit(y, 0) && Carry(x, y, c, 0)));
      assert c' <==> x % 2 + y % 2 + FromBit(c) >= 2;
      assert (x + y + FromBit(c)) / 2 == x / 2 + y / 2 + FromBit(c');
      AddBit(x / 2, y / 2, c', i - 1);
      CarryHalf(x, y, c, i);
    }
  }
}
