/** Exclusive or and or of octets, bit by bit. */
module Bits {
  import opened Wrappers

  function Pow2(n: nat): nat {
    if n == 0 then 1 else 2 * Pow2(n - 1)
  }

  lemma OctetBits()
    ensures Pow2(8) == 0x100
  {
    assert Pow2(4) == 16;
  }

  /** The low `n` bits combined by a rule for one bit. */
  function Combined(n: nat, rule: (nat, nat) -> nat, a: nat, b: nat): (r: nat)
    requires a < Pow2(n) && b < Pow2(n) && forall x, y :: rule(x, y) < 2
    ensures r < Pow2(n)
  {
    if n == 0 then 0 else rule(a % 2, b % 2) + 2 * Combined(n - 1, rule, a / 2, b / 2)
  }

  function XorBit(x: nat, y: nat): nat { if x == y then 0 else 1 }

  function OrBit(x: nat, y: nat): nat { if x == 0 && y == 0 then 0 else 1 }

  function Xor(a: byte, b: byte): byte {
    OctetBits();
    Combined(8, XorBit, a, b)
  }

  function Or(a: byte, b: byte): byte {
    OctetBits();
    Combined(8, OrBit, a, b)
  }

  /** Bit `i` of a number. */
  function Bit(a: nat, i: nat): nat { if i == 0 then a % 2 else Bit(a / 2, i - 1) }

  lemma {:induction false} CombinedBit(n: nat, rule: (nat, nat) -> nat, a: nat, b: nat, i: nat)
    requires a < Pow2(n) && b < Pow2(n) && i < n && forall x, y :: rule(x, y) < 2
    ensures Bit(Combined(n, rule, a, b), i) == rule(Bit(a, i), Bit(b, i))
  {
    var r := Combined(n, rule, a, b);
    assert r % 2 == rule(a % 2, b % 2) && r / 2 == Combined(n - 1, rule, a / 2, b / 2);
    if i > 0 { CombinedBit(n - 1, rule, a / 2, b / 2, i - 1); }
  }

  /** A bit of the exclusive or is set where the two bits differ, one of the or where either is set. */
  lemma OctetBit(a: byte, b: byte, i: nat)
    requires i < 8
    ensures Bit(Xor(a, b), i) == 1 <==> Bit(a, i) != Bit(b, i)
    ensures Bit(Or(a, b), i) == 0 <==> Bit(a, i) == 0 && Bit(b, i) == 0
  {
    OctetBits();
    CombinedBit(8, XorBit, a, b, i);
    CombinedBit(8, OrBit, a, b, i);
  }

  lemma {:induction false} SameBits(n: nat, a: nat, b: nat)
    requires a < Pow2(n) && b < Pow2(n) && forall i :: 0 <= i < n ==> Bit(a, i) == Bit(b, i)
    ensures a == b
  {
    if n > 0 {
      assert Bit(a, 0) == Bit(b, 0);
      forall i | 0 <= i < n - 1 ensures Bit(a / 2, i) == Bit(b / 2, i) { assert Bit(a, i + 1) == Bit(b, i + 1); }
      SameBits(n - 1, a / 2, b / 2);
    }
  }

  lemma {:induction false} BitOfZero(i: nat)
    ensures Bit(0, i) == 0
  {
    if i > 0 { BitOfZero(i - 1); }
  }

  lemma {:induction false} BitIsBit(a: nat, i: nat)
    ensures Bit(a, i) < 2
  {
    if i > 0 { BitIsBit(a / 2, i - 1); }
  }

  /** Twice the same octet cancels out. */
  lemma XorCancels(a: byte, b: byte)
    ensures Xor(Xor(a, b), b) == a
  {
    OctetBits();
    forall i | 0 <= i < 8 ensures Bit(Xor(Xor(a, b), b), i) == Bit(a, i) {
      OctetBit(a, b, i);
      OctetBit(Xor(a, b), b, i);
      BitIsBit(a, i);
      BitIsBit(b, i);
      BitIsBit(Xor(a, b), i);
      BitIsBit(Xor(Xor(a, b), b), i);
    }
    SameBits(8, Xor(Xor(a, b), b), a);
  }

  /** No bit is left of the differences exactly when there were none. */
  lemma OrXorZero(d: byte, x: byte, y: byte)
    ensures Or(d, Xor(x, y)) == 0 <==> d == 0 && x == y
  {
    OctetBits();
    forall i | 0 <= i < 8 ensures Bit(Or(d, Xor(x, y)), i) == 0 <==> Bit(d, i) == 0 && Bit(x, i) == Bit(y, i) {
      OctetBit(x, y, i);
      OctetBit(d, Xor(x, y), i);
      BitIsBit(Xor(x, y), i);
    }
    forall i ensures Bit(0, i) == 0 { BitOfZero(i); }
    if Or(d, Xor(x, y)) == 0 {
      SameBits(8, d, 0);
      SameBits(8, x, y);
    } else if d == 0 && x == y {
      forall i | 0 <= i < 8 ensures Bit(Or(d, Xor(x, y)), i) == Bit(0, i) {
        BitIsBit(Or(d, Xor(x, y)), i);
      }
      SameBits(8, Or(d, Xor(x, y)), 0);
    }
  }
}
