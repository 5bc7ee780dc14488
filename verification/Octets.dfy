/** Octets as numbers, and exclusive or on them. */
module Octets {
  type byte = n: int | 0 <= n < 256

  /** Bitwise exclusive or of the k low bits: a digit is 1 where the two differ. */
  function XorLow(a: nat, b: nat, k: nat): nat {
    if k == 0 then 0 else 2 * XorLow(a / 2, b / 2, k - 1) + if a % 2 == b % 2 then 0 else 1
  }

  function Power2(k: nat): nat {
    if k == 0 then 1 else 2 * Power2(k - 1)
  }

  lemma {:induction false} XorLowBound(a: nat, b: nat, k: nat)
    ensures XorLow(a, b, k) < Power2(k)
  {
    if k > 0 {
      XorLowBound(a / 2, b / 2, k - 1);
    }
  }

  function Xor(a: byte, b: byte): byte {
    XorLowBound(a, b, 8);
    assert Power2(8) == 256;
    XorLow(a, b, 8)
  }

  lemma {:induction false} XorLowZero(a: nat, k: nat)
    requires a < Power2(k)
    ensures XorLow(a, 0, k) == a
  {
    if k > 0 {
      XorLowZero(a / 2, k - 1);
    }
  }

  lemma {:induction false} XorLowSelf(a: nat, k: nat)
    ensures XorLow(a, a, k) == 0
  {
    if k > 0 {
      XorLowSelf(a / 2, k - 1);
    }
  }

  lemma {:induction false} XorLowCommutes(a: nat, b: nat, k: nat)
    ensures XorLow(a, b, k) == XorLow(b, a, k)
  {
    if k > 0 {
      XorLowCommutes(a / 2, b / 2, k - 1);
    }
  }

  lemma {:induction false} XorLowAssociates(a: nat, b: nat, c: nat, k: nat)
    ensures XorLow(XorLow(a, b, k), c, k) == XorLow(a, XorLow(b, c, k), k)
  {
    if k > 0 {
      var ab, bc := XorLow(a, b, k), XorLow(b, c, k);
      assert ab / 2 == XorLow(a / 2, b / 2, k - 1);
      assert bc / 2 == XorLow(b / 2, c / 2, k - 1);
      XorLowAssociates(a / 2, b / 2, c / 2, k - 1);
    }
  }

  lemma XorZero(a: byte)
    ensures Xor(a, 0) == a
  {
    assert Power2(8) == 256;
    XorLowZero(a, 8);
  }

  lemma XorSelf(a: byte)
    ensures Xor(a, a) == 0
  {
    XorLowSelf(a, 8);
  }

  lemma XorCommutes(a: byte, b: byte)
    ensures Xor(a, b) == Xor(b, a)
  {
    XorLowCommutes(a, b, 8);
  }

  lemma XorAssociates(a: byte, b: byte, c: byte)
    ensures Xor(Xor(a, b), c) == Xor(a, Xor(b, c))
  {
    XorLowAssociates(a, b, c, 8);
  }
}
