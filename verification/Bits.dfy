/** Bitwise operations on machine words, written as arithmetic on naturals. */
module Bits {

  type Byte = b: nat | b < 0x100
  type Word = r: nat | r < 0x1_0000

  /** One more than the largest unsigned 64-bit integer. */
  const U64: nat := 0x1_0000_0000_0000_0000

  function Bit(p: bool): nat {
    if p then 1 else 0
  }

  /** `u` shifted left by `k` bits, without a width limit. */
  function Shl(u: nat, k: nat): nat {
    if k == 0 then u else 2 * Shl(u, k - 1)
  }

  /** Bitwise exclusive or. */
  function Xor(a: nat, b: nat): nat
    decreases a + b
  {
    if a == 0 && b == 0 then 0 else 2 * Xor(a / 2, b / 2) + Bit(a % 2 != b % 2)
  }

  /** Bitwise or. */
  function Or(a: nat, b: nat): nat
    decreases a + b
  {
    if a == 0 && b == 0 then 0 else 2 * Or(a / 2, b / 2) + Bit(a % 2 == 1 || b % 2 == 1)
  }

  /** Whether the number of one bits is odd. */
  function Parity(a: nat): bool {
    if a == 0 then false else Parity(a / 2) != (a % 2 == 1)
  }

  lemma {:induction false} XorComm(a: nat, b: nat)
    ensures Xor(a, b) == Xor(b, a)
    decreases a + b
  {
    if a + b > 0 {
      XorComm(a / 2, b / 2);
    }
  }

  lemma {:induction false} XorZero(a: nat)
    ensures Xor(a, 0) == a && Xor(0, a) == a
  {
    if a > 0 {
      XorZero(a / 2);
    }
  }

  lemma {:induction false} XorSelf(a: nat)
    ensures Xor(a, a) == 0
  {
    if a > 0 {
      XorSelf(a / 2);
    }
  }

  lemma XorHalves(a: nat, b: nat)
    ensures Xor(a, b) / 2 == Xor(a / 2, b / 2)
    ensures Xor(a, b) % 2 == Bit(a % 2 != b % 2)
  {
  }

  lemma {:induction false} XorAssoc(a: nat, b: nat, c: nat)
    ensures Xor(Xor(a, b), c) == Xor(a, Xor(b, c))
    decreases a + b + c
  {
    if a + b + c > 0 {
      XorHalves(a, b);
      XorHalves(b, c);
      XorHalves(Xor(a, b), c);
      XorHalves(a, Xor(b, c));
      XorAssoc(a / 2, b / 2, c / 2);
    }
  }

  lemma XorDouble(a: nat, b: nat, p: bool, q: bool)
    ensures Xor(2 * a + Bit(p), 2 * b + Bit(q)) == 2 * Xor(a, b) + Bit(p != q)
  {
    XorHalves(2 * a + Bit(p), 2 * b + Bit(q));
  }

  lemma XorSplitStep(a: nat, x: nat, b: nat, y: nat, c: nat)
    requires Xor(a + x / 2, b + y / 2) == c + Xor(x / 2, y / 2)
    ensures Xor(2 * a + x, 2 * b + y) == 2 * c + Xor(x, y)
    ensures Xor(x, y) == 2 * Xor(x / 2, y / 2) + Bit(x % 2 != y % 2)
  {
    hide Xor;
    var p, q := x % 2 == 1, y % 2 == 1;
    XorDouble(a + x / 2, b + y / 2, p, q);
    XorDouble(x / 2, y / 2, p, q);
    assert x == 2 * (x / 2) + Bit(p) && y == 2 * (y / 2) + Bit(q);
  }

  /** Exclusive or works separately on the lowest `k` bits and on the rest. */
  lemma {:induction false} XorSplit(k: nat, x: nat, u: nat, y: nat, v: nat)
    requires x < Shl(1, k) && y < Shl(1, k)
    ensures Xor(Shl(u, k) + x, Shl(v, k) + y) == Shl(Xor(u, v), k) + Xor(x, y)
    ensures Xor(x, y) < Shl(1, k)
  {
    if k > 0 {
      XorSplit(k - 1, x / 2, u, y / 2, v);
      XorSplitStep(Shl(u, k - 1), x, Shl(v, k - 1), y, Shl(Xor(u, v), k - 1));
    }
  }

  lemma Shifts(u: nat)
    ensures Shl(u, 1) == 2 * u && Shl(u, 7) == 0x80 * u && Shl(u, 8) == 0x100 * u
    ensures Shl(u, 15) == 0x8000 * u && Shl(u, 16) == 0x1_0000 * u
  {
    assert Shl(u, 4) == 2 * Shl(u, 3) == 4 * Shl(u, 2) == 8 * Shl(u, 1) == 16 * u;
    assert Shl(u, 8) == 2 * Shl(u, 7) == 4 * Shl(u, 6) == 8 * Shl(u, 5) == 16 * Shl(u, 4);
    assert Shl(u, 12) == 2 * Shl(u, 11) == 4 * Shl(u, 10) == 8 * Shl(u, 9) == 16 * Shl(u, 8);
    assert Shl(u, 16) == 2 * Shl(u, 15) == 4 * Shl(u, 14) == 8 * Shl(u, 13) == 16 * Shl(u, 12);
  }

  lemma XorWord(a: Word, b: Word)
    ensures Xor(a, b) < 0x1_0000
  {
    Shifts(0);
    Shifts(1);
    XorSplit(16, a, 0, b, 0);
  }

  lemma XorByte(a: Byte, b: Byte)
    ensures Xor(a, b) < 0x100
  {
    Shifts(0);
    Shifts(1);
    XorSplit(8, a, 0, b, 0);
  }

  lemma XorCancel(a: nat, b: nat, c: nat)
    requires Xor(a, c) == Xor(b, c)
    ensures a == b
  {
    XorAssoc(a, c, c);
    XorAssoc(b, c, c);
    XorSelf(c);
    XorZero(a);
    XorZero(b);
  }

  lemma XorZeroIffEqual(a: nat, b: nat)
    ensures Xor(a, b) == 0 <==> a == b
  {
    XorSelf(b);
    if Xor(a, b) == 0 {
      XorCancel(a, b, b);
    }
  }

  /** The middle two of four operands may be exchanged. */
  lemma XorExchange(a: nat, b: nat, c: nat, d: nat)
    ensures Xor(Xor(a, b), Xor(c, d)) == Xor(Xor(a, c), Xor(b, d))
  {
    XorAssoc(a, b, Xor(c, d));
    XorAssoc(b, c, d);
    XorComm(b, c);
    XorAssoc(c, b, d);
    XorAssoc(a, c, Xor(b, d));
  }

  lemma {:induction false} ParityXor(a: nat, b: nat)
    ensures Parity(Xor(a, b)) <==> Parity(a) != Parity(b)
    decreases a + b
  {
    if a + b > 0 {
      ParityXor(a / 2, b / 2);
      XorHalves(a, b);
    }
  }

  /** The parity of two separate groups of bits. */
  lemma {:induction false} ParityAdds(u: nat, x: nat, k: nat)
    requires x < Shl(1, k)
    ensures Parity(Shl(u, k) + x) <==> Parity(u) != Parity(x)
  {
    if k > 0 {
      ParityAdds(u, x / 2, k - 1);
      assert (Shl(u, k) + x) / 2 == Shl(u, k - 1) + x / 2 && (Shl(u, k) + x) % 2 == x % 2;
    }
  }

  /** Setting a bit at and below which there is none is adding it. */
  lemma {:induction false} OrAdds(q: nat, k: nat)
    ensures Or(Shl(q, k + 1), Shl(1, k)) == Shl(q, k + 1) + Shl(1, k)
  {
    if k == 0 {
      OrZero(q);
    } else {
      OrAdds(q, k - 1);
    }
  }

  lemma {:induction false} OrZero(a: nat)
    ensures Or(a, 0) == a
  {
    if a > 0 {
      OrZero(a / 2);
    }
  }
}
