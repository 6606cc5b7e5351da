/** What the CRC guarantees for messages of any length: it is affine, and it detects every odd
    number of wrong bits and every burst of at most 16 bits. */
module CrcDetection {
  import opened Bits
  import opened Crc

  function XorBits(u: seq<bool>, v: seq<bool>): (w: seq<bool>)
    requires |u| == |v|
    ensures |w| == |u|
    ensures forall i | 0 <= i < |u| :: w[i] == (u[i] != v[i])
  {
    seq(|u|, i requires 0 <= i < |u| => u[i] != v[i])
  }

  function XorBytes(a: seq<Byte>, b: seq<Byte>): (c: seq<Byte>)
    requires |a| == |b|
    ensures |c| == |a|
    ensures forall i | 0 <= i < |a| :: c[i] == Xor(a[i], b[i])
  {
    if a == [] then []
    else
      XorByte(a[|a| - 1], b[|b| - 1]);
      XorBytes(a[..|a| - 1], b[..|b| - 1]) + [Xor(a[|a| - 1], b[|b| - 1])]
  }

  lemma {:induction false} FeedBitsLinear(a: Word, b: Word, u: seq<bool>, v: seq<bool>)
    requires |u| == |v|
    ensures Xor(a, b) < 0x1_0000
    ensures FeedBits(Xor(a, b), XorBits(u, v)) == Xor(FeedBits(a, u), FeedBits(b, v))
  {
    XorWord(a, b);
    if u != [] {
      var n := |u| - 1;
      assert XorBits(u, v)[..n] == XorBits(u[..n], v[..n]);
      FeedBitsLinear(a, b, u[..n], v[..n]);
      FeedBitLinear(FeedBits(a, u[..n]), FeedBits(b, v[..n]), u[n], v[n]);
    }
  }

  lemma {:induction false} LowBitsXor(x: nat, y: nat, n: nat)
    ensures LowBits(Xor(x, y), n) == XorBits(LowBits(x, n), LowBits(y, n))
  {
    if n > 0 {
      XorHalves(x, y);
      LowBitsXor(x / 2, y / 2, n - 1);
    }
  }

  lemma {:induction false} BitsOfXor(a: seq<Byte>, b: seq<Byte>)
    requires |a| == |b|
    ensures BitsOf(XorBytes(a, b)) == XorBits(BitsOf(a), BitsOf(b))
  {
    if a != [] {
      var n := |a| - 1;
      assert XorBytes(a, b)[..n] == XorBytes(a[..n], b[..n]);
      BitsOfXor(a[..n], b[..n]);
      LowBitsXor(a[n], b[n], 8);
    }
  }

  lemma {:induction false} ReflectLinear(x: nat, y: nat, n: nat)
    ensures Reflect(Xor(x, y), n) == Xor(Reflect(x, n), Reflect(y, n))
  {
    if n == 0 {
      XorZero(0);
    } else {
      hide *;
      var p, q := x % 2 == 1, y % 2 == 1;
      var u, v := Reflect(x / 2, n - 1), Reflect(y / 2, n - 1);
      OddXor(x, y);
      ReflectLinear(x / 2, y / 2, n - 1);
      ReflectStep(x, x / 2, n, p);
      ReflectStep(y, y / 2, n, q);
      ReflectStep(Xor(x, y), Xor(x / 2, y / 2), n, p != q);
      XorTopmost(n - 1, p, u, q, v, Reflect(x, n), Reflect(y, n));
    }
  }

  lemma OddXor(x: nat, y: nat)
    ensures Xor(x, y) / 2 == Xor(x / 2, y / 2)
    ensures Xor(x, y) % 2 == 1 <==> (x % 2 == 1) != (y % 2 == 1)
  {
    XorHalves(x, y);
  }

  lemma ReflectStep(data: nat, half: nat, n: nat, odd: bool)
    requires n > 0 && odd == (data % 2 == 1) && half == data / 2
    ensures Reflect(data, n) == (if odd then Shl(1, n - 1) else 0) + Reflect(half, n - 1)
  {
  }

  lemma XorTopmost(k: nat, p: bool, x: nat, q: bool, y: nat, a: nat, b: nat)
    requires x < Shl(1, k) && y < Shl(1, k)
    requires a == (if p then Shl(1, k) else 0) + x && b == (if q then Shl(1, k) else 0) + y
    ensures Xor(a, b) == (if p != q then Shl(1, k) else 0) + Xor(x, y)
  {
    hide *;
    XorSplit(k, x, Bit(p), y, Bit(q));
    TopBit(p, k);
    TopBit(q, k);
    TopBit(p != q, k);
    XorBit(p, q);
  }

  lemma TopBit(p: bool, k: nat)
    ensures Shl(Bit(p), k) == if p then Shl(1, k) else 0
  {
    ShlZero(k);
  }

  lemma XorBit(p: bool, q: bool)
    ensures Xor(Bit(p), Bit(q)) == Bit(p != q)
  {
  }

  lemma {:induction false} ReflectInjective(x: nat, y: nat, n: nat)
    requires x < Shl(1, n) && y < Shl(1, n) && Reflect(x, n) == Reflect(y, n)
    ensures x == y
  {
    if n > 0 {
      ReflectInjective(x / 2, y / 2, n - 1);
    }
  }

  /** The CRC is affine: over three messages of the same length it commutes with exclusive or. */
  lemma CrcAffine(a: seq<Byte>, b: seq<Byte>, c: seq<Byte>)
    requires |a| == |b| == |c|
    ensures Xor(Xor(CrcOf(a), CrcOf(b)), CrcOf(c)) == CrcOf(XorBytes(XorBytes(a, b), c))
  {
    var ab := XorBytes(a, b);
    var ra, rb, rc := Remainder(a), Remainder(b), Remainder(c);
    BitsOfXor(a, b);
    BitsOfXor(ab, c);
    FeedBitsLinear(INITIAL_REMAINDER, INITIAL_REMAINDER, BitsOf(a), BitsOf(b));
    FeedBitsLinear(Xor(INITIAL_REMAINDER, INITIAL_REMAINDER), INITIAL_REMAINDER, BitsOf(ab), BitsOf(c));
    XorSelf(INITIAL_REMAINDER);
    XorZero(INITIAL_REMAINDER);
    XorWord(ra, rb);
    assert Remainder(XorBytes(ab, c)) == Xor(Xor(ra, rb), rc);
    ReflectLinear(ra, rb, 16);
    ReflectLinear(Xor(ra, rb), rc, 16);
    FinalXor(Reflect(ra, 16), Reflect(rb, 16), Reflect(rc, 16), FINAL_XOR_VALUE);
  }

  lemma FinalXor(x: nat, y: nat, z: nat, f: nat)
    ensures Xor(Xor(Xor(x, f), Xor(y, f)), Xor(z, f)) == Xor(Xor(Xor(x, y), z), f)
  {
    XorExchange(x, f, y, f);
    XorSelf(f);
    XorZero(Xor(x, y));
    XorAssoc(Xor(x, y), z, f);
  }

  /** Equal CRCs mean equal remainders. */
  lemma CrcTellsRemainder(a: seq<Byte>, b: seq<Byte>)
    ensures CrcOf(a) == CrcOf(b) <==> Remainder(a) == Remainder(b)
  {
    if CrcOf(a) == CrcOf(b) {
      XorCancel(ReflectRemainder(Remainder(a)), ReflectRemainder(Remainder(b)), FINAL_XOR_VALUE);
      Shifts(1);
      ReflectInjective(Remainder(a), Remainder(b), 16);
    }
  }

  // An odd number of wrong bits.

  /** Number of positions at which two bit sequences differ. */
  function Differences(u: seq<bool>, v: seq<bool>): nat
    requires |u| == |v|
  {
    if u == [] then 0
    else Differences(u[..|u| - 1], v[..|v| - 1]) + if u[|u| - 1] != v[|v| - 1] then 1 else 0
  }

  lemma ParityDoubles(a: nat)
    ensures Parity(2 * a) == Parity(a)
  {
  }

  /** The polynomial has an even number of terms, so division keeps the parity of the bits. */
  lemma DivideStepParity(r: Word)
    ensures Parity(DivideStep(r)) == Parity(r)
  {
    hide Xor, Parity;
    if TOPBIT <= r {
      var a := r - TOPBIT;
      XorTop(0, a, true, false);
      XorZero(a);
      ParityXor(TOPBIT, a);
      ParityXor(2 * a, POLYNOMIAL);
      ParityDoubles(a);
      DivideStepAt(a, true);
      ConstantParities();
    } else {
      ParityDoubles(r);
    }
  }

  lemma ConstantParities()
    ensures Parity(TOPBIT) && Parity(POLYNOMIAL)
  {
    Shifts(1);
    ParityAdds(1, 0, 15);
    ParityAdds(1, 5, 15);
    assert Parity(1) && !Parity(0) && !Parity(5);
  }

  lemma FeedBitParity(r: Word, bit: bool)
    ensures Parity(FeedBit(r, bit)) <==> Parity(r) != bit
  {
    XorWord(r, TOPBIT);
    ParityXor(r, TOPBIT);
    ConstantParities();
    DivideStepParity(if bit then Xor(r, TOPBIT) else r);
  }

  lemma {:induction false} FeedBitsParity(r: Word, u: seq<bool>, v: seq<bool>)
    requires |u| == |v|
    ensures Parity(FeedBits(r, u)) == Parity(FeedBits(r, v)) <==> Differences(u, v) % 2 == 0
  {
    hide FeedBit, Parity;
    if u != [] {
      var n := |u| - 1;
      FeedBitsParity(r, u[..n], v[..n]);
      FeedBitParity(FeedBits(r, u[..n]), u[n]);
      FeedBitParity(FeedBits(r, v[..n]), v[n]);
    }
  }

  /** Messages of the same length that differ in an odd number of bits have different CRCs. */
  lemma OddErrorsDetected(a: seq<Byte>, b: seq<Byte>)
    requires |a| == |b| && Differences(BitsOf(a), BitsOf(b)) % 2 == 1
    ensures CrcOf(a) != CrcOf(b)
  {
    CrcTellsRemainder(a, b);
    FeedBitsParity(INITIAL_REMAINDER, BitsOf(a), BitsOf(b));
  }

  // A burst of wrong bits.

  function ValueOf(bits: seq<bool>): nat {
    if bits == [] then 0 else Bit(bits[0]) + 2 * ValueOf(bits[1..])
  }

  lemma {:induction false} LowBitsOfValue(bits: seq<bool>)
    ensures LowBits(ValueOf(bits), |bits|) == bits
  {
    if bits != [] {
      LowBitsOfValue(bits[1..]);
    }
  }

  lemma {:induction false} DivideStepsInjective(a: Word, b: Word, n: nat)
    requires DivideSteps(a, n) == DivideSteps(b, n)
    ensures a == b
  {
    if n > 0 {
      DivideStepInjective(DivideSteps(a, n - 1), DivideSteps(b, n - 1));
      DivideStepsInjective(a, b, n - 1);
    }
  }

  lemma {:induction false} DivideStepsZero(n: nat)
    ensures DivideSteps(0, n) == 0
  {
    if n > 0 {
      DivideStepsZero(n - 1);
    }
  }

  lemma {:induction false} ShlPositive(u: nat, k: nat)
    ensures Shl(u, k) == 0 <==> u == 0
  {
    if k > 0 {
      ShlPositive(u, k - 1);
    }
  }

  lemma {:induction false} ReflectZero(data: nat, n: nat)
    requires Reflect(data, n) == 0
    ensures true !in LowBits(data, n)
  {
    if n > 0 {
      ShlPositive(1, n - 1);
      ReflectZero(data / 2, n - 1);
    }
  }

  /** At most 16 bits that are not all zero leave a nonzero remainder. */
  lemma WindowNonzero(w: seq<bool>)
    requires |w| <= 16 && true in w
    ensures FeedBits(0, w) != 0
  {
    var data, n := ValueOf(w), |w|;
    LowBitsOfValue(w);
    FeedReflected(0, data, n);
    XorZero(AtTop(data, n));
    DivideStepsZero(n);
    if FeedBits(0, w) == 0 {
      DivideStepsInjective(AtTop(data, n), 0, n);
      ShlPositive(Reflect(data, n), 16 - n);
      ReflectZero(data, n);
    }
  }

  /** Different bits within a window of 16, between equal bits, leave different remainders. */
  lemma BurstLeavesTrace(r: Word, before: seq<bool>, u: seq<bool>, v: seq<bool>, after: seq<bool>)
    requires |u| == |v| <= 16 && u != v
    ensures FeedBits(r, before + u + after) != FeedBits(r, before + v + after)
  {
    var s := FeedBits(r, before);
    var i :| 0 <= i < |u| && u[i] != v[i];
    assert XorBits(u, v)[i];
    WindowNonzero(XorBits(u, v));
    FeedBitsLinear(s, s, u, v);
    XorSelf(s);
    XorZeroIffEqual(FeedBits(s, u), FeedBits(s, v));
    FeedBitsAppend(r, before, u);
    FeedBitsAppend(r, before, v);
    FeedBitsAppend(r, before + u, after);
    FeedBitsAppend(r, before + v, after);
    if FeedBits(r, before + u + after) == FeedBits(r, before + v + after) {
      FeedBitsInjective(FeedBits(s, u), FeedBits(s, v), after);
    }
  }

  lemma SplitAround(u: seq<bool>, v: seq<bool>, start: nat, length: nat)
    requires |u| == |v| && start + length <= |u|
    requires forall i | 0 <= i < |u| && !(start <= i < start + length) :: u[i] == v[i]
    ensures v == u[..start] + v[start..start + length] + u[start + length..]
  {
  }

  /** Different messages of the same length whose bits differ only within 16 consecutive positions,
      at any alignment, have different CRCs. */
  lemma BurstDetected(a: seq<Byte>, b: seq<Byte>, start: nat, length: nat)
    requires |a| == |b| && length <= 16 && start + length <= 8 * |a|
    requires BitsOf(a) != BitsOf(b)
    requires forall i | 0 <= i < 8 * |a| && !(start <= i < start + length) :: BitsOf(a)[i] == BitsOf(b)[i]
    ensures CrcOf(a) != CrcOf(b)
  {
    var u, v := BitsOf(a), BitsOf(b);
    SplitAround(u, u, start, length);
    SplitAround(u, v, start, length);
    BurstLeavesTrace(INITIAL_REMAINDER, u[..start], u[start..start + length], v[start..start + length], u[start + length..]);
    CrcTellsRemainder(a, b);
  }

  lemma {:induction false} BitsOfAppend(a: seq<Byte>, b: seq<Byte>)
    ensures BitsOf(a + b) == BitsOf(a) + BitsOf(b)
  {
    if b == [] {
      assert a + b == a;
    } else {
      assert (a + b)[..|a + b| - 1] == a + b[..|b| - 1];
      BitsOfAppend(a, b[..|b| - 1]);
    }
  }

  lemma {:induction false} LowBitsInjective(x: nat, y: nat, n: nat)
    requires x < Shl(1, n) && y < Shl(1, n) && LowBits(x, n) == LowBits(y, n)
    ensures x == y
  {
    if n > 0 {
      assert LowBits(x, n)[1..] == LowBits(x / 2, n - 1) && LowBits(y, n)[1..] == LowBits(y / 2, n - 1);
      assert LowBits(x, n)[0] == LowBits(y, n)[0];
      LowBitsInjective(x / 2, y / 2, n - 1);
    }
  }

  lemma {:induction false} BitsOfInjective(a: seq<Byte>, b: seq<Byte>)
    requires |a| == |b| && BitsOf(a) == BitsOf(b)
    ensures a == b
  {
    if a != [] {
      var n := |a| - 1;
      assert BitsOf(a)[..8 * n] == BitsOf(a[..n]) && BitsOf(b)[..8 * n] == BitsOf(b[..n]);
      assert BitsOf(a)[8 * n..] == LowBits(a[n], 8) && BitsOf(b)[8 * n..] == LowBits(b[n], 8);
      BitsOfInjective(a[..n], b[..n]);
      Shifts(1);
      LowBitsInjective(a[n], b[n], 8);
    }
  }

  /** Messages that differ only within two adjacent bytes have different CRCs. */
  lemma AdjacentBytesDetected(before: seq<Byte>, u: seq<Byte>, v: seq<Byte>, after: seq<Byte>)
    requires |u| == |v| <= 2 && u != v
    ensures CrcOf(before + u + after) != CrcOf(before + v + after)
  {
    BitsOfAppend(before, u);
    BitsOfAppend(before, v);
    BitsOfAppend(before + u, after);
    BitsOfAppend(before + v, after);
    if BitsOf(u) == BitsOf(v) {
      BitsOfInjective(u, v);
    }
    BurstLeavesTrace(INITIAL_REMAINDER, BitsOf(before), BitsOf(u), BitsOf(v), BitsOf(after));
    CrcTellsRemainder(before + u + after, before + v + after);
  }
}
