/** The CRC-16 of the SPI packets: polynomial 0x8005, reflected data and remainder, and the
    firmware's own start and final values. */
module Crc {
  import opened Bits

  const POLYNOMIAL: Word := 0x8005
  const TOPBIT: Word := 0x8000
  const INITIAL_REMAINDER: Word := 0x6E77
  const FINAL_XOR_VALUE: Word := 0x286C

  /** One step of modulo-2 division of a 16-bit remainder. */
  function DivideStep(r: Word): Word {
    XorWord(ShiftLeft(r), POLYNOMIAL);
    if TOPBIT <= r then Xor(ShiftLeft(r), POLYNOMIAL) else ShiftLeft(r)
  }

  /** A left shift by one bit, truncated to 16 bits. */
  function ShiftLeft(r: Word): (s: Word)
    ensures s == if TOPBIT <= r then 2 * (r - TOPBIT) else 2 * r
  {
    (2 * r) % 0x1_0000
  }

  function DivideSteps(r: Word, n: nat): Word {
    if n == 0 then r else DivideStep(DivideSteps(r, n - 1))
  }

  /** The remainder after one more message bit. */
  function FeedBit(r: Word, bit: bool): Word {
    XorWord(r, TOPBIT);
    DivideStep(if bit then Xor(r, TOPBIT) else r)
  }

  /** Bit-serial polynomial division: the reference that the table-driven code refines. */
  function FeedBits(r: Word, bits: seq<bool>): Word {
    if bits == [] then r else FeedBit(FeedBits(r, bits[..|bits| - 1]), bits[|bits| - 1])
  }

  /** The lowest `n` bits, lowest first, as reflected division consumes them. */
  function LowBits(b: nat, n: nat): (bits: seq<bool>)
    ensures |bits| == n
  {
    if n == 0 then [] else [b % 2 == 1] + LowBits(b / 2, n - 1)
  }

  function BitsOf(message: seq<Byte>): (bits: seq<bool>)
    ensures |bits| == 8 * |message|
  {
    if message == [] then [] else BitsOf(message[..|message| - 1]) + LowBits(message[|message| - 1], 8)
  }

  /** The lowest `n` bits in reverse order. */
  function Reflect(data: nat, n: nat): (r: nat)
    ensures r < Shl(1, n)
  {
    if n == 0 then 0 else (if data % 2 == 1 then Shl(1, n - 1) else 0) + Reflect(data / 2, n - 1)
  }

  function ReflectRemainder(r: Word): Word {
    Shifts(1);
    Reflect(r, 16)
  }

  function Remainder(message: seq<Byte>): Word {
    FeedBits(INITIAL_REMAINDER, BitsOf(message))
  }

  /** The CRC of a message by bit-serial division. */
  function CrcOf(message: seq<Byte>): Word {
    XorWord(ReflectRemainder(Remainder(message)), FINAL_XOR_VALUE);
    Xor(ReflectRemainder(Remainder(message)), FINAL_XOR_VALUE)
  }

  /** The table entry of a dividend: the remainder of the dividend followed by zeros. */
  function TableEntry(dividend: Byte): Word {
    DivideSteps(0x100 * dividend, 8)
  }

  // Division is linear and loses nothing.

  lemma XorTop(a: nat, b: nat, p: bool, q: bool)
    requires a < 0x8000 && b < 0x8000
    ensures Xor(0x8000 * Bit(p) + a, 0x8000 * Bit(q) + b) == 0x8000 * Bit(p != q) + Xor(a, b)
    ensures Xor(a, b) < 0x8000
  {
    Shifts(1);
    Shifts(Bit(p));
    Shifts(Bit(q));
    Shifts(Bit(p != q));
    XorSplit(15, a, Bit(p), b, Bit(q));
    assert Xor(Bit(p), Bit(q)) == Bit(p != q);
  }

  lemma DivideStepAt(a: nat, p: bool)
    requires a < 0x8000
    ensures DivideStep(0x8000 * Bit(p) + a) == Xor(2 * a, if p then POLYNOMIAL else 0)
  {
    if p {
      assert ShiftLeft(0x8000 + a) == 2 * a;
    } else {
      XorZero(2 * a);
    }
  }

  lemma XorPolynomials(x: nat, y: nat, p: bool, q: bool, poly: nat)
    ensures Xor(Xor(x, if p then poly else 0), Xor(y, if q then poly else 0)) == Xor(Xor(x, y), if p != q then poly else 0)
  {
    XorExchange(x, if p then poly else 0, y, if q then poly else 0);
    XorSelf(poly);
    XorSelf(0);
    XorZero(poly);
  }

  lemma DivideStepLinear(a: Word, b: Word)
    ensures Xor(a, b) < 0x1_0000 && DivideStep(Xor(a, b)) == Xor(DivideStep(a), DivideStep(b))
  {
    var p, q := 0x8000 <= a, 0x8000 <= b;
    LinearAt(a - 0x8000 * Bit(p), b - 0x8000 * Bit(q), p, q);
  }

  lemma LinearAt(x: nat, y: nat, p: bool, q: bool)
    requires x < 0x8000 && y < 0x8000
    ensures var a, b := 0x8000 * Bit(p) + x, 0x8000 * Bit(q) + y;
            Xor(a, b) < 0x1_0000 && DivideStep(Xor(a, b)) == Xor(DivideStep(a), DivideStep(b))
  {
    XorTop(x, y, p, q);
    DivideStepAt(x, p);
    DivideStepAt(y, q);
    DivideStepAt(Xor(x, y), p != q);
    DoubledXor(x, y);
    XorPolynomials(2 * x, 2 * y, p, q, POLYNOMIAL);
  }

  lemma DoubledXor(x: nat, y: nat)
    ensures Xor(2 * x, 2 * y) == 2 * Xor(x, y)
  {
    XorDouble(x, y, false, false);
  }

  lemma {:induction false} DivideStepsLinear(a: Word, b: Word, n: nat)
    ensures Xor(a, b) < 0x1_0000 && DivideSteps(Xor(a, b), n) == Xor(DivideSteps(a, n), DivideSteps(b, n))
  {
    XorWord(a, b);
    if n > 0 {
      DivideStepsLinear(a, b, n - 1);
      DivideStepLinear(DivideSteps(a, n - 1), DivideSteps(b, n - 1));
    }
  }

  lemma {:induction false} DivideStepsFront(r: Word, n: nat)
    ensures DivideSteps(r, n + 1) == DivideSteps(DivideStep(r), n)
  {
    if n > 0 {
      DivideStepsFront(r, n - 1);
    }
  }

  lemma DivideStepInjective(a: Word, b: Word)
    requires DivideStep(a) == DivideStep(b)
    ensures a == b
  {
    hide Xor, DivideStep;
    var p, q := 0x8000 <= a, 0x8000 <= b;
    var x, y := a - 0x8000 * Bit(p), b - 0x8000 * Bit(q);
    DivideStepAt(x, p);
    DivideStepAt(y, q);
    XorHalves(2 * x, if p then POLYNOMIAL else 0);
    XorHalves(2 * y, if q then POLYNOMIAL else 0);
    XorCancel(2 * x, 2 * y, if p then POLYNOMIAL else 0);
  }

  lemma FeedBitLinear(a: Word, b: Word, p: bool, q: bool)
    ensures Xor(a, b) < 0x1_0000 && FeedBit(Xor(a, b), p != q) == Xor(FeedBit(a, p), FeedBit(b, q))
  {
    XorWord(a, b);
    XorWord(a, TOPBIT);
    XorWord(b, TOPBIT);
    XorPolynomials(a, b, p, q, TOPBIT);
    XorZero(a);
    XorZero(b);
    XorZero(Xor(a, b));
    DivideStepLinear(if p then Xor(a, TOPBIT) else a, if q then Xor(b, TOPBIT) else b);
  }

  lemma FeedBitInjective(a: Word, b: Word, bit: bool)
    requires FeedBit(a, bit) == FeedBit(b, bit)
    ensures a == b
  {
    XorWord(a, TOPBIT);
    XorWord(b, TOPBIT);
    DivideStepInjective(if bit then Xor(a, TOPBIT) else a, if bit then Xor(b, TOPBIT) else b);
    if bit {
      XorCancel(a, b, TOPBIT);
    }
  }

  /** Equal bits appended to two messages keep different remainders different. */
  lemma {:induction false} FeedBitsInjective(a: Word, b: Word, bits: seq<bool>)
    requires FeedBits(a, bits) == FeedBits(b, bits)
    ensures a == b
  {
    if bits != [] {
      var init := bits[..|bits| - 1];
      FeedBitInjective(FeedBits(a, init), FeedBits(b, init), bits[|bits| - 1]);
      FeedBitsInjective(a, b, init);
    }
  }

  lemma {:induction false} FeedBitsAppend(r: Word, u: seq<bool>, v: seq<bool>)
    ensures FeedBits(r, u + v) == FeedBits(FeedBits(r, u), v)
  {
    if v == [] {
      assert u + v == u;
    } else {
      assert (u + v)[..|u + v| - 1] == u + v[..|v| - 1];
      FeedBitsAppend(r, u, v[..|v| - 1]);
    }
  }

  // The table-driven code.

  /** Dividing a remainder that already contains the next bits is feeding the topmost of them. */
  lemma FeedTop(s: Word, bit: bool, z: nat)
    requires z < 0x8000
    ensures var next := 0x8000 * Bit(bit) + z;
            Xor(s, next) < 0x1_0000 && DivideStep(Xor(s, next)) == Xor(FeedBit(s, bit), 2 * z)
  {
    hide Xor, DivideStep;
    var next := 0x8000 * Bit(bit) + z;
    XorWord(s, next);
    XorZero(s);
    XorWord(s, TOPBIT);
    XorTop(0, z, bit, false);
    XorZero(z);
    XorAssoc(s, 0x8000 * Bit(bit), z);
    DivideStepAt(z, false);
    XorZero(2 * z);
    DivideStepLinear(if bit then Xor(s, TOPBIT) else s, z);
  }

  /** `n` reflected bits at the top of a 16-bit word. */
  function AtTop(data: nat, n: nat): (z: Word)
    requires n <= 16
  {
    Shifts(1);
    ShlBound(Reflect(data, n), n, 16 - n);
    Shl(Reflect(data, n), 16 - n)
  }

  lemma {:induction false} ShlBound(u: nat, n: nat, k: nat)
    requires u < Shl(1, n)
    ensures Shl(u, k) < Shl(1, n + k)
  {
    if k > 0 {
      ShlBound(u, n, k - 1);
    }
  }

  lemma {:induction false} ShlAdd(u: nat, v: nat, k: nat)
    ensures Shl(u + v, k) == Shl(u, k) + Shl(v, k)
  {
    if k > 0 {
      ShlAdd(u, v, k - 1);
    }
  }

  lemma {:induction false} ShlShl(u: nat, j: nat, k: nat)
    ensures Shl(Shl(u, j), k) == Shl(u, j + k)
  {
    if k > 0 {
      ShlShl(u, j, k - 1);
    }
  }

  lemma {:induction false} ShlZero(k: nat)
    ensures Shl(0, k) == 0
  {
    if k > 0 {
      ShlZero(k - 1);
    }
  }

  lemma AtTopStep(data: nat, n: nat)
    requires 0 < n <= 16
    ensures AtTop(data, n) == 0x8000 * Bit(data % 2 == 1) + Shl(Reflect(data / 2, n - 1), 16 - n)
    ensures AtTop(data / 2, n - 1) == 2 * Shl(Reflect(data / 2, n - 1), 16 - n)
    ensures Shl(Reflect(data / 2, n - 1), 16 - n) < 0x8000
  {
    ShlAdd(if data % 2 == 1 then Shl(1, n - 1) else 0, Reflect(data / 2, n - 1), 16 - n);
    ShlShl(1, n - 1, 16 - n);
    ShlZero(16 - n);
    Shifts(1);
    ShlBound(Reflect(data / 2, n - 1), n - 1, 16 - n);
  }

  /** Feeding the bits of `data` lowest first is dividing a word that holds them reflected. */
  lemma {:induction false} FeedReflected(s: Word, data: nat, n: nat)
    requires n <= 16
    ensures Xor(s, AtTop(data, n)) < 0x1_0000
    ensures FeedBits(s, LowBits(data, n)) == DivideSteps(Xor(s, AtTop(data, n)), n)
    decreases n
  {
    XorWord(s, AtTop(data, n));
    if n == 0 {
      ShlZero(16);
      XorZero(s);
    } else {
      var bit := data % 2 == 1;
      AtTopStep(data, n);
      FeedTop(s, bit, Shl(Reflect(data / 2, n - 1), 16 - n));
      FeedReflected(FeedBit(s, bit), data / 2, n - 1);
      DivideStepsFront(Xor(s, AtTop(data, n)), n - 1);
      FeedBitsAppend(s, [bit], LowBits(data / 2, n - 1));
      assert FeedBits(s, [bit]) == FeedBit(s, bit);
    }
  }

  lemma {:induction false} LowByteShifts(low: Byte, n: nat)
    requires n <= 8
    ensures DivideSteps(low, n) == Shl(low, n) < 0x100 * Shl(1, n)
  {
    if n > 0 {
      LowByteShifts(low, n - 1);
      ShlMonotone(n - 1, 7);
      Shifts(1);
    }
  }

  lemma {:induction false} ShlMonotone(j: nat, k: nat)
    requires j <= k
    ensures Shl(1, j) <= Shl(1, k)
  {
    if j < k {
      ShlMonotone(j, k - 1);
    }
  }

  /** One byte of division is one table lookup; `h` and `l` are the bytes of the remainder. */
  lemma TableStep(h: Byte, l: Byte, m: Byte)
    ensures Reflect(m, 8) < 0x100 && Xor(Reflect(m, 8), h) < 0x100
    ensures FeedBits(0x100 * h + l, LowBits(m, 8)) == Xor(TableEntry(Xor(Reflect(m, 8), h)), 0x100 * l)
  {
    var d := Reflect(m, 8);
    Shifts(1);
    Shifts(d);
    FeedReflected(0x100 * h + l, m, 8);
    SplitBytes(h, l, d);
    XorComm(d, h);
    DivideStepsLinear(0x100 * Xor(h, d), l, 8);
    LowByteShifts(l, 8);
    Shifts(l);
  }

  lemma SplitBytes(h: Byte, l: Byte, d: Byte)
    ensures Xor(h, d) < 0x100
    ensures Xor(0x100 * h + l, 0x100 * d) == Xor(0x100 * Xor(h, d), l)
  {
    hide Xor, Shl;
    Shifts(1);
    Shifts(0);
    Shifts(h);
    Shifts(d);
    Shifts(Xor(h, d));
    XorByte(h, d);
    XorZero(l);
    XorZero(Xor(h, d));
    XorSplit(8, l, h, 0, d);
    XorSplit(8, 0, Xor(h, d), l, 0);
  }

  /** Bit reversal as the firmware does it, one bit at a time. */
  method ReflectBits(data: nat, nBits: nat) returns (reflection: nat)
    requires nBits <= 32
    ensures reflection == Reflect(data, nBits)
  {
    reflection := 0;
    var rest := data;
    ghost var q: nat := 0;
    ShlZero(nBits);
    for bit := 0 to nBits
      invariant reflection == Shl(q, nBits - bit)
      invariant reflection + Reflect(rest, nBits - bit) == Reflect(data, nBits)
    {
      ghost var k := nBits - 1 - bit;
      assert Shl(q, k + 1) == Shl(2 * q, k) by { ShlShl(q, 1, k); }
      if rest % 2 == 1 {
        OrAdds(q, k);
        ShlAdd(2 * q, 1, k);
        reflection := Or(reflection, Shl(1, nBits - 1 - bit));
        q := 2 * q + 1;
      } else {
        q := 2 * q;
      }
      rest := rest / 2;
    }
  }

  ghost predicate TableReady(table: array<Word>)
    reads table
  {
    table.Length == 0x100 && forall d: Byte :: table[d] == TableEntry(d)
  }

  /** Modulo-2 division of the dividend followed by zeros, a bit at a time. */
  method Divide(dividend: Byte) returns (remainder: Word)
    ensures remainder == TableEntry(dividend)
  {
    remainder := 0x100 * dividend;
    for bit := 0 to 8
      invariant remainder == DivideSteps(0x100 * dividend, bit)
    {
      if TOPBIT <= remainder {
        XorWord(ShiftLeft(remainder), POLYNOMIAL);
        remainder := Xor(ShiftLeft(remainder), POLYNOMIAL);
      } else {
        remainder := ShiftLeft(remainder);
      }
    }
  }

  /** Fills the lookup table. */
  method CrcInit(table: array<Word>)
    requires table.Length == 0x100
    modifies table
    ensures TableReady(table)
  {
    for dividend := 0 to 0x100
      invariant forall d: Byte | d < dividend :: table[d] == TableEntry(d)
    {
      table[dividend] := Divide(dividend);
    }
  }

  lemma RemainderStep(message: seq<Byte>, k: nat, h: Byte, l: Byte)
    requires k < |message| && Remainder(message[..k]) == 0x100 * h + l
    ensures Reflect(message[k], 8) < 0x100 && Xor(Reflect(message[k], 8), h) < 0x100
    ensures Remainder(message[..k + 1]) == Xor(TableEntry(Xor(Reflect(message[k], 8), h)), 0x100 * l)
  {
    hide Xor, Reflect, FeedBits, TableEntry, LowBits;
    assert message[..k + 1][..k] == message[..k];
    TableStep(h, l, message[k]);
    FeedBitsAppend(INITIAL_REMAINDER, BitsOf(message[..k]), LowBits(message[k], 8));
  }

  lemma ShiftByte(h: nat, l: Byte)
    ensures (0x100 * (0x100 * h + l)) % 0x1_0000 == 0x100 * l
  {
    assert 0x100 * (0x100 * h + l) == 0x1_0000 * h + 0x100 * l;
  }

  /** The table-driven CRC is the one of bit-serial division. */
  method CrcFast(table: array<Word>, message: seq<Byte>) returns (crc: Word)
    requires TableReady(table)
    ensures crc == CrcOf(message)
  {
    var remainder := INITIAL_REMAINDER;
    for k := 0 to |message|
      invariant remainder == Remainder(message[..k])
    {
      RemainderStep(message, k, remainder / 0x100, remainder % 0x100);
      ShiftByte(remainder / 0x100, remainder % 0x100);
      var reflected := ReflectBits(message[k], 8);
      var data: Byte := Xor(reflected, remainder / 0x100);
      remainder := Xor(table[data], (0x100 * remainder) % 0x1_0000);
    }
    assert message[..|message|] == message;
    var reflected := ReflectBits(remainder, 16);
    Shifts(1);
    XorWord(reflected, FINAL_XOR_VALUE);
    crc := Xor(reflected, FINAL_XOR_VALUE);
  }

  // What the reflection of the remainder means.

  /** Bit `i` of a number, the lowest being bit 0. */
  function BitAt(x: nat, i: nat): bool {
    if i == 0 then x % 2 == 1 else BitAt(x / 2, i - 1)
  }

  lemma {:induction false} BitOfSum(k: nat, top: bool, low: nat, i: nat)
    requires low < Shl(1, k) && i <= k
    ensures BitAt((if top then Shl(1, k) else 0) + low, i) == if i == k then top else BitAt(low, i)
  {
    var x := (if top then Shl(1, k) else 0) + low;
    if k > 0 {
      assert x / 2 == (if top then Shl(1, k - 1) else 0) + low / 2 && x % 2 == low % 2;
      if i > 0 {
        BitOfSum(k - 1, top, low / 2, i - 1);
      }
    }
  }

  /** Reflection turns bit `i` into bit n - 1 - i. */
  lemma {:induction false} ReflectedBit(data: nat, n: nat, i: nat)
    requires i < n
    ensures BitAt(Reflect(data, n), i) == BitAt(data, n - 1 - i)
  {
    var low := Reflect(data / 2, n - 1);
    BitOfSum(n - 1, data % 2 == 1, low, i);
    if i < n - 1 {
      ReflectedBit(data / 2, n - 1, i);
    }
  }

  /** Without the final value, bit `i` of the CRC is bit 15 - i of the remainder. */
  lemma CrcReflectsRemainder(message: seq<Byte>, i: nat)
    requires i < 16
    ensures BitAt(Xor(CrcOf(message), FINAL_XOR_VALUE), i) == BitAt(Remainder(message), 15 - i)
  {
    hide Xor, Reflect, FeedBits, BitAt, Remainder;
    var r := ReflectRemainder(Remainder(message));
    XorAssoc(r, FINAL_XOR_VALUE, FINAL_XOR_VALUE);
    XorSelf(FINAL_XOR_VALUE);
    XorZero(r);
    ReflectedBit(Remainder(message), 16, i);
  }
}
