/** One CRC worked out by hand, bit by bit. */
module CrcExample {
  import opened Bits
  import opened Crc

  /** A number and one more hexadecimal digit. */
  function Append(a: nat, c: nat): nat {
    16 * a + c
  }

  lemma XorAppend(a: nat, b: nat, c: nat, d: nat)
    requires c < 16 && d < 16
    ensures Xor(Append(a, c), Append(b, d)) == Append(Xor(a, b), Xor(c, d))
  {
    hide Xor, Shl;
    SixteenTimes(1);
    XorSplit(4, c, a, d, b);
    SixteenTimes(a);
    SixteenTimes(b);
    SixteenTimes(Xor(a, b));
  }

  lemma SixteenTimes(u: nat)
    ensures Shl(u, 4) == 16 * u
  {
    assert Shl(u, 2) == 2 * Shl(u, 1) == 4 * Shl(u, 0);
    assert Shl(u, 4) == 2 * Shl(u, 3) == 4 * Shl(u, 2);
  }

  /** Four hexadecimal digits. */
  function Hex(a: nat, b: nat, c: nat, d: nat): nat {
    Append(Append(Append(a, b), c), d)
  }

  /** Exclusive or digit by digit. */
  lemma XorHex(a: nat, b: nat, c: nat, d: nat, a': nat, b': nat, c': nat, d': nat)
    requires b < 16 && c < 16 && d < 16 && b' < 16 && c' < 16 && d' < 16
    ensures Xor(Hex(a, b, c, d), Hex(a', b', c', d')) == Hex(Xor(a, a'), Xor(b, b'), Xor(c, c'), Xor(d, d'))
  {
    hide Xor, Append;
    var p, p' := Append(a, b), Append(a', b');
    XorAppend(a, a', b, b');
    XorAppend(p, p', c, c');
    XorAppend(Append(p, c), Append(p', c'), d, d');
  }

  /** A digit of four bits. */
  function Digit(p: bool, q: bool, r: bool, s: bool): nat {
    8 * Bit(p) + 4 * Bit(q) + 2 * Bit(r) + Bit(s)
  }

  lemma XorDigit(p: bool, q: bool, r: bool, s: bool, p': bool, q': bool, r': bool, s': bool)
    ensures Xor(Digit(p, q, r, s), Digit(p', q', r', s')) == Digit(p != p', q != q', r != r', s != s')
  {
    hide Xor;
    XorZero(0);
    XorDouble(0, 0, p, p');
    XorDouble(Bit(p), Bit(p'), q, q');
    XorDouble(2 * Bit(p) + Bit(q), 2 * Bit(p') + Bit(q'), r, r');
    XorDouble(4 * Bit(p) + 2 * Bit(q) + Bit(r), 4 * Bit(p') + 2 * Bit(q') + Bit(r'), s, s');
  }

  lemma XorPolynomial(a: nat, b: nat, c: nat, d: nat)
    requires b < 16 && c < 16 && d < 16
    ensures Xor(Hex(a, b, c, d), POLYNOMIAL) == Hex(Xor(a, 0x8), b, c, Xor(d, 0x5))
  {
    hide Xor;
    XorHex(a, b, c, d, 0x8, 0x0, 0x0, 0x5);
    XorZero(b);
    XorZero(c);
  }

  /** One message bit: shift, and subtract the polynomial if the top bit differs from it. */
  lemma FeedBitAt(low: nat, top: bool, bit: bool)
    requires low < 0x8000
    ensures FeedBit(0x8000 * Bit(top) + low, bit) == Xor(2 * low, if top != bit then POLYNOMIAL else 0)
  {
    hide Xor, DivideStep;
    var r := 0x8000 * Bit(top) + low;
    XorTop(low, 0, top, bit);
    XorZero(low);
    XorZero(r);
    DivideStepAt(low, top != bit);
    DivideStepAt(low, top);
  }

  lemma FeedNext(r: Word, bits: seq<bool>, bit: bool, r': Word)
    requires FeedBit(r, bit) == r'
    ensures FeedBits(INITIAL_REMAINDER, bits) == r ==> FeedBits(INITIAL_REMAINDER, bits + [bit]) == r'
  {
    assert (bits + [bit])[..|bits|] == bits;
  }

  lemma Step0()
    ensures FeedBit(0x6E77, true) == 0x5CEB
  {
    hide Xor, FeedBit;
    FeedBitAt(0x6E77, false, true);
    XorPolynomial(0xD, 0xC, 0xE, 0xE);
    Step0Digits();
  }

  lemma Step0Digits()
    ensures Xor(0xD, 0x8) == 0x5 && Xor(0xE, 0x5) == 0xB
  {
    hide Xor;
    XorDigit(true, true, false, true, true, false, false, false);
    XorDigit(true, true, true, false, false, true, false, true);
  }

  lemma Step1()
    ensures FeedBit(0x5CEB, false) == 0xB9D6
  {
    hide Xor, FeedBit;
    FeedBitAt(0x5CEB, false, false);
    XorZero(0xB9D6);
  }

  lemma Step2()
    ensures FeedBit(0xB9D6, false) == 0xF3A9
  {
    hide Xor, FeedBit;
    FeedBitAt(0x39D6, true, false);
    XorPolynomial(0x7, 0x3, 0xA, 0xC);
    Step2Digits();
  }

  lemma Step2Digits()
    ensures Xor(0x7, 0x8) == 0xF && Xor(0xC, 0x5) == 0x9
  {
    hide Xor;
    XorDigit(false, true, true, true, true, false, false, false);
    XorDigit(true, true, false, false, false, true, false, true);
  }

  lemma Step3()
    ensures FeedBit(0xF3A9, false) == 0x6757
  {
    hide Xor, FeedBit;
    FeedBitAt(0x73A9, true, false);
    XorPolynomial(0xE, 0x7, 0x5, 0x2);
    Step3Digits();
  }

  lemma Step3Digits()
    ensures Xor(0xE, 0x8) == 0x6 && Xor(0x2, 0x5) == 0x7
  {
    hide Xor;
    XorDigit(true, true, true, false, true, false, false, false);
    XorDigit(false, false, true, false, false, true, false, true);
  }

  lemma Step4()
    ensures FeedBit(0x6757, false) == 0xCEAE
  {
    hide Xor, FeedBit;
    FeedBitAt(0x6757, false, false);
    XorZero(0xCEAE);
  }

  lemma Step5()
    ensures FeedBit(0xCEAE, false) == 0x1D59
  {
    hide Xor, FeedBit;
    FeedBitAt(0x4EAE, true, false);
    XorPolynomial(0x9, 0xD, 0x5, 0xC);
    Step5Digits();
  }

  lemma Step5Digits()
    ensures Xor(0x9, 0x8) == 0x1 && Xor(0xC, 0x5) == 0x9
  {
    hide Xor;
    XorDigit(true, false, false, true, true, false, false, false);
    XorDigit(true, true, false, false, false, true, false, true);
  }

  lemma Step6()
    ensures FeedBit(0x1D59, false) == 0x3AB2
  {
    hide Xor, FeedBit;
    FeedBitAt(0x1D59, false, false);
    XorZero(0x3AB2);
  }

  lemma Step7()
    ensures FeedBit(0x3AB2, false) == 0x7564
  {
    hide Xor, FeedBit;
    FeedBitAt(0x3AB2, false, false);
    XorZero(0x7564);
  }

  /** The remainder of the one byte 1. */
  lemma RemainderOfOne()
    ensures Remainder([1]) == 0x7564
  {
    var bits := [true, false, false, false, false, false, false, false];
    hide *;
    BitsOfOne();
    Step0(); Step1(); Step2(); Step3(); Step4(); Step5(); Step6(); Step7();
    NothingFed();
    FeedNext(0x6E77, bits[..0], true, 0x5CEB);
    FeedNext(0x5CEB, bits[..1], false, 0xB9D6);
    FeedNext(0xB9D6, bits[..2], false, 0xF3A9);
    FeedNext(0xF3A9, bits[..3], false, 0x6757);
    FeedNext(0x6757, bits[..4], false, 0xCEAE);
    FeedNext(0xCEAE, bits[..5], false, 0x1D59);
    FeedNext(0x1D59, bits[..6], false, 0x3AB2);
    FeedNext(0x3AB2, bits[..7], false, 0x7564);
    assert bits[..0] + [bits[0]] == bits[..1] && bits[..1] + [bits[1]] == bits[..2] && bits[..2] + [bits[2]] == bits[..3] && bits[..3] + [bits[3]] == bits[..4] && bits[..4] + [bits[4]] == bits[..5] && bits[..5] + [bits[5]] == bits[..6] && bits[..6] + [bits[6]] == bits[..7] && bits[..7] + [bits[7]] == bits[..8];
    assert bits[..0] == [] && bits[..8] == bits;
  }

  lemma BitsOfOne()
    ensures Remainder([1]) == FeedBits(INITIAL_REMAINDER, [true, false, false, false, false, false, false, false])
  {
    hide FeedBits;
    assert LowBits(1, 8) == [true, false, false, false, false, false, false, false];
    assert [1][..0] == [];
    assert BitsOf([1]) == LowBits(1, 8);
  }

  lemma NothingFed()
    ensures FeedBits(INITIAL_REMAINDER, []) == 0x6E77
  {
  }

  lemma ReflectNext(half: nat, odd: bool, n: nat, r: nat)
    requires Reflect(half, n) == r
    ensures Reflect(2 * half + Bit(odd), n + 1) == r + if odd then Shl(1, n) else 0
  {
    assert (2 * half + Bit(odd)) / 2 == half;
  }

  /** The CRC of the one byte 1, with the firmware's reflection, start and final values. */
  lemma CrcOfOne()
    ensures CrcOf([1]) == 0x0EC2
  {
    RemainderOfOne();
    Reflected();
    hide Remainder, Reflect, Xor;
    Final();
  }

  lemma Final()
    ensures Xor(0x26AE, FINAL_XOR_VALUE) == 0x0EC2
  {
    hide Xor, FeedBit;
    XorHex(0x2, 0x6, 0xA, 0xE, 0x2, 0x8, 0x6, 0xC);
    FinalDigits();
  }

  lemma FinalDigits()
    ensures Xor(0x2, 0x2) == 0x0 && Xor(0x6, 0x8) == 0xE && Xor(0xA, 0x6) == 0xC && Xor(0xE, 0xC) == 0x2
  {
    hide Xor;
    XorDigit(false, false, true, false, false, false, true, false);
    XorDigit(false, true, true, false, true, false, false, false);
    XorDigit(true, false, true, false, false, true, true, false);
    XorDigit(true, true, true, false, true, true, false, false);
  }

  lemma Reflected()
    ensures ReflectRemainder(0x7564) == 0x26AE
  {
    hide Reflect, Shl;
    Reflected4();
    Powers();
    ReflectNext(0x7, false, 4, 0xE);
    assert Reflect(0xE, 5) == 0xE;
    ReflectNext(0xE, true, 5, 0xE);
    assert Reflect(0x1D, 6) == 0x2E;
    ReflectNext(0x1D, false, 6, 0x2E);
    assert Reflect(0x3A, 7) == 0x2E;
    ReflectNext(0x3A, true, 7, 0x2E);
    assert Reflect(0x75, 8) == 0xAE;
    ReflectNext(0x75, false, 8, 0xAE);
    assert Reflect(0xEA, 9) == 0xAE;
    ReflectNext(0xEA, true, 9, 0xAE);
    assert Reflect(0x1D5, 10) == 0x2AE;
    ReflectNext(0x1D5, true, 10, 0x2AE);
    assert Reflect(0x3AB, 11) == 0x6AE;
    ReflectNext(0x3AB, false, 11, 0x6AE);
    assert Reflect(0x756, 12) == 0x6AE;
    ReflectNext(0x756, false, 12, 0x6AE);
    assert Reflect(0xEAC, 13) == 0x6AE;
    ReflectNext(0xEAC, true, 13, 0x6AE);
    assert Reflect(0x1D59, 14) == 0x26AE;
    ReflectNext(0x1D59, false, 14, 0x26AE);
    assert Reflect(0x3AB2, 15) == 0x26AE;
    ReflectNext(0x3AB2, false, 15, 0x26AE);
    assert Reflect(0x7564, 16) == 0x26AE;
  }

  lemma Reflected4()
    ensures Reflect(0x7, 4) == 0xE
  {
  }

  lemma Powers()
    ensures Shl(1, 4) == 0x10 && Shl(1, 5) == 0x20 && Shl(1, 6) == 0x40 && Shl(1, 7) == 0x80
    ensures Shl(1, 8) == 0x100 && Shl(1, 9) == 0x200 && Shl(1, 10) == 0x400 && Shl(1, 11) == 0x800
    ensures Shl(1, 12) == 0x1000 && Shl(1, 13) == 0x2000 && Shl(1, 14) == 0x4000 && Shl(1, 15) == 0x8000
  {
    Shifts(1);
    assert Shl(1, 5) == 2 * Shl(1, 4) && Shl(1, 6) == 2 * Shl(1, 5) && Shl(1, 7) == 2 * Shl(1, 6);
    assert Shl(1, 9) == 2 * Shl(1, 8) && Shl(1, 10) == 2 * Shl(1, 9) && Shl(1, 11) == 2 * Shl(1, 10);
    assert Shl(1, 12) == 2 * Shl(1, 11) && Shl(1, 13) == 2 * Shl(1, 12) && Shl(1, 14) == 2 * Shl(1, 13);
  }
}
