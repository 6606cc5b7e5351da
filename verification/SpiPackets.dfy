/** SPI packets with a CRC field in the middle, and which transmission errors that field reveals. */
module SpiPackets {
  import opened Bits
  import opened Crc
  import opened CrcDetection

  const SPI_BUFFER_SIZE: nat := 27
  const MOSI_SIZE: nat := 12
  const MISO_SIZE: nat := 27

  /** Offset of the CRC field in a command and in a reply. */
  const MOSI_CRC: nat := 8
  const MISO_CRC: nat := 24

  /** Offset of the status flags in a reply. */
  const STATUS_FLAGS: nat := 26

  /** The little-endian CRC field at offset `at`. */
  function CrcField(p: seq<Byte>, at: nat): Word
    requires at + 2 <= |p|
  {
    var lo: nat, hi: nat := p[at], p[at + 1];
    lo + 0x100 * hi
  }

  function WithCrc(p: seq<Byte>, at: nat, crc: Word): (q: seq<Byte>)
    requires at + 2 <= |p|
    ensures |q| == |p| && CrcField(q, at) == crc
    ensures q[..at] == p[..at] && q[at + 2..] == p[at + 2..]
  {
    p[..at] + [crc % 0x100, crc / 0x100] + p[at + 2..]
  }

  function Zeroed(p: seq<Byte>, at: nat): (q: seq<Byte>)
    requires at + 2 <= |p|
    ensures |q| == |p|
  {
    WithCrc(p, at, 0)
  }

  /** The check both sides make on a received packet. */
  predicate CrcValid(p: seq<Byte>, at: nat)
    requires at + 2 <= |p|
  {
    CrcField(p, at) == CrcOf(Zeroed(p, at))
  }

  /** Stores the CRC of the packet as it stands into its CRC field, the low byte first. */
  function Seal(p: seq<Byte>, at: nat): (q: seq<Byte>)
    requires at + 2 <= |p|
    ensures |q| == |p| && q[at] as nat + 0x100 * q[at + 1] as nat == CrcOf(p)
    ensures forall i | 0 <= i < |p| && i != at && i != at + 1 :: q[i] == p[i]
  {
    WithCrc(p, at, CrcOf(p))
  }

  function FaultBit(flags: Byte): bool {
    (flags / 2) % 2 == 1
  }

  /** Bit 1 of the status flags; the other bits stay. */
  function WithFault(flags: Byte, fault: bool): (f: Byte)
    ensures FaultBit(f) == fault && f % 2 == flags % 2 && f / 4 == flags / 4
  {
    if FaultBit(flags) == fault then flags else if fault then flags + 2 else flags - 2
  }

  /** The two replies a slave prepares: the command was received, or not yet. */
  function Reply(data: seq<Byte>, fault: bool): (q: seq<Byte>)
    requires |data| == MISO_SIZE
    ensures |q| == MISO_SIZE && FaultBit(q[STATUS_FLAGS]) == fault
    ensures q[..MISO_CRC] == data[..MISO_CRC]
    ensures q[STATUS_FLAGS] % 2 == data[STATUS_FLAGS] % 2 && q[STATUS_FLAGS] / 4 == data[STATUS_FLAGS] / 4
  {
    var p := data[STATUS_FLAGS := WithFault(data[STATUS_FLAGS], fault)];
    var q := Seal(Zeroed(p, MISO_CRC), MISO_CRC);
    assert q[STATUS_FLAGS] == q[MISO_CRC + 2..][0] == p[MISO_CRC + 2..][0];
    assert q[..MISO_CRC] == p[..MISO_CRC];
    q
  }

  lemma WithCrcTwice(p: seq<Byte>, at: nat, crc: Word, crc': Word)
    requires at + 2 <= |p|
    ensures WithCrc(WithCrc(p, at, crc), at, crc') == WithCrc(p, at, crc')
  {
    var q := WithCrc(p, at, crc);
    assert q[..at] == p[..at] && q[at + 2..] == p[at + 2..];
  }

  lemma ReplyValid(data: seq<Byte>, fault: bool)
    requires |data| == MISO_SIZE
    ensures CrcValid(Reply(data, fault), MISO_CRC)
  {
    var p := data[STATUS_FLAGS := WithFault(data[STATUS_FLAGS], fault)];
    WithCrcTwice(p, MISO_CRC, 0, CrcOf(Zeroed(p, MISO_CRC)));
    WithCrcTwice(p, MISO_CRC, CrcOf(Zeroed(p, MISO_CRC)), 0);
  }

  lemma SplitPacket(p: seq<Byte>, at: nat)
    requires at + 2 <= |p|
    ensures p == p[..at] + p[at..at + 2] + p[at + 2..]
    ensures Zeroed(p, at) == p[..at] + [0, 0] + p[at + 2..]
  {
  }

  /** A sealed packet passes the receiver's check exactly when its CRC field was zero before. */
  lemma SealedValidIffFieldZero(p: seq<Byte>, at: nat)
    requires at + 2 <= |p|
    ensures CrcValid(Seal(p, at), at) <==> CrcField(p, at) == 0
  {
    WithCrcTwice(p, at, CrcOf(p), 0);
    SplitPacket(p, at);
    var field := p[at..at + 2];
    if field != [0, 0] {
      AdjacentBytesDetected(p[..at], field, [0, 0], p[at + 2..]);
    }
  }

  // Parity of whole packets.

  function ParityOf(bytes: seq<Byte>): bool {
    if bytes == [] then false else ParityOf(bytes[..|bytes| - 1]) != Parity(bytes[|bytes| - 1])
  }

  lemma {:induction false} ParityOfAppend(u: seq<Byte>, v: seq<Byte>)
    ensures ParityOf(u + v) <==> ParityOf(u) != ParityOf(v)
  {
    if v == [] {
      assert u + v == u;
    } else {
      assert (u + v)[..|u + v| - 1] == u + v[..|v| - 1];
      ParityOfAppend(u, v[..|v| - 1]);
    }
  }

  lemma {:induction false} ParityOfXor(u: seq<Byte>, v: seq<Byte>)
    requires |u| == |v|
    ensures ParityOf(XorBytes(u, v)) <==> ParityOf(u) != ParityOf(v)
  {
    if u != [] {
      var n := |u| - 1;
      assert XorBytes(u, v)[..n] == XorBytes(u[..n], v[..n]);
      ParityOfXor(u[..n], v[..n]);
      ParityXor(u[n], v[n]);
    }
  }

  lemma {:induction false} FeedLowBitsParity(r: Word, b: nat, n: nat)
    requires b < Shl(1, n)
    ensures Parity(FeedBits(r, LowBits(b, n))) <==> Parity(r) != Parity(b)
    decreases n
  {
    if n > 0 {
      var bit := b % 2 == 1;
      FeedBitsAppend(r, [bit], LowBits(b / 2, n - 1));
      assert FeedBits(r, [bit]) == FeedBit(r, bit);
      FeedBitParity(r, bit);
      FeedLowBitsParity(FeedBit(r, bit), b / 2, n - 1);
    }
  }

  lemma {:induction false} RemainderParity(message: seq<Byte>)
    ensures Parity(Remainder(message)) <==> Parity(INITIAL_REMAINDER) != ParityOf(message)
  {
    if message != [] {
      var init, b := message[..|message| - 1], message[|message| - 1];
      RemainderParity(init);
      FeedBitsAppend(INITIAL_REMAINDER, BitsOf(init), LowBits(b, 8));
      Shifts(1);
      FeedLowBitsParity(Remainder(init), b, 8);
    }
  }

  lemma {:induction false} ParityReflect(x: nat, n: nat)
    requires x < Shl(1, n)
    ensures Parity(Reflect(x, n)) == Parity(x)
  {
    if n > 0 {
      ParityReflect(x / 2, n - 1);
      if x % 2 == 1 {
        ParityAdds(1, Reflect(x / 2, n - 1), n - 1);
      }
    }
  }

  lemma ParityField(lo: Byte, hi: Byte)
    ensures Parity(lo + 0x100 * hi) <==> Parity(lo) != Parity(hi)
  {
    Shifts(1);
    Shifts(hi);
    ParityAdds(hi, lo, 8);
  }

  lemma CrcParity(message: seq<Byte>)
    ensures Parity(CrcOf(message)) <==> (Parity(INITIAL_REMAINDER) != ParityOf(message)) != Parity(FINAL_XOR_VALUE)
  {
    Shifts(1);
    RemainderParity(message);
    ParityReflect(Remainder(message), 16);
    ParityXor(ReflectRemainder(Remainder(message)), FINAL_XOR_VALUE);
  }

  lemma PacketParity(p: seq<Byte>, at: nat)
    requires at + 2 <= |p|
    ensures ParityOf(p) <==> ParityOf(Zeroed(p, at)) != Parity(CrcField(p, at))
  {
    hide ParityOf, CrcField, Zeroed;
    SplitPacket(p, at);
    ParityOfAppend(p[..at] + p[at..at + 2], p[at + 2..]);
    ParityOfAppend(p[..at], p[at..at + 2]);
    ParityOfAppend(p[..at] + [0, 0], p[at + 2..]);
    ParityOfAppend(p[..at], [0, 0]);
    TwoBytes(p[at], p[at + 1]);
    TwoBytes(0, 0);
    assert p[at..at + 2] == [p[at], p[at + 1]];
    FieldParity(p, at);
  }

  lemma FieldParity(p: seq<Byte>, at: nat)
    requires at + 2 <= |p|
    ensures Parity(CrcField(p, at)) <==> Parity(p[at]) != Parity(p[at + 1])
  {
    ParityField(p[at], p[at + 1]);
  }

  lemma TwoBytes(lo: Byte, hi: Byte)
    ensures ParityOf([lo, hi]) <==> Parity(lo) != Parity(hi)
  {
    ParityOfAppend([lo], [hi]);
    assert [lo] + [hi] == [lo, hi];
    assert [lo][..0] == [] && [hi][..0] == [];
  }

  /** Every packet with a valid CRC has the same overall parity. */
  lemma ValidPacketParity(p: seq<Byte>, at: nat)
    requires at + 2 <= |p| && CrcValid(p, at)
    ensures ParityOf(p) <==> Parity(INITIAL_REMAINDER) != Parity(FINAL_XOR_VALUE)
  {
    PacketParity(p, at);
    CrcParity(Zeroed(p, at));
  }

  // Transmission errors.

  ghost predicate ZeroOutside(noise: seq<Byte>, lo: nat, hi: nat) {
    forall i | 0 <= i < |noise| && !(lo <= i < hi) :: noise[i] == 0
  }

  ghost predicate WithinTwoBytes(noise: seq<Byte>, k: nat) {
    k + 2 <= |noise| && ZeroOutside(noise, k, k + 2)
  }

  /** Error patterns that the CRC reveals: an odd number of wrong bits anywhere, or wrong bits
      within two adjacent bytes that both belong to the CRC field or both do not. */
  ghost predicate Detectable(noise: seq<Byte>, at: nat) {
    || ParityOf(noise)
    || (!ZeroOutside(noise, 0, 0) && exists k: nat :: (k == at || k + 2 <= at || at + 2 <= k) && WithinTwoBytes(noise, k))
  }

  lemma OddNoiseDetected(p: seq<Byte>, noise: seq<Byte>, at: nat)
    requires |noise| == |p| && at + 2 <= |p| && CrcValid(p, at) && ParityOf(noise)
    ensures !CrcValid(XorBytes(p, noise), at)
  {
    var q := XorBytes(p, noise);
    ParityOfXor(p, noise);
    ValidPacketParity(p, at);
    if CrcValid(q, at) {
      ValidPacketParity(q, at);
    }
  }

  lemma NoiseChanges(p: seq<Byte>, noise: seq<Byte>, i: nat)
    requires |noise| == |p| && i < |p|
    ensures XorBytes(p, noise)[i] == p[i] <==> noise[i] == 0
  {
    XorZero(p[i]);
    XorComm(p[i], noise[i]);
    XorComm(p[i], 0);
    if Xor(p[i], noise[i]) == p[i] {
      XorCancel(noise[i], 0, p[i]);
    }
  }

  /** Noise leaves a byte as it is exactly when it is zero. */
  lemma NoiseChangesAll(p: seq<Byte>, noise: seq<Byte>)
    requires |noise| == |p|
    ensures forall i | 0 <= i < |p| :: XorBytes(p, noise)[i] == p[i] <==> noise[i] == 0
  {
    forall i | 0 <= i < |p| ensures XorBytes(p, noise)[i] == p[i] <==> noise[i] == 0 {
      NoiseChanges(p, noise, i);
    }
  }

  lemma EqualFields(p: seq<Byte>, q: seq<Byte>, at: nat)
    requires at + 2 <= |p| == |q|
    ensures CrcField(p, at) == CrcField(q, at) <==> p[at] == q[at] && p[at + 1] == q[at + 1]
  {
  }

  lemma FieldNoiseDetected(p: seq<Byte>, noise: seq<Byte>, at: nat)
    requires |noise| == |p| && at + 2 <= |p| && CrcValid(p, at)
    requires ZeroOutside(noise, at, at + 2) && !ZeroOutside(noise, 0, 0)
    ensures !CrcValid(XorBytes(p, noise), at)
  {
    var q := XorBytes(p, noise);
    NoiseChangesAll(p, noise);
    var i :| 0 <= i < |noise| && noise[i] != 0;
    assert i == at || i == at + 1;
    FieldErrorDetected(p, q, at);
  }

  lemma FieldErrorDetected(p: seq<Byte>, q: seq<Byte>, at: nat)
    requires at + 2 <= |p| == |q| && CrcValid(p, at)
    requires p[at] != q[at] || p[at + 1] != q[at + 1]
    requires forall i | 0 <= i < |p| && !(at <= i < at + 2) :: p[i] == q[i]
    ensures !CrcValid(q, at)
  {
    SameZeroed(p, q, at);
    EqualFields(p, q, at);
  }

  lemma SameZeroed(p: seq<Byte>, q: seq<Byte>, at: nat)
    requires at + 2 <= |p| == |q|
    requires forall i | 0 <= i < |p| && !(at <= i < at + 2) :: p[i] == q[i]
    ensures Zeroed(p, at) == Zeroed(q, at)
  {
    assert q[..at] == p[..at] && q[at + 2..] == p[at + 2..];
  }

  lemma DataNoiseDetected(p: seq<Byte>, noise: seq<Byte>, at: nat, k: nat)
    requires |noise| == |p| && at + 2 <= |p| && CrcValid(p, at)
    requires !ZeroOutside(noise, 0, 0)
    requires (k + 2 <= at || at + 2 <= k) && WithinTwoBytes(noise, k)
    ensures !CrcValid(XorBytes(p, noise), at)
  {
    var q := XorBytes(p, noise);
    NoiseChangesAll(p, noise);
    EqualFields(p, q, at);
    DifferentZeroed(p, q, at, k);
  }

  lemma DifferentZeroed(p: seq<Byte>, q: seq<Byte>, at: nat, k: nat)
    requires |q| == |p| && at + 2 <= |p| && p != q
    requires k + 2 <= at || (at + 2 <= k && k + 2 <= |p|)
    requires forall i | 0 <= i < |p| && !(k <= i < k + 2) :: p[i] == q[i]
    ensures CrcOf(Zeroed(p, at)) != CrcOf(Zeroed(q, at))
  {
    var zp := Zeroed(p, at);
    ZeroedPieces(p, p, at, k);
    ZeroedPieces(p, q, at, k);
    assert p[k..k + 2] != q[k..k + 2] by {
      SplitAt(p, p, k);
      SplitAt(p, q, k);
    }
    AdjacentBytesDetected(zp[..k], p[k..k + 2], q[k..k + 2], zp[k + 2..]);
  }

  lemma SplitAt(p: seq<Byte>, q: seq<Byte>, k: nat)
    requires k + 2 <= |p| == |q|
    requires forall i | 0 <= i < |p| && !(k <= i < k + 2) :: p[i] == q[i]
    ensures q == p[..k] + q[k..k + 2] + p[k + 2..]
  {
  }

  lemma ZeroedPieces(p: seq<Byte>, q: seq<Byte>, at: nat, k: nat)
    requires at + 2 <= |p| == |q| && k + 2 <= |p| && (k + 2 <= at || at + 2 <= k)
    requires forall i | 0 <= i < |p| && !(k <= i < k + 2) :: p[i] == q[i]
    ensures Zeroed(q, at) == Zeroed(p, at)[..k] + q[k..k + 2] + Zeroed(p, at)[k + 2..]
  {
    var zp, zq := Zeroed(p, at), Zeroed(q, at);
    forall i | 0 <= i < |p|
      ensures zp[i] == (if at <= i < at + 2 then 0 else p[i]) && zq[i] == (if at <= i < at + 2 then 0 else q[i])
    {
      ZeroedAt(p, at, i);
      ZeroedAt(q, at, i);
    }
  }

  lemma ZeroedAt(p: seq<Byte>, at: nat, i: nat)
    requires at + 2 <= |p| && i < |p|
    ensures Zeroed(p, at)[i] == if at <= i < at + 2 then 0 else p[i]
  {
    SplitPacket(p, at);
  }

  /** A detectable error in a valid packet makes it fail the receiver's check. */
  lemma DetectableDetected(p: seq<Byte>, noise: seq<Byte>, at: nat)
    requires |noise| == |p| && at + 2 <= |p| && CrcValid(p, at) && Detectable(noise, at)
    ensures !CrcValid(XorBytes(p, noise), at)
  {
    if ParityOf(noise) {
      OddNoiseDetected(p, noise, at);
    } else {
      var k: nat :| (k == at || k + 2 <= at || at + 2 <= k) && WithinTwoBytes(noise, k);
      if k == at {
        FieldNoiseDetected(p, noise, at);
      } else {
        DataNoiseDetected(p, noise, at, k);
      }
    }
  }
}
