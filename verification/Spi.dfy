/** The SPI link: the slave that answers byte by byte from an interrupt, and the master that tries
    a transfer at most three times, over a channel that may corrupt every byte in both directions. */
module Spi {
  import opened Bits
  import opened Crc
  import opened CrcDetection
  import opened SpiPackets

  const MAX_ATTEMPTS: nat := 3

  /** The error pattern of one attempt on its 27 bytes in each direction. */
  datatype Noise = Noise(mosi: seq<Byte>, miso: seq<Byte>)

  ghost predicate NoiseOk(n: Noise) {
    |n.mosi| == SPI_BUFFER_SIZE && |n.miso| == SPI_BUFFER_SIZE
  }

  ghost predicate NoisesOk(noise: seq<Noise>) {
    forall i | 0 <= i < |noise| :: NoiseOk(noise[i])
  }

  /** The slave during one exchange: its two prepared replies, whether a command was accepted, and
      the command handed to the application. */
  datatype SlaveView = SlaveView(correct: seq<Byte>, wrong: seq<Byte>, accepted: bool, received: seq<Byte>)

  ghost predicate ViewOk(v: SlaveView) {
    |v.correct| == MISO_SIZE && |v.wrong| == MISO_SIZE && |v.received| == MOSI_SIZE
  }

  function Outgoing(v: SlaveView): seq<Byte> {
    if v.accepted then v.correct else v.wrong
  }

  /** A complete frame arrived: a valid command is accepted, anything else is ignored. */
  function Receive(v: SlaveView, rx: seq<Byte>): SlaveView
    requires |rx| == MOSI_SIZE
  {
    if CrcValid(rx, MOSI_CRC) then v.(accepted := true, received := Zeroed(rx, MOSI_CRC)) else v
  }

  class Slave {
    const table: array<Word>
    const misoCorrectCrc: array<Byte>
    const misoWrongCrc: array<Byte>
    const mosiBuffer: array<Byte>
    var misoBuffer: array<Byte>
    var spiBufferIndex: nat
    var spdr: Byte
    var packetReceived: seq<Byte>

    ghost predicate Valid()
      reads this, table
    {
      && TableReady(table)
      && misoCorrectCrc.Length == SPI_BUFFER_SIZE && misoWrongCrc.Length == SPI_BUFFER_SIZE
      && mosiBuffer.Length == SPI_BUFFER_SIZE && |packetReceived| == MOSI_SIZE
      && misoCorrectCrc != misoWrongCrc && mosiBuffer != misoCorrectCrc && mosiBuffer != misoWrongCrc
      && (misoBuffer == misoCorrectCrc || misoBuffer == misoWrongCrc)
    }

    ghost function View(): (v: SlaveView)
      requires Valid()
      reads this, table, misoCorrectCrc, misoWrongCrc
      ensures ViewOk(v)
    {
      SlaveView(misoCorrectCrc[..], misoWrongCrc[..], misoBuffer == misoCorrectCrc, packetReceived)
    }

    /** Between two frames the first reply byte is waiting in the data register. */
    ghost predicate Ready()
      reads this, table, misoCorrectCrc, misoWrongCrc
    {
      Valid() && spiBufferIndex == 0 && spdr == Outgoing(View())[0]
    }

    constructor (table: array<Word>)
      requires TableReady(table)
      ensures Valid() && this.table == table
      ensures packetReceived == seq(MOSI_SIZE, _ => 0)
    {
      this.table := table;
      misoCorrectCrc := new Byte[SPI_BUFFER_SIZE](_ => 0);
      var wrong := new Byte[SPI_BUFFER_SIZE](_ => 0);
      misoWrongCrc := wrong;
      misoBuffer := wrong;
      mosiBuffer := new Byte[SPI_BUFFER_SIZE](_ => 0);
      spiBufferIndex, spdr := 0, 0;
      packetReceived := seq(MOSI_SIZE, _ => 0);
    }

    /** Start of `spi_exchange`: both replies are prepared, the received packet was zeroed by the
        caller, and the "wrong CRC" reply comes first. */
    method BeginExchange(packetSend: seq<Byte>)
      requires Valid() && |packetSend| == MISO_SIZE
      modifies this, misoCorrectCrc, misoWrongCrc
      ensures Ready()
      ensures View() == SlaveView(Reply(packetSend, false), Reply(packetSend, true), false, seq(MOSI_SIZE, _ => 0))
      ensures HoldsData(View().correct, packetSend) && HoldsData(View().wrong, packetSend)
    {
      var good := PrepareReply(packetSend, false);
      Fill(misoCorrectCrc, good);
      var bad := PrepareReply(packetSend, true);
      Fill(misoWrongCrc, bad);
      packetReceived := seq(MOSI_SIZE, _ => 0);
      misoBuffer := misoWrongCrc;
      spiBufferIndex := 0;
      spdr := misoBuffer[spiBufferIndex];
    }

    method PrepareReply(packetSend: seq<Byte>, fault: bool) returns (p: seq<Byte>)
      requires Valid() && |packetSend| == MISO_SIZE
      ensures p == Reply(packetSend, fault)
    {
      p := Zeroed(packetSend[STATUS_FLAGS := WithFault(packetSend[STATUS_FLAGS], fault)], MISO_CRC);
      var crc := CrcFast(table, p);
      p := WithCrc(p, MISO_CRC, crc);
    }

    method Fill(buffer: array<Byte>, p: seq<Byte>)
      requires |p| == buffer.Length
      modifies buffer
      ensures buffer[..] == p
    {
      for i := 0 to |p|
        invariant buffer[..i] == p[..i]
      {
        buffer[i] := p[i];
      }
    }

    /** Interrupt after a transferred byte. Behind the last reply byte lies whatever memory holds. */
    method TransferComplete(arrived: Byte, beyond: Byte)
      requires Valid() && spiBufferIndex < SPI_BUFFER_SIZE
      modifies this`spiBufferIndex, this`spdr, mosiBuffer
      ensures Valid() && spiBufferIndex == old(spiBufferIndex) + 1
      ensures mosiBuffer[..] == old(mosiBuffer[..])[old(spiBufferIndex) := arrived]
      ensures spiBufferIndex < SPI_BUFFER_SIZE ==> spdr == Outgoing(View())[spiBufferIndex]
    {
      mosiBuffer[spiBufferIndex] := arrived;
      spiBufferIndex := spiBufferIndex + 1;
      spdr := if spiBufferIndex < SPI_BUFFER_SIZE then misoBuffer[spiBufferIndex] else beyond;
    }

    /** The polling loop's reaction to a complete frame. */
    method Poll()
      requires Valid()
      modifies this, mosiBuffer
      ensures Valid()
      ensures old(spiBufferIndex) >= SPI_BUFFER_SIZE ==> Ready() && View() == Receive(old(View()), old(mosiBuffer[..MOSI_SIZE]))
      ensures old(spiBufferIndex) < SPI_BUFFER_SIZE ==> unchanged(this) && unchanged(mosiBuffer)
    {
      if spiBufferIndex >= SPI_BUFFER_SIZE {
        ghost var rx := mosiBuffer[..MOSI_SIZE];
        var actual := CrcField(mosiBuffer[..MOSI_SIZE], MOSI_CRC);
        mosiBuffer[MOSI_CRC], mosiBuffer[MOSI_CRC + 1] := 0, 0;
        assert mosiBuffer[..MOSI_SIZE] == Zeroed(rx, MOSI_CRC);
        var target := CrcFast(table, mosiBuffer[..MOSI_SIZE]);
        if actual == target {
          misoBuffer := misoCorrectCrc;
          packetReceived := mosiBuffer[..MOSI_SIZE];
        }
        spiBufferIndex := 0;
        spdr := misoBuffer[spiBufferIndex];
      }
    }
  }

  /** One attempt: 27 byte transfers in both directions, then the slave's reaction. */
  method Attempt(slave: Slave, frame: seq<Byte>, noise: Noise, beyond: Byte) returns (reply: seq<Byte>)
    requires slave.Ready() && |frame| == SPI_BUFFER_SIZE && NoiseOk(noise)
    modifies slave, slave.mosiBuffer
    ensures slave.Ready()
    ensures reply == XorBytes(old(Outgoing(slave.View())), noise.miso)
    ensures slave.View() == Receive(old(slave.View()), XorBytes(frame, noise.mosi)[..MOSI_SIZE])
  {
    hide CrcValid, CrcOf, Zeroed, Xor;
    reply := [];
    ghost var view := slave.View();
    ghost var rx := XorBytes(frame, noise.mosi);
    for i := 0 to SPI_BUFFER_SIZE
      invariant slave.Valid() && slave.View() == view && slave.spiBufferIndex == i
      invariant i < SPI_BUFFER_SIZE ==> slave.spdr == Outgoing(view)[i]
      invariant reply == XorBytes(Outgoing(view), noise.miso)[..i]
      invariant slave.mosiBuffer[..i] == rx[..i]
    {
      XorByte(slave.spdr, noise.miso[i]);
      reply := reply + [Xor(slave.spdr, noise.miso[i])];
      XorByte(frame[i], noise.mosi[i]);
      slave.TransferComplete(Xor(frame[i], noise.mosi[i]), beyond);
    }
    assert slave.mosiBuffer[..MOSI_SIZE] == rx[..MOSI_SIZE] by {
      assert slave.mosiBuffer[..MOSI_SIZE] == slave.mosiBuffer[..SPI_BUFFER_SIZE][..MOSI_SIZE];
    }
    slave.Poll();
  }

  /** The link after some attempts: the slave, the number of attempts, the last reply, success. */
  datatype Link = Link(slave: SlaveView, attempts: nat, reply: seq<Byte>, success: bool)

  predicate ReplyGood(reply: seq<Byte>)
    requires |reply| == MISO_SIZE
  {
    CrcValid(reply, MISO_CRC) && !FaultBit(reply[STATUS_FLAGS])
  }

  /** One more attempt after unsuccessful ones. */
  ghost function Retry(l: Link, frame: seq<Byte>, n: Noise): (l': Link)
    requires ViewOk(l.slave) && |frame| == SPI_BUFFER_SIZE && NoiseOk(n)
    ensures ViewOk(l'.slave)
  {
    var reply := XorBytes(Outgoing(l.slave), n.miso);
    Link(Receive(l.slave, XorBytes(frame, n.mosi)[..MOSI_SIZE]), l.attempts + 1, reply, ReplyGood(reply))
  }

  ghost function AfterAttempts(v: SlaveView, frame: seq<Byte>, noise: seq<Noise>, k: nat): (l: Link)
    requires ViewOk(v) && |frame| == SPI_BUFFER_SIZE && k <= |noise| && NoisesOk(noise)
    ensures ViewOk(l.slave)
    decreases k
  {
    if k == 0 then Link(v, 0, [], false)
    else
      var l := AfterAttempts(v, frame, noise, k - 1);
      if l.success then l else Retry(l, frame, noise[k - 1])
  }

  /** The master: `tail` are the bytes behind the packet that it sends as well. Both sides compute
      CRCs from the same table contents. */
  method SpiTransfer(mosi: seq<Byte>, tail: seq<Byte>, slave: Slave, noise: seq<Noise>, beyond: Byte)
    returns (miso: seq<Byte>, attempts: nat, success: bool)
    requires slave.Ready()
    requires |mosi| == MOSI_SIZE && |tail| == SPI_BUFFER_SIZE - MOSI_SIZE
    requires |noise| == MAX_ATTEMPTS && NoisesOk(noise)
    modifies slave, slave.mosiBuffer
    ensures slave.Ready()
    ensures Link(slave.View(), attempts, miso, success)
            == AfterAttempts(old(slave.View()), Seal(mosi, MOSI_CRC) + tail, noise, MAX_ATTEMPTS)
  {
    hide CrcOf, CrcValid, CrcField, XorBytes, Retry, NoiseOk, AfterAttempts;
    var crc := CrcFast(slave.table, mosi);
    var frame := WithCrc(mosi, MOSI_CRC, crc) + tail;
    miso, attempts, success := TryThrice(frame, slave, noise, beyond);
  }

  /** The retry loop. */
  method TryThrice(frame: seq<Byte>, slave: Slave, noise: seq<Noise>, beyond: Byte)
    returns (miso: seq<Byte>, attempts: nat, success: bool)
    requires slave.Ready() && |frame| == SPI_BUFFER_SIZE && |noise| == MAX_ATTEMPTS && NoisesOk(noise)
    modifies slave, slave.mosiBuffer
    ensures slave.Ready()
    ensures Link(slave.View(), attempts, miso, success) == AfterAttempts(old(slave.View()), frame, noise, MAX_ATTEMPTS)
  {
    hide CrcOf, CrcValid, CrcField, XorBytes, Retry, NoiseOk, AfterAttempts, ViewOk;
    ghost var v := slave.View();
    success, attempts, miso := false, 0, [];
    NoAttemptYet(v, frame, noise);
    for i := 0 to MAX_ATTEMPTS
      invariant slave.Ready()
      invariant !success && attempts == i
      invariant Link(slave.View(), attempts, miso, success) == AfterAttempts(v, frame, noise, i)
    {
      OneMoreAttempt(v, frame, noise, i);
      miso, success := TryOnce(frame, slave, noise[i], beyond, AfterAttempts(v, frame, noise, i));
      attempts := i + 1;
      if success {
        StaysDone(v, frame, noise, i + 1);
        break;
      }
    }
  }

  /** One attempt and the master's check of the reply. */
  method TryOnce(frame: seq<Byte>, slave: Slave, noise: Noise, beyond: Byte, ghost l: Link) returns (miso: seq<Byte>, success: bool)
    requires slave.Ready() && |frame| == SPI_BUFFER_SIZE && NoiseOk(noise) && l.slave == slave.View()
    modifies slave, slave.mosiBuffer
    ensures slave.Ready()
    ensures Link(slave.View(), l.attempts + 1, miso, success) == Retry(l, frame, noise)
  {
    hide CrcOf, CrcField, CrcValid, XorBytes;
    miso := Attempt(slave, frame, noise, beyond);
    var good := CheckCrcMiso(slave.table, miso);
    success := good && !FaultBit(miso[STATUS_FLAGS]);
  }

  method CheckCrcMiso(table: array<Word>, miso: seq<Byte>) returns (good: bool)
    requires TableReady(table) && |miso| == MISO_SIZE
    ensures good == CrcValid(miso, MISO_CRC)
  {
    var crc := CrcFast(table, Zeroed(miso, MISO_CRC));
    good := CrcField(miso, MISO_CRC) == crc;
  }

  lemma NoAttemptYet(v: SlaveView, frame: seq<Byte>, noise: seq<Noise>)
    requires ViewOk(v) && |frame| == SPI_BUFFER_SIZE && NoisesOk(noise)
    ensures AfterAttempts(v, frame, noise, 0) == Link(v, 0, [], false)
  {
  }

  lemma OneMoreAttempt(v: SlaveView, frame: seq<Byte>, noise: seq<Noise>, k: nat)
    requires ViewOk(v) && |frame| == SPI_BUFFER_SIZE && k < |noise| && NoisesOk(noise)
    requires !AfterAttempts(v, frame, noise, k).success
    ensures NoiseOk(noise[k])
    ensures AfterAttempts(v, frame, noise, k + 1) == Retry(AfterAttempts(v, frame, noise, k), frame, noise[k])
  {
    hide Retry;
  }

  lemma {:induction false} StaysDone(v: SlaveView, frame: seq<Byte>, noise: seq<Noise>, k: nat)
    requires ViewOk(v) && |frame| == SPI_BUFFER_SIZE && k <= |noise| && NoisesOk(noise)
    requires AfterAttempts(v, frame, noise, k).success
    ensures AfterAttempts(v, frame, noise, |noise|) == AfterAttempts(v, frame, noise, k)
    decreases |noise| - k
  {
    hide Retry;
    if k < |noise| {
      StaysDone(v, frame, noise, k + 1);
    }
  }

  // What the protocol guarantees.

  ghost predicate Clean(noise: seq<Byte>) {
    ZeroOutside(noise, 0, 0)
  }

  /** The part of the noise that hits the command. */
  ghost function CommandNoise(n: Noise): seq<Byte>
    requires NoiseOk(n)
  {
    n.mosi[..MOSI_SIZE]
  }

  /** Noise that a packet either survives unchanged or is rejected for. */
  ghost predicate Revealed(p: seq<Byte>, noise: seq<Byte>, at: nat)
    requires |noise| == |p| && at + 2 <= |p|
  {
    Clean(noise) || !CrcValid(XorBytes(p, noise), at)
  }

  lemma DetectableRevealed(p: seq<Byte>, noise: seq<Byte>, at: nat)
    requires |noise| == |p| && at + 2 <= |p| && CrcValid(p, at)
    requires Clean(noise) || Detectable(noise, at)
    ensures Revealed(p, noise, at)
  {
    if !Clean(noise) {
      DetectableDetected(p, noise, at);
    }
  }

  /** No attempt corrupts a packet into another valid one. */
  ghost predicate Honest(v: SlaveView, sealed: seq<Byte>, noise: seq<Noise>)
    requires ViewOk(v) && |sealed| == MOSI_SIZE
  {
    forall k | 0 <= k < |noise| ::
      && NoiseOk(noise[k])
      && Revealed(sealed, CommandNoise(noise[k]), MOSI_CRC)
      && Revealed(v.correct, noise[k].miso, MISO_CRC)
      && Revealed(v.wrong, noise[k].miso, MISO_CRC)
  }

  /** The command arrived intact in one of the first `k` attempts. */
  ghost predicate Delivered(noise: seq<Noise>, k: nat)
    requires NoisesOk(noise)
  {
    exists j :: 0 <= j < k && j < |noise| && Clean(noise[j].mosi[..MOSI_SIZE])
  }

  /** The command arrived intact in some attempt and a reply in a later one, all before `k`. */
  ghost predicate Answered(noise: seq<Noise>, k: nat)
    requires NoisesOk(noise)
  {
    exists m :: 0 <= m < k && m < |noise| && Clean(noise[m].miso) && Delivered(noise, m)
  }

  lemma CommandPart(sealed: seq<Byte>, tail: seq<Byte>, n: Noise)
    requires |sealed| == MOSI_SIZE && |tail| == SPI_BUFFER_SIZE - MOSI_SIZE && NoiseOk(n)
    ensures XorBytes(sealed + tail, n.mosi)[..MOSI_SIZE] == XorBytes(sealed, CommandNoise(n))
  {
  }

  /** The prepared replies of a fresh exchange. */
  ghost predicate FreshView(v: SlaveView, data: seq<Byte>)
    requires |data| == MISO_SIZE
  {
    v == SlaveView(Reply(data, false), Reply(data, true), false, seq(MOSI_SIZE, _ => 0))
  }

  /** The state of the link after `k` attempts, in terms of what the channel let through. */
  ghost predicate LinkExact(l: Link, v: SlaveView, mosi: seq<Byte>, noise: seq<Noise>, k: nat)
    requires |mosi| == MOSI_SIZE && NoisesOk(noise)
  {
    && l.slave.correct == v.correct && l.slave.wrong == v.wrong
    && (l.success <==> CrcField(mosi, MOSI_CRC) == 0 && Answered(noise, k))
    && (!l.success ==> (l.slave.accepted <==> CrcField(mosi, MOSI_CRC) == 0 && Delivered(noise, k)))
    && (l.slave.accepted ==> l.slave.received == mosi)
    && (!l.slave.accepted ==> l.slave.received == v.received)
    && (l.success ==> l.slave.accepted && l.reply == v.correct)
  }

  lemma Undisturbed(p: seq<Byte>, noise: seq<Byte>)
    requires |noise| == |p| && Clean(noise)
    ensures XorBytes(p, noise) == p
  {
    NoiseChangesAll(p, noise);
  }

  /** One attempt of the slave: it accepts exactly the intact command, if that was sealed validly. */
  lemma ReceiveExact(view: SlaveView, mosi: seq<Byte>, noise: seq<Byte>)
    requires |mosi| == MOSI_SIZE == |noise| && Revealed(Seal(mosi, MOSI_CRC), noise, MOSI_CRC)
    ensures Receive(view, XorBytes(Seal(mosi, MOSI_CRC), noise))
            == if CrcField(mosi, MOSI_CRC) == 0 && Clean(noise) then view.(accepted := true, received := mosi) else view
  {
    var sealed := Seal(mosi, MOSI_CRC);
    if Clean(noise) {
      Undisturbed(sealed, noise);
    }
    SealedValidIffFieldZero(mosi, MOSI_CRC);
    if CrcField(mosi, MOSI_CRC) == 0 {
      UnsealedIsOriginal(mosi, MOSI_CRC);
    }
  }

  lemma UnsealedIsOriginal(p: seq<Byte>, at: nat)
    requires at + 2 <= |p| && CrcField(p, at) == 0
    ensures Zeroed(Seal(p, at), at) == p
  {
    WithCrcTwice(p, at, CrcOf(p), 0);
    SplitPacket(p, at);
    assert p[at..at + 2] == [0, 0];
  }

  /** One reply: the master is satisfied exactly by the intact reply of a slave that has accepted. */
  lemma ReplyExact(view: SlaveView, data: seq<Byte>, noise: seq<Byte>)
    requires |data| == MISO_SIZE == |noise|
    requires view.correct == Reply(data, false) && view.wrong == Reply(data, true)
    requires Revealed(view.correct, noise, MISO_CRC) && Revealed(view.wrong, noise, MISO_CRC)
    ensures ReplyGood(XorBytes(Outgoing(view), noise)) <==> view.accepted && Clean(noise)
    ensures Clean(noise) ==> XorBytes(Outgoing(view), noise) == Outgoing(view)
  {
    hide CrcValid;
    if Clean(noise) {
      Undisturbed(Outgoing(view), noise);
    }
    ReplyValid(data, !view.accepted);
  }

  lemma DeliveredStep(noise: seq<Noise>, k: nat)
    requires k < |noise| && NoisesOk(noise)
    ensures NoiseOk(noise[k])
    ensures Delivered(noise, k + 1) <==> Delivered(noise, k) || Clean(CommandNoise(noise[k]))
    ensures Answered(noise, k + 1) <==> Answered(noise, k) || (Clean(noise[k].miso) && Delivered(noise, k))
  {
  }

  lemma RetryExact(l: Link, v: SlaveView, data: seq<Byte>, mosi: seq<Byte>, tail: seq<Byte>, noise: seq<Noise>, k: nat)
    requires |mosi| == MOSI_SIZE && |tail| == SPI_BUFFER_SIZE - MOSI_SIZE && |data| == MISO_SIZE && k < |noise|
    requires NoisesOk(noise)
    requires ViewOk(l.slave) && FreshView(v, data) && Honest(v, Seal(mosi, MOSI_CRC), noise)
    requires LinkExact(l, v, mosi, noise, k) && !l.success
    ensures NoiseOk(noise[k]) && LinkExact(Retry(l, Seal(mosi, MOSI_CRC) + tail, noise[k]), v, mosi, noise, k + 1)
  {
    hide CrcValid, CrcField, XorBytes, ReplyGood, Delivered, Answered, Seal, Reply;
    DeliveredStep(noise, k);
    CommandPart(Seal(mosi, MOSI_CRC), tail, noise[k]);
    ReceiveExact(l.slave, mosi, CommandNoise(noise[k]));
    ReplyExact(l.slave, data, noise[k].miso);
  }

  lemma NothingYet(v: SlaveView, mosi: seq<Byte>, noise: seq<Noise>)
    requires |mosi| == MOSI_SIZE && NoisesOk(noise) && !v.accepted
    ensures LinkExact(Link(v, 0, [], false), v, mosi, noise, 0)
  {
  }

  lemma {:induction false} AttemptsExact(v: SlaveView, data: seq<Byte>, mosi: seq<Byte>, tail: seq<Byte>, noise: seq<Noise>, k: nat)
    requires |mosi| == MOSI_SIZE && |tail| == SPI_BUFFER_SIZE - MOSI_SIZE && |data| == MISO_SIZE && k <= |noise|
    requires NoisesOk(noise)
    requires ViewOk(v) && FreshView(v, data) && Honest(v, Seal(mosi, MOSI_CRC), noise)
    ensures LinkExact(AfterAttempts(v, Seal(mosi, MOSI_CRC) + tail, noise, k), v, mosi, noise, k)
    decreases k
  {
    hide CrcValid, CrcField, XorBytes, ReplyGood, Seal, Reply, Delivered, Answered, Retry, Honest;
    if k == 0 {
      NothingYet(v, mosi, noise);
    } else {
      var l := AfterAttempts(v, Seal(mosi, MOSI_CRC) + tail, noise, k - 1);
      AttemptsExact(v, data, mosi, tail, noise, k - 1);
      DeliveredStep(noise, k - 1);
      if !l.success {
        RetryExact(l, v, data, mosi, tail, noise, k - 1);
      }
    }
  }

  /** The slave's data in a reply: all bytes before the CRC, and the status flags but for the fault bit. */
  ghost predicate HoldsData(reply: seq<Byte>, data: seq<Byte>)
    requires |reply| == |data| == MISO_SIZE
  {
    && reply[..MISO_CRC] == data[..MISO_CRC]
    && reply[STATUS_FLAGS] % 2 == data[STATUS_FLAGS] % 2 && reply[STATUS_FLAGS] / 4 == data[STATUS_FLAGS] / 4
  }

  /** Agreement of the two sides, if no packet is corrupted into another valid one: the master
      reports success exactly when its incoming CRC field was zero, the command arrived intact in
      some attempt and a reply in a later one; then the slave holds the master's command, and the
      master holds the slave's data with the fault bit clear. */
  lemma SpiAgreement(v: SlaveView, data: seq<Byte>, mosi: seq<Byte>, tail: seq<Byte>, noise: seq<Noise>)
    requires |mosi| == MOSI_SIZE && |tail| == SPI_BUFFER_SIZE - MOSI_SIZE && |data| == MISO_SIZE
    requires |noise| == MAX_ATTEMPTS && NoisesOk(noise)
    requires ViewOk(v) && FreshView(v, data) && Honest(v, Seal(mosi, MOSI_CRC), noise)
    ensures var l := AfterAttempts(v, Seal(mosi, MOSI_CRC) + tail, noise, MAX_ATTEMPTS);
            && (l.success <==> CrcField(mosi, MOSI_CRC) == 0
                               && exists j, k :: 0 <= j < k < MAX_ATTEMPTS && Clean(noise[j].mosi[..MOSI_SIZE]) && Clean(noise[k].miso))
            && (l.success ==> l.slave.received == mosi && l.reply == Reply(data, false)
                              && HoldsData(l.reply, data) && !FaultBit(l.reply[STATUS_FLAGS]))
            && (l.slave.received == mosi || l.slave.received == seq(MOSI_SIZE, _ => 0))
  {
    hide CrcValid, CrcField, XorBytes, ReplyGood, Seal, Reply;
    AttemptsExact(v, data, mosi, tail, noise, MAX_ATTEMPTS);
    if j, k :| 0 <= j < k < MAX_ATTEMPTS && Clean(noise[j].mosi[..MOSI_SIZE]) && Clean(noise[k].miso) {
      assert Delivered(noise, k);
      assert Answered(noise, MAX_ATTEMPTS);
    }
  }

  /** On a channel without errors the transfer takes exactly two attempts: the reply to the first
      one was prepared before the command arrived. */
  lemma QuietChannel(data: seq<Byte>, mosi: seq<Byte>, tail: seq<Byte>) returns (v: SlaveView, noise: seq<Noise>)
    requires |mosi| == MOSI_SIZE && |tail| == SPI_BUFFER_SIZE - MOSI_SIZE && |data| == MISO_SIZE
    requires CrcField(mosi, MOSI_CRC) == 0
    ensures ViewOk(v) && FreshView(v, data) && |noise| == MAX_ATTEMPTS && NoisesOk(noise)
    ensures forall k | 0 <= k < |noise| :: Clean(noise[k].mosi) && Clean(noise[k].miso)
    ensures Honest(v, Seal(mosi, MOSI_CRC), noise)
    ensures var l := AfterAttempts(v, Seal(mosi, MOSI_CRC) + tail, noise, MAX_ATTEMPTS);
            l.success && l.attempts == 2 && l.slave.received == mosi && l.reply == Reply(data, false)
  {
    hide CrcValid, CrcField, XorBytes, ReplyGood, Seal, Reply;
    v := SlaveView(Reply(data, false), Reply(data, true), false, seq(MOSI_SIZE, _ => 0));
    var quiet := Noise(seq(SPI_BUFFER_SIZE, _ => 0), seq(MISO_SIZE, _ => 0));
    noise := [quiet, quiet, quiet];
    var frame := Seal(mosi, MOSI_CRC) + tail;
    AttemptsExact(v, data, mosi, tail, noise, 1);
    AttemptsExact(v, data, mosi, tail, noise, 2);
    assert !Answered(noise, 1) && Delivered(noise, 1) && Answered(noise, 2);
    AttemptsCounted(v, frame, noise, 1);
    StaysDone(v, frame, noise, 2);
  }

  lemma {:induction false} AttemptsCounted(v: SlaveView, frame: seq<Byte>, noise: seq<Noise>, k: nat)
    requires ViewOk(v) && |frame| == SPI_BUFFER_SIZE && k < |noise| && NoisesOk(noise)
    ensures !AfterAttempts(v, frame, noise, k).success ==>
              AfterAttempts(v, frame, noise, k).attempts == k && AfterAttempts(v, frame, noise, k + 1).attempts == k + 1
  {
    hide CrcValid, XorBytes, ReplyGood;
    if k > 0 {
      AttemptsCounted(v, frame, noise, k - 1);
    }
  }

  /** What reached the slave in attempt `j`. */
  ghost function Arrived(frame: seq<Byte>, noise: seq<Noise>, j: nat): (rx: seq<Byte>)
    requires |frame| == SPI_BUFFER_SIZE && j < |noise| && NoisesOk(noise)
    ensures |rx| == MOSI_SIZE
  {
    assert NoiseOk(noise[j]);
    XorBytes(frame, noise[j].mosi)[..MOSI_SIZE]
  }

  ghost predicate ArrivedValid(frame: seq<Byte>, noise: seq<Noise>, j: nat)
    requires |frame| == SPI_BUFFER_SIZE && j < |noise| && NoisesOk(noise)
  {
    CrcValid(Arrived(frame, noise, j), MOSI_CRC)
  }

  /** Attempt `j` is the last of the first `n` in which a valid packet arrived. */
  ghost predicate LastValid(frame: seq<Byte>, noise: seq<Noise>, n: nat, j: nat)
    requires |frame| == SPI_BUFFER_SIZE && n <= |noise| && NoisesOk(noise)
  {
    && j < n && ArrivedValid(frame, noise, j)
    && forall i: nat | j < i < n :: !ArrivedValid(frame, noise, i)
  }

  /** `received` is the last valid packet of the first `n` attempts, or all zeros if there is none. */
  ghost predicate HoldsLastValid(received: seq<Byte>, frame: seq<Byte>, noise: seq<Noise>, n: nat)
    requires |frame| == SPI_BUFFER_SIZE && n <= |noise| && NoisesOk(noise)
  {
    || (received == seq(MOSI_SIZE, _ => 0) && forall j: nat | j < n :: !ArrivedValid(frame, noise, j))
    || exists j: nat :: LastValid(frame, noise, n, j) && received == Zeroed(Arrived(frame, noise, j), MOSI_CRC)
  }

  /** Whatever the channel does, the slave's command is the last packet that arrived in the attempts
      made with a valid CRC, or all zeros if no such packet arrived. */
  lemma {:induction false} CommandZeroOrValid(v: SlaveView, frame: seq<Byte>, noise: seq<Noise>, k: nat)
    requires ViewOk(v) && |frame| == SPI_BUFFER_SIZE && k <= |noise| && NoisesOk(noise)
    requires v.received == seq(MOSI_SIZE, _ => 0)
    ensures var l := AfterAttempts(v, frame, noise, k);
            l.attempts <= k && HoldsLastValid(l.slave.received, frame, noise, l.attempts)
    decreases k
  {
    hide HoldsLastValid, Retry, ArrivedValid;
    if k == 0 {
      NothingHeldYet(v.received, frame, noise);
    } else {
      CommandZeroOrValid(v, frame, noise, k - 1);
      var l := AfterAttempts(v, frame, noise, k - 1);
      if !l.success {
        AttemptsMade(v, frame, noise, k - 1);
        OneMoreAttempt(v, frame, noise, k - 1);
        RetryReceives(l, frame, noise, k - 1);
        HoldsOneMore(l.slave.received, Retry(l, frame, noise[k - 1]).slave.received, frame, noise, k - 1);
      }
    }
  }

  lemma NothingHeldYet(received: seq<Byte>, frame: seq<Byte>, noise: seq<Noise>)
    requires |frame| == SPI_BUFFER_SIZE && NoisesOk(noise) && received == seq(MOSI_SIZE, _ => 0)
    ensures HoldsLastValid(received, frame, noise, 0)
  {
  }

  lemma RetryReceives(l: Link, frame: seq<Byte>, noise: seq<Noise>, k: nat)
    requires ViewOk(l.slave) && |frame| == SPI_BUFFER_SIZE && k < |noise| && NoisesOk(noise) && NoiseOk(noise[k])
    ensures Retry(l, frame, noise[k]).attempts == l.attempts + 1
    ensures Retry(l, frame, noise[k]).slave.received
            == if ArrivedValid(frame, noise, k) then Zeroed(Arrived(frame, noise, k), MOSI_CRC) else l.slave.received
  {
    hide CrcValid, Zeroed, XorBytes, ReplyGood;
  }

  lemma HoldsOneMore(received: seq<Byte>, received': seq<Byte>, frame: seq<Byte>, noise: seq<Noise>, n: nat)
    requires |frame| == SPI_BUFFER_SIZE && n < |noise| && NoisesOk(noise)
    requires HoldsLastValid(received, frame, noise, n)
    requires received' == if ArrivedValid(frame, noise, n) then Zeroed(Arrived(frame, noise, n), MOSI_CRC) else received
    ensures HoldsLastValid(received', frame, noise, n + 1)
  {
    hide ArrivedValid, Arrived, Zeroed;
    if ArrivedValid(frame, noise, n) {
      assert LastValid(frame, noise, n + 1, n);
    } else if j: nat :| LastValid(frame, noise, n, j) && received == Zeroed(Arrived(frame, noise, j), MOSI_CRC) {
      assert LastValid(frame, noise, n + 1, j);
    }
  }

  lemma AttemptsMade(v: SlaveView, frame: seq<Byte>, noise: seq<Noise>, k: nat)
    requires ViewOk(v) && |frame| == SPI_BUFFER_SIZE && k < |noise| && NoisesOk(noise)
    requires !AfterAttempts(v, frame, noise, k).success
    ensures AfterAttempts(v, frame, noise, k).attempts == k
  {
    AttemptsCounted(v, frame, noise, k);
  }
}
