/** The TWI (I2C) master as seen on the wire: what the interrupt handler does at each bus event,
    which events the hardware can raise after the last reply, and what every transfer keeps. */
module TwiProtocol {
  import opened Bits

  const TWI_BUFFER_LENGTH: nat := 32
  const TW_MT_SLA_NACK: Byte := 0x20
  const TW_MT_DATA_NACK: Byte := 0x30
  const TW_MT_ARB_LOST: Byte := 0x38
  const TW_BUS_ERROR: Byte := 0x00
  const NO_ERROR: Byte := 0xFF

  datatype State = Ready | Mrx | Mtx

  /** What the control register was last told. HoldStart sends a repeated start with the interrupt
      disabled. */
  datatype Control = Listen | SendStart | Continue(ack: bool) | SendStop | HoldStart | Release

  datatype Event =
    | Start | RepStart
    | MtSlaAck | MtDataAck | MtSlaNack | MtDataNack | ArbLost
    | MrSlaAck | MrSlaNack | MrDataAck(received: Byte) | MrDataNack(last: Byte)
    | NoInfo | BusError

  /** The global variables and registers of the driver. */
  datatype Twi = Twi(
    state: State, slarw: Byte, sendStop: bool, inRepStart: bool,
    buffer: seq<Byte>, index: Byte, length: Byte, error: Byte,
    control: Control, dataRegister: Byte)

  /** Only received bytes are stored, and only there the index matters. */
  predicate Fits(t: Twi, e: Event) {
    && |t.buffer| == TWI_BUFFER_LENGTH
    && (e.MrDataAck? || e.MrDataNack? ==> t.index < TWI_BUFFER_LENGTH)
    && (e.MtSlaAck? || e.MtDataAck? ==> t.length <= TWI_BUFFER_LENGTH)
  }

  /** End of a transfer: a stop, or a start that is held for the next transfer. */
  function Conclude(t: Twi): Twi {
    if t.sendStop then t.(control := SendStop, state := Ready)
    else t.(control := HoldStart, inRepStart := true, state := Ready)
  }

  function Store(t: Twi, b: Byte): Twi
    requires t.index < TWI_BUFFER_LENGTH == |t.buffer|
  {
    t.(buffer := t.buffer[t.index := b], index := t.index + 1)
  }

  /** The interrupt handler's effect. */
  function OnEvent(t: Twi, e: Event): Twi
    requires Fits(t, e)
  {
    match e
    case Start | RepStart => t.(dataRegister := t.slarw, control := Continue(true))
    case MtSlaAck | MtDataAck =>
      if t.index < t.length then
        t.(dataRegister := t.buffer[t.index], index := t.index + 1, control := Continue(true))
      else Conclude(t)
    case MtSlaNack => t.(error := TW_MT_SLA_NACK, control := SendStop, state := Ready)
    case MtDataNack => t.(error := TW_MT_DATA_NACK, control := SendStop, state := Ready)
    case ArbLost => t.(error := TW_MT_ARB_LOST, control := Release, state := Ready)
    case MrSlaAck => t.(control := Continue(t.index < t.length))
    case MrDataAck(b) => var stored := Store(t, b); stored.(control := Continue(stored.index < stored.length))
    case MrDataNack(b) => Conclude(Store(t, b))
    case MrSlaNack => t.(control := SendStop, state := Ready)
    case NoInfo => t
    case BusError => t.(error := TW_BUS_ERROR, control := SendStop, state := Ready)
  }

  // The other side of the wire.

  datatype Phase = Idle | Started | Transmitting | Receiving

  /** Bytes that the device with address `to` took in a write. */
  datatype Message = Message(to: nat, bytes: seq<Byte>)

  /** The bus and its devices: the address byte last sent, the last write, and how many bytes have
      been given in the current read. */
  datatype Bus = Bus(phase: Phase, called: Byte, written: Message, given: nat)

  /** The devices on the bus, as any function from the address of the one that is read and the last
      write to the bytes it gives, in order. */
  type Device = (nat, Message, nat) -> Byte

  /** The device that an address byte calls; its lowest bit tells the direction. */
  function Called(slarw: Byte): nat {
    slarw / 2
  }

  predicate IsRead(slarw: Byte) {
    slarw % 2 == 1
  }

  /** What the device that is read gives next. */
  function NextByte(bus: Bus, device: Device): Byte {
    device(Called(bus.called), bus.written, bus.given)
  }

  /** The hardware follows the last reply: no event without an enabled interrupt, a byte is acked
      exactly if the driver asked for it, and lost arbitration or a bus error at any time. */
  predicate Possible(t: Twi, bus: Bus, device: Device, e: Event) {
    match t.control
    case SendStart => e.Start? || e.RepStart? || e.ArbLost? || e.BusError?
    case Continue(ack) =>
      || e.ArbLost? || e.BusError?
      || (match bus.phase
          case Started => if IsRead(t.dataRegister) then e.MrSlaAck? || e.MrSlaNack? else e.MtSlaAck? || e.MtSlaNack?
          case Transmitting => e.MtDataAck? || e.MtDataNack?
          case Receiving => e == if ack then MrDataAck(NextByte(bus, device)) else MrDataNack(NextByte(bus, device))
          case Idle => false)
    case _ => false
  }

  function BusAfter(t: Twi, bus: Bus, e: Event): Bus
    requires Fits(t, e)
  {
    var phase := match OnEvent(t, e).control {
      case HoldStart => Started
      case Continue(_) =>
        (match e
         case Start | RepStart => Started
         case MtSlaAck | MtDataAck => Transmitting
         case MrSlaAck | MrDataAck(_) => Receiving
         case _ => Idle)
      case _ => Idle
    };
    match e
    case MtSlaAck => bus.(phase := phase, called := t.dataRegister, written := Message(Called(t.dataRegister), []))
    case MtSlaNack | MrSlaNack => bus.(phase := phase, called := t.dataRegister)
    case MtDataAck => bus.(phase := phase, written := Message(bus.written.to, bus.written.bytes + [t.dataRegister]))
    case MrSlaAck => bus.(phase := phase, called := t.dataRegister, given := 0)
    case MrDataAck(_) | MrDataNack(_) => bus.(phase := phase, given := bus.given + 1)
    case _ => bus.(phase := phase)
  }

  /** Between two transfers; a held start is exactly what the flag announces. */
  ghost predicate Settled(t: Twi, bus: Bus) {
    && |t.buffer| == TWI_BUFFER_LENGTH && t.state == Ready
    && !t.control.Continue? && !t.control.SendStart?
    && (t.inRepStart <==> t.control == HoldStart)
    && bus.phase == (if t.inRepStart then Started else Idle)
  }

  /** The events that end a transfer early. */
  predicate IsFailure(e: Event) {
    e.ArbLost? || e.BusError? || e.MtSlaNack? || e.MtDataNack? || e.MrSlaNack?
  }

  // Starting a transfer.

  /** The address byte: a 7-bit address and the direction. */
  function Slarw(address: Byte, read: bool): (slarw: Byte)
    ensures Called(slarw) == address % 128 && IsRead(slarw) == read
  {
    assert (2 * address) % 256 == if address < 128 then 2 * address else 2 * address - 256;
    (2 * address) % 256 + if read then 1 else 0
  }

  /** Either the held start is used up by sending the address, or a start is requested. */
  function Request(t: Twi): Twi {
    if t.inRepStart then t.(inRepStart := false, dataRegister := t.slarw, control := Continue(true))
    else t.(control := SendStart)
  }

  function BeginRead(t: Twi, address: Byte, length: Byte, sendStop: bool): Twi {
    Request(t.(state := Mrx, sendStop := sendStop, error := NO_ERROR, index := 0,
               length := if length == 0 then 255 else length - 1, slarw := Slarw(address, true)))
  }

  function BeginWrite(t: Twi, address: Byte, data: seq<Byte>, sendStop: bool): Twi
    requires |data| <= TWI_BUFFER_LENGTH == |t.buffer|
  {
    Request(t.(state := Mtx, sendStop := sendStop, error := NO_ERROR, index := 0,
               length := |data|, buffer := data + t.buffer[|data|..], slarw := Slarw(address, false)))
  }

  // Reading.

  ghost predicate Answers(t: Twi, device: Device, who: nat, command: Message) {
    && t.index <= |t.buffer|
    && forall k: nat | k < t.index :: t.buffer[k] == device(who, command, k)
  }

  /** A read of `length` bytes from device `who` under way, the last write being `command`. */
  ghost predicate Reading(t: Twi, bus: Bus, device: Device, who: nat, command: Message, length: nat, sendStop: bool) {
    && t.state == Mrx && t.error == NO_ERROR && !t.inRepStart && t.sendStop == sendStop
    && |t.buffer| == TWI_BUFFER_LENGTH && 1 <= length <= TWI_BUFFER_LENGTH
    && t.length == length - 1 && t.index < length && IsRead(t.slarw) && Called(t.slarw) == who
    && bus.written == command && Answers(t, device, who, command)
    && (|| (t.control == SendStart && bus.phase == Idle && t.index == 0)
        || (t.control.Continue? && bus.phase == Started && t.dataRegister == t.slarw && t.index == 0)
        || (t.control == Continue(t.index + 1 < length) && bus.phase == Receiving && bus.given == t.index
            && bus.called == t.slarw))
  }

  /** How a transfer ends on the bus: with a stop, with a start held for the next transfer if no stop
      was asked for, or by leaving the bus to the master that won it; and what the error says. */
  ghost predicate EndedBy(t: Twi, sendStop: bool, last: Event) {
    && t.control == (if last.ArbLost? then Release else if IsFailure(last) || sendStop then SendStop else HoldStart)
    && (last.ArbLost? <==> t.error == TW_MT_ARB_LOST) && (last.BusError? <==> t.error == TW_BUS_ERROR)
  }

  /** A read that has ended: the bytes received are the device's, and there are `length` of them
      exactly if the last byte was taken with a NACK. */
  ghost predicate ReadEnded(t: Twi, bus: Bus, device: Device, who: nat, command: Message, length: nat, sendStop: bool, last: Event) {
    && Settled(t, bus) && EndedBy(t, sendStop, last) && bus.written == command
    && Answers(t, device, who, command) && t.index <= length
    && (t.index > 0 || last.MrSlaNack? ==> bus.called == 2 * who + 1)
    && (t.index == length <==> last.MrDataNack?)
    && (last.MrDataNack? <==> !IsFailure(last))
    && (last.MrDataNack? ==> bus.given == length)
    && (last.MrDataNack? ==> t.error == NO_ERROR)
    && (t.error == NO_ERROR ==> last.MrDataNack? || (last.MrSlaNack? && t.index == 0))
    && (t.inRepStart <==> last.MrDataNack? && !sendStop)
  }

  /** Interrupts until the end of the read, at most. */
  function ReadRank(t: Twi, bus: Bus, length: nat): int {
    if t.control == SendStart then length + 2
    else if bus.phase == Started then length + 1
    else length - t.index
  }

  lemma BeginReadReads(t: Twi, bus: Bus, device: Device, address: Byte, length: Byte, sendStop: bool)
    requires Settled(t, bus) && 1 <= length <= TWI_BUFFER_LENGTH
    ensures Reading(BeginRead(t, address, length, sendStop), bus, device, address % 128, bus.written, length, sendStop)
    ensures ReadRank(BeginRead(t, address, length, sendStop), bus, length) <= length + 2
  {
  }

  /** Every event the hardware can raise keeps the read going with one byte more, or ends it. */
  lemma ReadKeeps(t: Twi, bus: Bus, device: Device, who: nat, command: Message, length: nat, sendStop: bool, e: Event)
    requires Reading(t, bus, device, who, command, length, sendStop) && Possible(t, bus, device, e)
    ensures Fits(t, e)
    ensures var t', bus' := OnEvent(t, e), BusAfter(t, bus, e);
            if t'.state == Mrx then
              Reading(t', bus', device, who, command, length, sendStop) && ReadRank(t', bus', length) < ReadRank(t, bus, length)
            else ReadEnded(t', bus', device, who, command, length, sendStop, e)
  {
  }

  /** A NACK is requested exactly for the last byte: while a byte is coming in, the reply in force
      is an ACK if and only if at least one more is wanted after it. */
  lemma NackExactlyForLast(t: Twi, bus: Bus, device: Device, who: nat, command: Message, length: nat, sendStop: bool, e: Event)
    requires Reading(t, bus, device, who, command, length, sendStop) && Possible(t, bus, device, e)
    requires bus.phase == Receiving && t.control.Continue? && !e.ArbLost? && !e.BusError?
    ensures t.index == bus.given < length
    ensures e.MrDataNack? <==> bus.given == length - 1
    ensures e.MrDataAck? <==> bus.given < length - 1
  {
  }

  // Writing.

  /** A write of `data` under way: the device has taken all bytes handed over but the one on the wire. */
  ghost predicate Writing(t: Twi, bus: Bus, who: nat, data: seq<Byte>, sendStop: bool) {
    && t.state == Mtx && t.error == NO_ERROR && !t.inRepStart && t.sendStop == sendStop
    && |t.buffer| == TWI_BUFFER_LENGTH && t.length == |data| <= TWI_BUFFER_LENGTH
    && data == t.buffer[..t.length] && t.index <= t.length && !IsRead(t.slarw) && Called(t.slarw) == who
    && (|| (t.control == SendStart && bus.phase == Idle && t.index == 0)
        || (t.control == Continue(true) && bus.phase == Started && t.dataRegister == t.slarw && t.index == 0)
        || (t.control == Continue(true) && bus.phase == Transmitting && t.index >= 1
            && bus.called == t.slarw && bus.written == Message(who, data[..t.index - 1])
            && t.dataRegister == data[t.index - 1]))
  }

  /** A write that has ended: without an error exactly if the device took all bytes. */
  ghost predicate WriteEnded(t: Twi, bus: Bus, who: nat, data: seq<Byte>, sendStop: bool, last: Event) {
    && Settled(t, bus) && EndedBy(t, sendStop, last)
    && (t.error == NO_ERROR <==> last == if data == [] then MtSlaAck else MtDataAck)
    && (t.error == NO_ERROR <==> !IsFailure(last))
    && (t.error == NO_ERROR ==> bus.written == Message(who, data))
    && (t.error == NO_ERROR || last.MtSlaNack? || last.MtDataNack? ==> bus.called == 2 * who)
    && (t.error == TW_MT_SLA_NACK <==> last.MtSlaNack?)
    && (t.error == TW_MT_DATA_NACK <==> last.MtDataNack?)
    && (last.MtDataNack? ==> bus.written.to == who && bus.written.bytes < data)
    && (t.inRepStart <==> t.error == NO_ERROR && !sendStop)
  }

  function WriteRank(t: Twi, bus: Bus): int {
    if t.control == SendStart then t.length + 2
    else if bus.phase == Started then t.length + 1
    else t.length - t.index + 1
  }

  lemma BeginWriteWrites(t: Twi, bus: Bus, address: Byte, data: seq<Byte>, sendStop: bool)
    requires Settled(t, bus) && |data| <= TWI_BUFFER_LENGTH
    ensures Writing(BeginWrite(t, address, data, sendStop), bus, address % 128, data, sendStop)
    ensures WriteRank(BeginWrite(t, address, data, sendStop), bus) <= |data| + 2
  {
  }

  lemma WriteKeeps(t: Twi, bus: Bus, device: Device, who: nat, data: seq<Byte>, sendStop: bool, e: Event)
    requires Writing(t, bus, who, data, sendStop) && Possible(t, bus, device, e)
    ensures Fits(t, e)
    ensures var t', bus' := OnEvent(t, e), BusAfter(t, bus, e);
            if t'.state == Mtx then Writing(t', bus', who, data, sendStop) && WriteRank(t', bus') < WriteRank(t, bus)
            else WriteEnded(t', bus', who, data, sendStop, e)
  {
    if (e.MtSlaAck? || e.MtDataAck?) && t.index < t.length {
      WriteHandsOver(t, bus, device, who, data, sendStop, e);
    } else if !e.Start? && !e.RepStart? {
      WriteEnds(t, bus, device, who, data, sendStop, e);
    }
  }

  lemma WriteHandsOver(t: Twi, bus: Bus, device: Device, who: nat, data: seq<Byte>, sendStop: bool, e: Event)
    requires Writing(t, bus, who, data, sendStop) && Possible(t, bus, device, e)
    requires (e.MtSlaAck? || e.MtDataAck?) && t.index < t.length
    ensures Fits(t, e)
    ensures var t', bus' := OnEvent(t, e), BusAfter(t, bus, e);
            Writing(t', bus', who, data, sendStop) && WriteRank(t', bus') < WriteRank(t, bus)
  {
    hide NextByte;
    assert data[..t.index] == if t.index == 0 then [] else data[..t.index - 1] + [data[t.index - 1]];
  }

  lemma WriteEnds(t: Twi, bus: Bus, device: Device, who: nat, data: seq<Byte>, sendStop: bool, e: Event)
    requires Writing(t, bus, who, data, sendStop) && Possible(t, bus, device, e)
    requires !e.Start? && !e.RepStart? && !((e.MtSlaAck? || e.MtDataAck?) && t.index < t.length)
    ensures Fits(t, e) && OnEvent(t, e).state == Ready
    ensures WriteEnded(OnEvent(t, e), BusAfter(t, bus, e), who, data, sendStop, e)
  {
    hide NextByte;
  }

  // Whole runs.

  /** The interrupts raised until the transfer ends are ones the hardware can raise. */
  ghost predicate Consistent(t: Twi, bus: Bus, device: Device, events: seq<Event>)
    decreases |events|
  {
    events == [] || t.state == Ready ||
    (&& Possible(t, bus, device, events[0])
     && (Fits(t, events[0]) ==> Consistent(OnEvent(t, events[0]), BusAfter(t, bus, events[0]), device, events[1..])))
  }

  /** In the run `events` the index never exceeds `length` and no byte is stored behind the buffer. */
  ghost predicate StaysWithin(t: Twi, bus: Bus, device: Device, events: seq<Event>, length: nat)
    decreases |events|
  {
    && t.index <= length
    && (events == [] || t.state == Ready || !Possible(t, bus, device, events[0]) ||
        (Fits(t, events[0]) && StaysWithin(OnEvent(t, events[0]), BusAfter(t, bus, events[0]), device, events[1..], length)))
  }

  lemma {:induction false} ReadStaysWithin(t: Twi, bus: Bus, device: Device, who: nat, command: Message, length: nat, sendStop: bool, events: seq<Event>)
    requires Reading(t, bus, device, who, command, length, sendStop)
    ensures StaysWithin(t, bus, device, events, length)
    decreases |events|
  {
    if events != [] && Possible(t, bus, device, events[0]) {
      ReadKeeps(t, bus, device, who, command, length, sendStop, events[0]);
      var t', bus' := OnEvent(t, events[0]), BusAfter(t, bus, events[0]);
      if t'.state == Mrx {
        ReadStaysWithin(t', bus', device, who, command, length, sendStop, events[1..]);
      }
    }
  }

  /** With length 0 the length register wraps to 255, and the first byte is asked for with an ACK. */
  lemma ZeroLengthRunsOver(t: Twi, bus: Bus, device: Device, address: Byte, sendStop: bool) returns (events: seq<Event>)
    requires Settled(t, bus)
    ensures !StaysWithin(BeginRead(t, address, 0, sendStop), bus, device, events, 0)
  {
    var t1 := BeginRead(t, address, 0, sendStop);
    var tail := [MrSlaAck, MrDataAck(device(Called(t1.slarw), bus.written, 0))];
    if t.inRepStart {
      ZeroLengthFromAddress(t1, bus, device);
      events := tail;
    } else {
      var t2, bus2 := OnEvent(t1, Start), BusAfter(t1, bus, Start);
      ZeroLengthFromAddress(t2, bus2, device);
      events := [Start] + tail;
      assert events[1..] == tail;
    }
  }

  lemma ZeroLengthFromAddress(t: Twi, bus: Bus, device: Device)
    requires |t.buffer| == TWI_BUFFER_LENGTH && t.state == Mrx && t.index == 0 && t.length == 255
    requires t.control.Continue? && bus.phase == Started && IsRead(t.dataRegister)
    ensures !StaysWithin(t, bus, device, [MrSlaAck, MrDataAck(device(Called(t.dataRegister), bus.written, 0))], 0)
  {
    var events := [MrSlaAck, MrDataAck(device(Called(t.dataRegister), bus.written, 0))];
    var t1, bus1 := OnEvent(t, MrSlaAck), BusAfter(t, bus, MrSlaAck);
    assert events[1..] == [MrDataAck(NextByte(bus1, device))];
    assert !StaysWithin(t1, bus1, device, events[1..], 0);
  }

  /** From `t` the events lead to `t'`, each one stored within the buffer. */
  ghost predicate Runs(t: Twi, bus: Bus, device: Device, events: seq<Event>, t': Twi, bus': Bus)
    decreases |events|
  {
    || (events == [] && t == t' && bus == bus')
    || (events != [] && Possible(t, bus, device, events[0]) && Fits(t, events[0])
        && Runs(OnEvent(t, events[0]), BusAfter(t, bus, events[0]), device, events[1..], t', bus'))
  }

  /** In the middle of a read of length 0 every byte is answered with an ACK. */
  ghost predicate Acking(t: Twi, bus: Bus) {
    && |t.buffer| == TWI_BUFFER_LENGTH && t.state == Mrx && t.length == 255 && t.index <= TWI_BUFFER_LENGTH
    && t.control == Continue(true) && bus.phase == Receiving && bus.given == t.index
  }

  /** A read of length 0 under way. */
  ghost predicate ReadingNothing(t: Twi, bus: Bus) {
    && |t.buffer| == TWI_BUFFER_LENGTH && t.state == Mrx && t.length == 255 && !t.inRepStart && IsRead(t.slarw)
    && (|| (t.control == SendStart && bus.phase == Idle && t.index == 0)
        || (t.control.Continue? && bus.phase == Started && IsRead(t.dataRegister) && t.index == 0)
        || Acking(t, bus))
  }

  lemma BeginNothing(t: Twi, bus: Bus, address: Byte, sendStop: bool)
    requires Settled(t, bus)
    ensures ReadingNothing(BeginRead(t, address, 0, sendStop), bus)
  {
  }

  /** It never ends but by a failure, or by the byte that does not fit any more. */
  lemma ReadingNothingKeeps(t: Twi, bus: Bus, device: Device, e: Event)
    requires ReadingNothing(t, bus) && Possible(t, bus, device, e)
    ensures Fits(t, e) <==> !(e.MrDataAck? && t.index == TWI_BUFFER_LENGTH)
    ensures Fits(t, e) ==> var t', bus' := OnEvent(t, e), BusAfter(t, bus, e);
              if t'.state == Mrx then ReadingNothing(t', bus') else IsFailure(e) && Settled(t', bus') && !t'.inRepStart
  {
  }

  lemma {:induction false} ReceiveAll(t: Twi, bus: Bus, device: Device) returns (events: seq<Event>, t': Twi, bus': Bus)
    requires Acking(t, bus)
    ensures Runs(t, bus, device, events, t', bus') && Acking(t', bus') && t'.index == TWI_BUFFER_LENGTH
    decreases TWI_BUFFER_LENGTH - t.index
  {
    if t.index == TWI_BUFFER_LENGTH {
      events, t', bus' := [], t, bus;
    } else {
      var e := MrDataAck(NextByte(bus, device));
      var rest;
      rest, t', bus' := ReceiveAll(OnEvent(t, e), BusAfter(t, bus, e), device);
      events := [e] + rest;
      assert events[1..] == rest;
    }
  }

  /** With length 0 there is a run in which the 33rd byte arrives, acknowledged, when the buffer of 32
      is full: it would be stored behind the buffer. */
  lemma ZeroLengthOverflows(t: Twi, bus: Bus, device: Device, address: Byte, sendStop: bool)
      returns (events: seq<Event>, t': Twi, bus': Bus)
    requires Settled(t, bus)
    ensures Runs(BeginRead(t, address, 0, sendStop), bus, device, events, t', bus')
    ensures var e := MrDataAck(NextByte(bus', device));
            Possible(t', bus', device, e) && t'.index == TWI_BUFFER_LENGTH && !Fits(t', e)
  {
    var t0, b0, head := BeginRead(t, address, 0, sendStop), bus, [];
    if !t.inRepStart {
      t0, b0, head := OnEvent(t0, Start), BusAfter(t0, bus, Start), [Start];
    }
    var rest;
    rest, t', bus' := ReceiveAll(OnEvent(t0, MrSlaAck), BusAfter(t0, b0, MrSlaAck), device);
    var tail := [MrSlaAck] + rest;
    assert tail[1..] == rest;
    events := head + tail;
    assert head == [] ==> events == tail;
    assert head == [Start] ==> events[1..] == tail;
  }

  /** A read never runs over its length exactly if the length is not 0. */
  lemma ReadSafeIffNonzero(t: Twi, bus: Bus, device: Device, address: Byte, length: Byte, sendStop: bool)
    requires Settled(t, bus) && length <= TWI_BUFFER_LENGTH
    ensures (forall events :: StaysWithin(BeginRead(t, address, length, sendStop), bus, device, events, length)) <==> length != 0
  {
    if length == 0 {
      var events := ZeroLengthRunsOver(t, bus, device, address, sendStop);
    } else {
      BeginReadReads(t, bus, device, address, length, sendStop);
      forall events
        ensures StaysWithin(BeginRead(t, address, length, sendStop), bus, device, events, length)
      {
        ReadStaysWithin(BeginRead(t, address, length, sendStop), bus, device, address % 128, bus.written, length, sendStop, events);
      }
    }
  }
}
