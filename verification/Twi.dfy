/** The TWI driver: interrupt handler and the two blocking transfers over shared variables, and a
    register read composed of both. */
module Twi {
  import opened Bits
  import opened TwiProtocol

  class Driver {
    var state: State
    var slarw: Byte
    var sendStop: bool
    var inRepStart: bool
    const masterBuffer: array<Byte>
    var masterBufferIndex: Byte
    var masterBufferLength: Byte
    var error: Byte
    var control: Control
    var dataRegister: Byte
    ghost var bus: Bus

    ghost predicate Valid()
      reads this
    {
      masterBuffer.Length == TWI_BUFFER_LENGTH
    }

    ghost function View(): (t: Twi)
      reads this, masterBuffer
      requires Valid()
    {
      Twi(state, slarw, sendStop, inRepStart, masterBuffer[..], masterBufferIndex, masterBufferLength, error,
          control, dataRegister)
    }

    ghost predicate AtRest()
      reads this, masterBuffer
    {
      Valid() && Settled(View(), bus)
    }

    constructor ()
      ensures AtRest() && fresh(masterBuffer) && !inRepStart
    {
      masterBuffer := new Byte[32];
      state, sendStop, inRepStart, control := Ready, true, false, Listen;
      slarw, masterBufferIndex, masterBufferLength, error, dataRegister := 0, 0, 0, 0, 0;
      bus := Bus(Idle, 0, Message(0, []), 0);
    }

    method Reply(ack: bool)
      requires Valid()
      modifies this`control
      ensures View() == old(View()).(control := Continue(ack))
    {
      control := Continue(ack);
    }

    method Stop()
      requires Valid()
      modifies this`control, this`state
      ensures View() == old(View()).(control := SendStop, state := Ready)
    {
      control := SendStop;
      state := Ready;
    }

    method StopOrHoldStart()
      requires Valid()
      modifies this`control, this`state, this`inRepStart
      ensures View() == Conclude(old(View()))
    {
      if sendStop {
        Stop();
      } else {
        inRepStart := true;
        control := HoldStart;
        state := Ready;
      }
    }

    method StoreReceived(b: Byte)
      requires Valid() && masterBufferIndex < TWI_BUFFER_LENGTH
      modifies this`masterBufferIndex, masterBuffer
      ensures View() == Store(old(View()), b)
    {
      masterBuffer[masterBufferIndex] := b;
      masterBufferIndex := masterBufferIndex + 1;
    }

    /** One interrupt. */
    method Isr(e: Event)
      requires Valid() && Fits(View(), e)
      modifies this, masterBuffer
      ensures Valid() && View() == OnEvent(old(View()), e)
      ensures bus == BusAfter(old(View()), old(bus), e)
    {
      bus := BusAfter(View(), bus, e);
      match e
      case Start | RepStart =>
        dataRegister := slarw;
        Reply(true);
      case MtSlaAck | MtDataAck =>
        if masterBufferIndex < masterBufferLength {
          dataRegister := masterBuffer[masterBufferIndex];
          masterBufferIndex := masterBufferIndex + 1;
          Reply(true);
        } else {
          StopOrHoldStart();
        }
      case MtSlaNack =>
        error := TW_MT_SLA_NACK;
        Stop();
      case MtDataNack =>
        error := TW_MT_DATA_NACK;
        Stop();
      case ArbLost =>
        error := TW_MT_ARB_LOST;
        control, state := Release, Ready;
      case MrDataAck(b) =>
        StoreReceived(b);
        Reply(masterBufferIndex < masterBufferLength);
      case MrSlaAck =>
        Reply(masterBufferIndex < masterBufferLength);
      case MrDataNack(b) =>
        StoreReceived(b);
        StopOrHoldStart();
      case MrSlaNack =>
        Stop();
      case NoInfo =>
      case BusError =>
        error := TW_BUS_ERROR;
        Stop();
    }

    /** A repeated start that is already held only lacks the address; otherwise a start is sent. */
    method SendRequest()
      requires Valid()
      modifies this`inRepStart, this`dataRegister, this`control
      ensures View() == Request(old(View()))
    {
      if inRepStart {
        inRepStart := false;
        dataRegister := slarw;
        control := Continue(true);
      } else {
        control := SendStart;
      }
    }

    method RequestRead(address: Byte, length: Byte, stopAfter: bool)
      requires Valid()
      modifies this
      ensures Valid() && View() == BeginRead(old(View()), address, length, stopAfter) && bus == old(bus)
    {
      state, sendStop, error := Mrx, stopAfter, NO_ERROR;
      masterBufferIndex := 0;
      masterBufferLength := if length == 0 then 255 else length - 1;
      slarw := Slarw(address, true);
      SendRequest();
    }

    method RequestWrite(address: Byte, data: seq<Byte>, stopAfter: bool)
      requires Valid() && |data| <= TWI_BUFFER_LENGTH
      modifies this, masterBuffer
      ensures Valid() && View() == BeginWrite(old(View()), address, data, stopAfter) && bus == old(bus)
    {
      state, sendStop, error := Mtx, stopAfter, NO_ERROR;
      masterBufferIndex := 0;
      masterBufferLength := |data|;
      Fill(data);
      slarw := Slarw(address, false);
      SendRequest();
    }

    method Fill(data: seq<Byte>)
      requires Valid() && |data| <= TWI_BUFFER_LENGTH
      modifies masterBuffer
      ensures masterBuffer[..] == data + old(masterBuffer[..])[|data|..]
    {
      for i := 0 to |data|
        invariant forall k | 0 <= k < i :: masterBuffer[k] == data[k]
        invariant forall k | i <= k < masterBuffer.Length :: masterBuffer[k] == old(masterBuffer[k])
      {
        masterBuffer[i] := data[i];
      }
    }

    /** Reads up to `length` bytes while the interrupts `events` arrive. Unless the events run out
        first (`used` is then all of them, and fewer than length + 2), the bytes returned are
        the first that the addressed device gives after what was last written on the bus, and they
        are all `length` bytes exactly if the last event delivered a byte that was answered with a
        NACK. A read of length 0 returns nothing and ends with a failure only, if not with `overrun`:
        a byte that the source would store behind its buffer. */
    method ReadFrom(address: Byte, length: Byte, stopAfter: bool, ghost device: Device, events: seq<Event>)
        returns (data: seq<Byte>, used: nat, overrun: bool)
      requires AtRest()
      requires length <= TWI_BUFFER_LENGTH ==> Consistent(BeginRead(View(), address, length, stopAfter), bus, device, events)
      modifies this, masterBuffer
      ensures Valid() && used <= |events|
      ensures overrun ==> length == 0 && used < |events| && events[used].MrDataAck? && masterBufferIndex == TWI_BUFFER_LENGTH
      ensures length > TWI_BUFFER_LENGTH ==> data == [] && used == 0 && View() == old(View()) && bus == old(bus)
      ensures 0 < length <= TWI_BUFFER_LENGTH && state != Ready ==>
        used == |events| <= length + 1 && Reading(View(), bus, device, address % 128, old(bus).written, length, stopAfter)
      ensures 0 < length <= TWI_BUFFER_LENGTH && state == Ready ==>
        && 0 < used <= length + 2
        && ReadEnded(View(), bus, device, address % 128, old(bus).written, length, stopAfter, events[used - 1])
        && |data| <= length && (|data| == length <==> events[used - 1].MrDataNack?)
        && forall k: nat | k < |data| :: data[k] == device(address % 128, old(bus).written, k)
      ensures length == 0 ==> data == []
      ensures length == 0 && state == Ready ==> 0 < used && IsFailure(events[used - 1]) && AtRest() && !inRepStart
      ensures length == 0 && state != Ready ==> ReadingNothing(View(), bus) && (overrun || used == |events|)
    {
      hide OnEvent, BusAfter, BeginRead, Possible;
      data, used, overrun := [], 0, false;
      if TWI_BUFFER_LENGTH < length {
        return;
      }
      RequestRead(address, length, stopAfter);
      if length == 0 {
        BeginNothing(old(View()), bus, address, stopAfter);
        used, overrun := AwaitNothing(device, events);
      } else {
        BeginReadReads(old(View()), bus, device, address, length, stopAfter);
        used := AwaitRead(device, address % 128, bus.written, length, stopAfter, events);
      }
      if state == Ready {
        data := masterBuffer[..if masterBufferIndex < length then masterBufferIndex else length];
      }
    }

    /** The interrupts until a read has ended, or until there are no more. */
    method AwaitRead(ghost device: Device, ghost who: nat, ghost command: Message, ghost length: nat, ghost stopAfter: bool, events: seq<Event>)
        returns (used: nat)
      requires Valid() && Reading(View(), bus, device, who, command, length, stopAfter) && Consistent(View(), bus, device, events)
      modifies this, masterBuffer
      ensures Valid() && used <= |events|
      ensures used + (if state == Ready then 0 else 1) <= old(ReadRank(View(), bus, length))
      ensures state != Ready ==> used == |events| && Reading(View(), bus, device, who, command, length, stopAfter)
      ensures state == Ready ==> 0 < used && ReadEnded(View(), bus, device, who, command, length, stopAfter, events[used - 1])
    {
      hide OnEvent, BusAfter, Possible;
      used := 0;
      while state == Mrx && used < |events|
        invariant Valid() && used <= |events|
        invariant state == Mrx || state == Ready
        invariant state == Mrx ==>
          && Reading(View(), bus, device, who, command, length, stopAfter)
          && Consistent(View(), bus, device, events[used..])
          && used + ReadRank(View(), bus, length) <= old(ReadRank(View(), bus, length))
        invariant state == Ready ==>
          0 < used <= old(ReadRank(View(), bus, length)) && ReadEnded(View(), bus, device, who, command, length, stopAfter, events[used - 1])
      {
        ReadKeeps(View(), bus, device, who, command, length, stopAfter, events[used]);
        Isr(events[used]);
        assert events[used..][1..] == events[used + 1..];
        used := used + 1;
      }
    }

    /** The same for length 0, up to the byte that does not fit into the buffer. */
    method AwaitNothing(ghost device: Device, events: seq<Event>) returns (used: nat, overrun: bool)
      requires Valid() && ReadingNothing(View(), bus) && Consistent(View(), bus, device, events)
      modifies this, masterBuffer
      ensures Valid() && used <= |events|
      ensures overrun ==> used < |events| && events[used].MrDataAck? && masterBufferIndex == TWI_BUFFER_LENGTH
      ensures state == Ready ==> 0 < used && IsFailure(events[used - 1]) && AtRest() && !inRepStart && !overrun
      ensures state != Ready ==> ReadingNothing(View(), bus) && (overrun || used == |events|)
    {
      hide OnEvent, BusAfter, Possible;
      used, overrun := 0, false;
      while state == Mrx && used < |events|
        invariant Valid() && used <= |events|
        invariant state == Mrx || state == Ready
        invariant state == Mrx ==> ReadingNothing(View(), bus) && Consistent(View(), bus, device, events[used..])
        invariant state == Ready ==> 0 < used && IsFailure(events[used - 1]) && AtRest() && !inRepStart
        decreases |events| - used
      {
        ReadingNothingKeeps(View(), bus, device, events[used]);
        if events[used].MrDataAck? && masterBufferIndex >= TWI_BUFFER_LENGTH {
          overrun := true;
          return;
        }
        Isr(events[used]);
        assert events[used..][1..] == events[used + 1..];
        used := used + 1;
      }
    }

    /** The interrupts until a write has ended, or until there are no more. */
    method AwaitWrite(ghost who: nat, data: seq<Byte>, stopAfter: bool, ghost device: Device, events: seq<Event>) returns (used: nat)
      requires Valid() && Writing(View(), bus, who, data, stopAfter) && Consistent(View(), bus, device, events)
      modifies this, masterBuffer
      ensures Valid() && used <= |events|
      ensures used + (if state == Ready then 0 else 1) <= old(WriteRank(View(), bus))
      ensures state != Ready ==> used == |events| && Writing(View(), bus, who, data, stopAfter)
      ensures state == Ready ==> 0 < used && WriteEnded(View(), bus, who, data, stopAfter, events[used - 1])
    {
      hide OnEvent, BusAfter, Possible;
      used := 0;
      while state == Mtx && used < |events|
        invariant Valid() && used <= |events|
        invariant state == Mtx || state == Ready
        invariant state == Mtx ==>
          && Writing(View(), bus, who, data, stopAfter)
          && Consistent(View(), bus, device, events[used..])
          && used + WriteRank(View(), bus) <= old(WriteRank(View(), bus))
        invariant state == Ready ==>
          0 < used <= old(WriteRank(View(), bus)) && WriteEnded(View(), bus, who, data, stopAfter, events[used - 1])
      {
        WriteKeeps(View(), bus, device, who, data, stopAfter, events[used]);
        Isr(events[used]);
        assert events[used..][1..] == events[used + 1..];
        used := used + 1;
      }
    }

    /** Writes `data`; code 0 means success, 1 too long, 2 and 3 a NACK for the address or a byte,
        4 any other error. A call that does not wait reports success at once. */
    method WriteTo(address: Byte, data: seq<Byte>, wait: bool, stopAfter: bool, ghost device: Device, events: seq<Event>)
        returns (code: nat, used: nat)
      requires AtRest()
      requires |data| <= TWI_BUFFER_LENGTH ==> Consistent(BeginWrite(View(), address, data, stopAfter), bus, device, events)
      modifies this, masterBuffer
      ensures Valid() && used <= |events|
      ensures code == 1 <==> |data| > TWI_BUFFER_LENGTH
      ensures code == 1 ==> used == 0 && View() == old(View()) && bus == old(bus)
      ensures code != 1 && !wait ==> code == 0 && used == 0 && Writing(View(), bus, address % 128, data, stopAfter)
      ensures code != 1 && wait && state != Ready ==>
        code == 0 && used == |events| <= |data| + 1 && Writing(View(), bus, address % 128, data, stopAfter)
      ensures code != 1 && wait && state == Ready ==>
        && 0 < used <= |data| + 2
        && WriteEnded(View(), bus, address % 128, data, stopAfter, events[used - 1])
        && (code == 0 <==> !IsFailure(events[used - 1]))
        && (code == 2 <==> events[used - 1].MtSlaNack?)
        && (code == 3 <==> events[used - 1].MtDataNack?)
    {
      hide OnEvent, BusAfter, BeginWrite, Possible;
      used := 0;
      if TWI_BUFFER_LENGTH < |data| {
        code := 1;
        return;
      }
      RequestWrite(address, data, stopAfter);
      BeginWriteWrites(old(View()), bus, address, data, stopAfter);
      if wait {
        used := AwaitWrite(address % 128, data, stopAfter, device, events);
      }
      code := if error == NO_ERROR then 0
              else if error == TW_MT_SLA_NACK then 2
              else if error == TW_MT_DATA_NACK then 3
              else 4;
    }
  }

  /** The driver's typical use: name a register without a stop, then read with a stop. It succeeds
      exactly if the write ended with the device's acknowledgement of the register and the read
      with the NACK for the last byte, so always if no event is a failure; then the bytes are all
      the device gives for that register. In any case the driver is at rest afterwards and no
      repeated start is pending. The counts tell how many events of each list were taken. */
  method ReadRegister(driver: Driver, address: Byte, register: Byte, length: Byte, ghost device: Device,
                      writeEvents: seq<Event>, readEvents: seq<Event>)
      returns (data: seq<Byte>, ok: bool, usedWrite: nat, usedRead: nat)
    requires driver.AtRest() && 1 <= length <= TWI_BUFFER_LENGTH
    requires Consistent(BeginWrite(driver.View(), address, [register], false), driver.bus, device, writeEvents)
    requires |writeEvents| >= 3 && |readEvents| >= length + 2
    requires forall t: Twi, bus: Bus |
               Settled(t, bus) && bus.written == Message(address % 128, [register]) && t.inRepStart ::
               Consistent(BeginRead(t, address, length, true), bus, device, readEvents)
    modifies driver, driver.masterBuffer
    ensures driver.AtRest() && !driver.inRepStart
    ensures 0 < usedWrite <= 3 && usedRead <= length + 2
    ensures writeEvents[usedWrite - 1].MtDataAck? || IsFailure(writeEvents[usedWrite - 1])
    ensures if writeEvents[usedWrite - 1].MtDataAck? then
              && 0 < usedRead
              && ReadEnded(driver.View(), driver.bus, device, address % 128, Message(address % 128, [register]), length, true, readEvents[usedRead - 1])
            else usedRead == 0 && WriteEnded(driver.View(), driver.bus, address % 128, [register], false, writeEvents[usedWrite - 1])
    ensures ok <==> writeEvents[usedWrite - 1].MtDataAck? && 0 < usedRead && readEvents[usedRead - 1].MrDataNack?
    ensures ok <==> |data| == length
    ensures |data| <= length && forall k: nat | k < |data| :: data[k] == device(address % 128, Message(address % 128, [register]), k)
    ensures (forall e | e in writeEvents || e in readEvents :: !IsFailure(e)) ==> ok
  {
    hide Consistent;
    data, ok, usedRead := [], false, 0;
    var code;
    code, usedWrite := driver.WriteTo(address, [register], true, false, device, writeEvents);
    assert writeEvents[usedWrite - 1] in writeEvents;
    if code != 0 {
      return;
    }
    var overrun;
    data, usedRead, overrun := driver.ReadFrom(address, length, true, device, readEvents);
    assert readEvents[usedRead - 1] in readEvents;
    ok := |data| == length;
  }
}
