/** CustomBLE::Characteristic as implemented in src/Characteristic.cpp, with
    the static factories of include/CustomBLE/Characteristic.hpp: a
    characteristic that keeps a default value, answers reads from it when no
    read callback is bound and stores writes in it when no write callback is
    bound. */
module ValueCharacteristic {
  import opened Gatt
  import opened CapabilityFlags
  import opened Callbacks
  import opened AccessSpec
  import UuidText

  class Characteristic {
    const uuid: UuidBytes
    var handle: uint16
    var readCallback: Option<ReadCallback>
    var writeCallback: Option<WriteCallback>
    var defaultValue: seq<byte>
    var flags: ChrFlags

    /** The flags advertise every bound callback, and only the construction
        rule and the setters have touched them. */
    ghost predicate Valid()
      reads this
    {
      && WellFormed(flags)
      && (readCallback.Some? ==> Read in flags)
      && (writeCallback.Some? ==> Write in flags)
    }

    /** The constructor: handle 0, default value the initial value, flags
        built bit by bit from the callbacks given. */
    constructor (uuid: UuidBytes, initialValue: seq<byte>,
                 readCb: Option<ReadCallback>, writeCb: Option<WriteCallback>)
      ensures Valid()
      ensures this.uuid == uuid && handle == 0 && defaultValue == initialValue
      ensures readCallback == readCb && writeCallback == writeCb
      ensures flags == InitialFlags(readCb.Some?, writeCb.Some?)
    {
      this.uuid := uuid;
      handle := 0;
      readCallback := readCb;
      writeCallback := writeCb;
      defaultValue := initialValue;
      var f: ChrFlags := {};
      if readCb.Some? {
        f := f + {Read};
      }
      if writeCb.Some? {
        f := f + {Write};
      }
      if Read in f {
        f := f + {Notify};
      }
      flags := f;
    }

    /** The move construction behind Service::add_characteristic(Characteristic&&):
        a new object with the same state. */
    constructor Moved(from: Characteristic)
      requires from.Valid()
      ensures Valid()
      ensures uuid == from.uuid && handle == from.handle && defaultValue == from.defaultValue
      ensures readCallback == from.readCallback && writeCallback == from.writeCallback
      ensures flags == from.flags
    {
      uuid := from.uuid;
      handle := from.handle;
      readCallback := from.readCallback;
      writeCallback := from.writeCallback;
      defaultValue := from.defaultValue;
      flags := from.flags;
    }

    function ReadFootprint(): set<object>
      reads this
    {
      if readCallback.Some? then readCallback.value.Footprint() else {}
    }

    function WriteFootprint(): set<object>
      reads this
    {
      if writeCallback.Some? then writeCallback.value.Footprint() else {}
    }

    /** What the bound read callback returns now; None when none is bound. */
    function ReadResult(): Option<seq<byte>>
      reads this, ReadFootprint()
    {
      if readCallback.Some? then Some(readCallback.value.Invoke()) else None
    }

    /** handle_access: serves one read or write of the characteristic value.
        Besides the write callback's state only default_value can change. */
    method HandleAccess(op: byte, payload: seq<byte>, appendOk: bool, flattenOk: bool)
      returns (outcome: AccessOutcome)
      modifies this, WriteFootprint()
      ensures var step := DefaultValueAccess(op, payload, appendOk, flattenOk, old(ReadResult()),
                                             old(writeCallback).Some?, old(defaultValue));
              outcome == step.outcome && defaultValue == step.defaultValue
      ensures handle == old(handle) && flags == old(flags)
      ensures readCallback == old(readCallback) && writeCallback == old(writeCallback)
      ensures outcome.forwarded.Some? ==> WriteApplied(writeCallback.value, outcome.forwarded.value)
      ensures outcome.forwarded.None? ==> unchanged(WriteFootprint())
    {
      if op == OpReadChr {
        var value: seq<byte>;
        if readCallback.Some? {
          value := readCallback.value.Invoke();
        } else {
          value := defaultValue;
        }
        outcome := AccessOutcome(if appendOk then 0 else ErrInsufficientRes, value, None);
      } else if op == OpWriteChr {
        outcome := AccessOutcome(0, [], None);
        if |payload| > 0 && flattenOk {
          var received := ReceivedValue(payload);
          if writeCallback.Some? {
            CallWrite(writeCallback.value, received);
            outcome := AccessOutcome(0, [], Some(received));
          } else {
            defaultValue := received;
          }
        }
      } else {
        outcome := AccessOutcome(ErrUnlikely, [], None);
      }
    }

    /** set_handle */
    method SetHandle(h: uint16)
      modifies this
      ensures handle == h
      ensures flags == old(flags) && defaultValue == old(defaultValue)
      ensures readCallback == old(readCallback) && writeCallback == old(writeCallback)
    {
      handle := h;
    }

    /** get_handle: 0 until set_handle is called, then the last handle set. */
    method GetHandle() returns (h: uint16)
      ensures h == handle
    {
      h := handle;
    }

    /** set_read_callback: replaces the read callback and widens the flags. */
    method SetReadCallback(cb: Option<ReadCallback>)
      requires Valid()
      modifies this
      ensures Valid()
      ensures readCallback == cb && flags == WidenForRead(old(flags), cb.Some?)
      ensures handle == old(handle) && writeCallback == old(writeCallback) && defaultValue == old(defaultValue)
    {
      readCallback := cb;
      if cb.Some? && Read !in flags {
        flags := flags + {Read, Notify};
      }
    }

    /** set_write_callback: replaces the write callback and widens the flags. */
    method SetWriteCallback(cb: Option<WriteCallback>)
      requires Valid()
      modifies this
      ensures Valid()
      ensures writeCallback == cb && flags == WidenForWrite(old(flags), cb.Some?)
      ensures handle == old(handle) && readCallback == old(readCallback) && defaultValue == old(defaultValue)
    {
      writeCallback := cb;
      if cb.Some? && Write !in flags {
        flags := flags + {Write};
      }
    }

    /** overview(): the UUID bytes in order, then the default value. */
    function Overview(): (text: string)
      reads this
    {
      "Characteristic UUID: " + UuidText.FormatUuid(uuid, UuidText.StraightOrder)
        + "\nValue: " + UuidText.Chars(defaultValue) + "\n"
    }

    /** The overview names this characteristic and shows its default value:
        36 characters after the prefix read back as the UUID, and the
        characters after "\nValue: " are the default value's bytes. */
    lemma OverviewShowsUuidAndValue()
      ensures |Overview()| == 66 + |defaultValue|
      ensures Overview()[..21] == "Characteristic UUID: "
      ensures UuidText.ParseUuid(Overview()[21..57], UuidText.StraightOrder) == Some(uuid)
      ensures Overview()[57..65] == "\nValue: "
      ensures Overview()[65..65 + |defaultValue|] == UuidText.Chars(defaultValue)
    {
      UuidText.OrdersAreSelfInverse();
      UuidText.UuidTextRoundTrip(uuid, UuidText.StraightOrder);
      var u := UuidText.FormatUuid(uuid, UuidText.StraightOrder);
      var v := UuidText.Chars(defaultValue);
      assert Overview() == "Characteristic UUID: " + u + "\nValue: " + v + "\n";
      assert Overview()[21..57] == u;
      assert Overview()[65..65 + |defaultValue|] == v;
    }
  }

  /** from_pointer_read_only: a pointer read callback, no write callback,
      empty default value. */
  method FromPointerReadOnly(uuid: UuidBytes, cell: ValueCell) returns (c: Characteristic)
    ensures fresh(c) && c.Valid()
    ensures c.uuid == uuid && c.handle == 0 && c.defaultValue == []
    ensures c.readCallback == Some(MakePointerReadCallback(cell)) && c.writeCallback == None
    ensures c.flags == {Read, Notify}
  {
    c := new Characteristic(uuid, [], Some(MakePointerReadCallback(cell)), None);
  }

  /** from_pointer_read_write: pointer read and write callbacks over the same object. */
  method FromPointerReadWrite(uuid: UuidBytes, cell: ValueCell) returns (c: Characteristic)
    ensures fresh(c) && c.Valid()
    ensures c.uuid == uuid && c.handle == 0 && c.defaultValue == []
    ensures c.readCallback == Some(MakePointerReadCallback(cell))
    ensures c.writeCallback == Some(MakePointerWriteCallback(cell))
    ensures c.flags == {Read, Write, Notify}
  {
    c := new Characteristic(uuid, [], Some(MakePointerReadCallback(cell)), Some(MakePointerWriteCallback(cell)));
  }

  /** from_pointer_write_only: a pointer write callback, no read callback. */
  method FromPointerWriteOnly(uuid: UuidBytes, cell: ValueCell) returns (c: Characteristic)
    ensures fresh(c) && c.Valid()
    ensures c.uuid == uuid && c.handle == 0 && c.defaultValue == []
    ensures c.readCallback == None && c.writeCallback == Some(MakePointerWriteCallback(cell))
    ensures c.flags == {Write}
  {
    c := new Characteristic(uuid, [], None, Some(MakePointerWriteCallback(cell)));
  }

  /** from_fixed_value: reads return the captured value, which is also the
      default value; no write capability. */
  method FromFixedValue(uuid: UuidBytes, value: seq<byte>) returns (c: Characteristic)
    ensures fresh(c) && c.Valid()
    ensures c.uuid == uuid && c.handle == 0 && c.defaultValue == value
    ensures c.readCallback.Some? && c.readCallback.value.Footprint() == {}
    ensures c.ReadResult() == Some(value)
    ensures c.writeCallback == None && c.flags == {Read, Notify}
  {
    c := new Characteristic(uuid, value, Some(FixedRead(value)), None);
  }

  /** A characteristic without callbacks stores what a client writes and
      serves it back: after writing a non-empty value without 0 bytes,
      a read answers exactly that value. */
  method WriteThenRead(c: Characteristic, value: seq<byte>) returns (read: AccessOutcome)
    requires c.readCallback.None? && c.writeCallback.None?
    requires |value| > 0 && forall i | 0 <= i < |value| :: value[i] != 0
    modifies c
    ensures c.defaultValue == value
    ensures read == AccessOutcome(0, value, None)
  {
    var written := c.HandleAccess(OpWriteChr, value, true, true);
    ReceivedWhole(value);
    read := c.HandleAccess(OpReadChr, [], true, true);
  }

  /** A sizeof(T) object written through handle_access of a
      from_pointer_read_write characteristic: the object takes the value
      only if the packet's bytes before its first 0 byte have exactly
      sizeof(T) bytes. */
  method PointerWriteThroughAccess(c: Characteristic, cell: ValueCell, payload: seq<byte>)
    requires c.writeCallback == Some(MakePointerWriteCallback(cell)) && cell.Valid()
    modifies c, cell
    ensures cell.Valid()
    ensures |payload| > 0 && |ReceivedValue(payload)| == cell.width ==> cell.bytes == ReceivedValue(payload)
    ensures |payload| == 0 || |ReceivedValue(payload)| != cell.width ==> cell.bytes == old(cell.bytes)
  {
    var outcome := c.HandleAccess(OpWriteChr, payload, true, true);
  }

  /** The 32-bit value 1, stored little-endian as 01 00 00 00, cannot be
      written through handle_access into a uint32_t behind a pointer write
      callback: the packet is cut at its first 0 byte and the one remaining
      byte does not have sizeof(uint32_t) bytes. */
  method Uint32OneIsDropped(c: Characteristic, cell: ValueCell)
    requires c.writeCallback == Some(MakePointerWriteCallback(cell))
    requires cell.Valid() && cell.width == 4 && cell.bytes == [0, 0, 0, 0]
    modifies c, cell
    ensures cell.bytes == [0, 0, 0, 0]
  {
    BinaryValueWithZeroByteIsCut();
    PointerWriteThroughAccess(c, cell, [1, 0, 0, 0]);
  }
}
