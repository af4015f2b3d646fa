/** CustomBLE::Characteristic as implemented in src/CustomBLE/Characteristic.cpp:
    a characteristic that holds no value of its own. A read without a read
    callback answers the empty string and a write without a write callback
    is dropped. It carries the optional name that the characteristics
    manager of src/CustomBLE/CharacteristicsManager.cpp turns into a user
    description descriptor. */
module CallbackCharacteristic {
  import opened Gatt
  import opened CapabilityFlags
  import opened Callbacks
  import opened AccessSpec
  import UuidText

  class Characteristic {
    /** get_name(): a C string, or None for a null pointer. */
    const name: Option<CString>
    const uuid: UuidBytes
    var handle: uint16
    var readCallback: Option<ReadCallback>
    var writeCallback: Option<WriteCallback>
    var flags: ChrFlags

    /** The flags advertise every bound callback, and only the construction
        rule and the setters have touched them. */
    ghost predicate Valid()
      reads this
    {
      && WellFormed(flags)
      && (readCallback.Some? ==> Read in flags)
      && (writeCallback.Some? ==> Write in flags)
    }

    /** The constructor: handle 0, flags built bit by bit from the callbacks given. */
    constructor (name: Option<CString>, uuid: UuidBytes,
                 readCb: Option<ReadCallback>, writeCb: Option<WriteCallback>)
      ensures Valid()
      ensures this.name == name && this.uuid == uuid && handle == 0
      ensures readCallback == readCb && writeCallback == writeCb
      ensures flags == InitialFlags(readCb.Some?, writeCb.Some?)
    {
      this.name := name;
      this.uuid := uuid;
      handle := 0;
      readCallback := readCb;
      writeCallback := writeCb;
      var f: ChrFlags := {};
      if readCb.Some? {
        f := f + {Read};
      }
      if writeCb.Some? {
        f := f + {Write};
      }
      if Read in f {
        f := f + {Notify};
      }
      flags := f;
    }

    function ReadFootprint(): set<object>
      reads this
    {
      if readCallback.Some? then readCallback.value.Footprint() else {}
    }

    function WriteFootprint(): set<object>
      reads this
    {
      if writeCallback.Some? then writeCallback.value.Footprint() else {}
    }

    /** What the bound read callback returns now; None when none is bound. */
    function ReadResult(): Option<seq<byte>>
      reads this, ReadFootprint()
    {
      if readCallback.Some? then Some(readCallback.value.Invoke()) else None
    }

    /** handle_access: serves one read or write of the characteristic value.
        Only the write callback's state can change; the characteristic's own
        fields never do. */
    method HandleAccess(op: byte, payload: seq<byte>, appendOk: bool, flattenOk: bool)
      returns (outcome: AccessOutcome)
      modifies WriteFootprint()
      ensures outcome == CallbackAccess(op, payload, appendOk, flattenOk, old(ReadResult()), writeCallback.Some?)
      ensures outcome.forwarded.Some? ==> WriteApplied(writeCallback.value, outcome.forwarded.value)
      ensures outcome.forwarded.None? ==> unchanged(WriteFootprint())
    {
      if op == OpReadChr {
        var value: seq<byte>;
        if readCallback.Some? {
          value := readCallback.value.Invoke();
        } else {
          value := [];
        }
        outcome := AccessOutcome(if appendOk then 0 else ErrInsufficientRes, value, None);
      } else if op == OpWriteChr {
        outcome := AccessOutcome(0, [], None);
        if |payload| > 0 && flattenOk {
          var received := ReceivedValue(payload);
          if writeCallback.Some? {
            CallWrite(writeCallback.value, received);
            outcome := AccessOutcome(0, [], Some(received));
          }
        }
      } else {
        outcome := AccessOutcome(ErrUnlikely, [], None);
      }
    }

    /** set_handle */
    method SetHandle(h: uint16)
      modifies this
      ensures handle == h
      ensures flags == old(flags) && readCallback == old(readCallback) && writeCallback == old(writeCallback)
    {
      handle := h;
    }

    /** get_handle: 0 until set_handle is called, then the last handle set. */
    method GetHandle() returns (h: uint16)
      ensures h == handle
    {
      h := handle;
    }

    /** set_read_callback: replaces the read callback and widens the flags. */
    method SetReadCallback(cb: Option<ReadCallback>)
      requires Valid()
      modifies this
      ensures Valid()
      ensures readCallback == cb && flags == WidenForRead(old(flags), cb.Some?)
      ensures handle == old(handle) && writeCallback == old(writeCallback)
    {
      readCallback := cb;
      if cb.Some? && Read !in flags {
        flags := flags + {Read, Notify};
      }
    }

    /** set_write_callback: replaces the write callback and widens the flags. */
    method SetWriteCallback(cb: Option<WriteCallback>)
      requires Valid()
      modifies this
      ensures Valid()
      ensures writeCallback == cb && flags == WidenForWrite(old(flags), cb.Some?)
      ensures handle == old(handle) && readCallback == old(readCallback)
    {
      writeCallback := cb;
      if cb.Some? && Write !in flags {
        flags := flags + {Write};
      }
    }

    /** overview(): the UUID with its first three fields byte-swapped. */
    function Overview(): (text: string)
    {
      "Characteristic UUID: " + UuidText.FormatUuid(uuid, UuidText.FieldSwappedOrder) + "\n"
    }

    /** The overview names this characteristic: it is the fixed prefix, 36
        characters that read back as the UUID, and a newline. */
    lemma OverviewNamesUuid()
      ensures |Overview()| == 58
      ensures Overview()[..21] == "Characteristic UUID: " && Overview()[57] == '\n'
      ensures UuidText.ParseUuid(Overview()[21..57], UuidText.FieldSwappedOrder) == Some(uuid)
    {
      UuidText.OrdersAreSelfInverse();
      UuidText.UuidTextRoundTrip(uuid, UuidText.FieldSwappedOrder);
      assert Overview()[21..57] == UuidText.FormatUuid(uuid, UuidText.FieldSwappedOrder);
    }
  }
}
