/** The legacy CustomBLECharacteristic of src/CustomBLECharacteristic.cpp:
    the same default-value behaviour as src/Characteristic.cpp, under its
    older global class name, without the overview and factories. */
module LegacyCharacteristic {
  import opened Gatt
  import opened CapabilityFlags
  import opened Callbacks
  import opened AccessSpec

  class CustomBLECharacteristic {
    const uuid: UuidBytes
    var handle: uint16
    var readCallback: Option<ReadCallback>
    var writeCallback: Option<WriteCallback>
    var defaultValue: seq<byte>
    var flags: ChrFlags

    /** The flags advertise every bound callback, and only the construction
        rule and the setters have touched them. */
    ghost predicate Valid()
      reads this
    {
      && WellFormed(flags)
      && (readCallback.Some? ==> Read in flags)
      && (writeCallback.Some? ==> Write in flags)
    }

    /** The constructor: handle 0, default value the initial value, flags
        built bit by bit from the callbacks given. */
    constructor (uuid: UuidBytes, initialValue: seq<byte>,
                 readCb: Option<ReadCallback>, writeCb: Option<WriteCallback>)
      ensures Valid()
      ensures this.uuid == uuid && handle == 0 && defaultValue == initialValue
      ensures readCallback == readCb && writeCallback == writeCb
      ensures flags == InitialFlags(readCb.Some?, writeCb.Some?)
    {
      this.uuid := uuid;
      handle := 0;
      readCallback := readCb;
      writeCallback := writeCb;
      defaultValue := initialValue;
      var f: ChrFlags := {};
      if readCb.Some? {
        f := f + {Read};
      }
      if writeCb.Some? {
        f := f + {Write};
      }
      if Read in f {
        f := f + {Notify};
      }
      flags := f;
    }

    function ReadFootprint(): set<object>
      reads this
    {
      if readCallback.Some? then readCallback.value.Footprint() else {}
    }

    function WriteFootprint(): set<object>
      reads this
    {
      if writeCallback.Some? then writeCallback.value.Footprint() else {}
    }

    /** What the bound read callback returns now; None when none is bound. */
    function ReadResult(): Option<seq<byte>>
      reads this, ReadFootprint()
    {
      if readCallback.Some? then Some(readCallback.value.Invoke()) else None
    }

    /** handle_access: serves one read or write of the characteristic value.
        Besides the write callback's state only default_value can change. */
    method HandleAccess(op: byte, payload: seq<byte>, appendOk: bool, flattenOk: bool)
      returns (outcome: AccessOutcome)
      modifies this, WriteFootprint()
      ensures var step := DefaultValueAccess(op, payload, appendOk, flattenOk, old(ReadResult()),
                                             old(writeCallback).Some?, old(defaultValue));
              outcome == step.outcome && defaultValue == step.defaultValue
      ensures handle == old(handle) && flags == old(flags)
      ensures readCallback == old(readCallback) && writeCallback == old(writeCallback)
      ensures outcome.forwarded.Some? ==> WriteApplied(writeCallback.value, outcome.forwarded.value)
      ensures outcome.forwarded.None? ==> unchanged(WriteFootprint())
    {
      if op == OpReadChr {
        var value: seq<byte>;
        if readCallback.Some? {
          value := readCallback.value.Invoke();
        } else {
          value := defaultValue;
        }
        outcome := AccessOutcome(if appendOk then 0 else ErrInsufficientRes, value, None);
      } else if op == OpWriteChr {
        outcome := AccessOutcome(0, [], None);
        if |payload| > 0 && flattenOk {
          var received := ReceivedValue(payload);
          if writeCallback.Some? {
            CallWrite(writeCallback.value, received);
            outcome := AccessOutcome(0, [], Some(received));
          } else {
            defaultValue := received;
          }
        }
      } else {
        outcome := AccessOutcome(ErrUnlikely, [], None);
      }
    }

    /** set_handle */
    method SetHandle(h: uint16)
      modifies this
      ensures handle == h
      ensures flags == old(flags) && defaultValue == old(defaultValue)
      ensures readCallback == old(readCallback) && writeCallback == old(writeCallback)
    {
      handle := h;
    }

    /** get_handle: 0 until set_handle is called, then the last handle set. */
    method GetHandle() returns (h: uint16)
      ensures h == handle
    {
      h := handle;
    }

    /** set_read_callback: replaces the read callback and widens the flags. */
    method SetReadCallback(cb: Option<ReadCallback>)
      requires Valid()
      modifies this
      ensures Valid()
      ensures readCallback == cb && flags == WidenForRead(old(flags), cb.Some?)
      ensures handle == old(handle) && writeCallback == old(writeCallback) && defaultValue == old(defaultValue)
    {
      readCallback := cb;
      if cb.Some? && Read !in flags {
        flags := flags + {Read, Notify};
      }
    }

    /** set_write_callback: replaces the write callback and widens the flags. */
    method SetWriteCallback(cb: Option<WriteCallback>)
      requires Valid()
      modifies this
      ensures Valid()
      ensures writeCallback == cb && flags == WidenForWrite(old(flags), cb.Some?)
      ensures handle == old(handle) && readCallback == old(readCallback) && defaultValue == old(defaultValue)
    {
      writeCallback := cb;
      if cb.Some? && Write !in flags {
        flags := flags + {Write};
      }
    }
  }

  /** A value written to a characteristic without a write callback is what
      the next read without a read callback answers, whatever was stored
      before. */
  method WriteThenRead(c: CustomBLECharacteristic, value: seq<byte>) returns (read: AccessOutcome)
    requires c.readCallback.None? && c.writeCallback.None?
    requires |value| > 0 && forall i | 0 <= i < |value| :: value[i] != 0
    modifies c
    ensures c.defaultValue == value
    ensures read == AccessOutcome(0, value, None)
  {
    var written := c.HandleAccess(OpWriteChr, value, true, true);
    ReceivedWhole(value);
    read := c.HandleAccess(OpReadChr, [], true, true);
  }
}
