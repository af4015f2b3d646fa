/** What a characteristic's handle_access does with one access, as a
    function of its inputs. The transport is abstract: `appendOk` is whether
    os_mbuf_append accepted the response, `flattenOk` whether
    ble_hs_mbuf_to_flat copied the written packet, and `payload` the packet
    bytes (OS_MBUF_PKTLEN is their count). */
module AccessSpec {
  import opened Gatt

  /** The result of one access: the status code returned to the host, the
      bytes passed to os_mbuf_append (appended only when `appendOk`), and
      the string passed to the write callback if it was called. */
  datatype AccessOutcome = AccessOutcome(rc: int, sent: seq<byte>, forwarded: Option<seq<byte>>)

  /** std::string(buffer) over the NUL-terminated copy of the packet: the
      bytes before the packet's first 0 byte. */
  function ReceivedValue(payload: seq<byte>): (value: seq<byte>)
    ensures value <= payload
    ensures forall i | 0 <= i < |value| :: value[i] != 0
    ensures |value| < |payload| ==> payload[|value|] == 0
  {
    if payload == [] || payload[0] == 0 then []
    else [payload[0]] + ReceivedValue(payload[1..])
  }

  /** A packet without 0 bytes is received whole. */
  lemma ReceivedWhole(payload: seq<byte>)
    requires forall i | 0 <= i < |payload| :: payload[i] != 0
    ensures ReceivedValue(payload) == payload
  {
  }

  /** A packet whose first 0 byte is at index k is received as its first k bytes. */
  lemma ReceivedUpToFirstNul(payload: seq<byte>, k: nat)
    requires k < |payload| && payload[k] == 0
    requires forall i | 0 <= i < k :: payload[i] != 0
    ensures ReceivedValue(payload) == payload[..k]
  {
  }

  /** Whether a write packet reaches the string-building step at all. */
  predicate Received(payload: seq<byte>, flattenOk: bool) {
    |payload| > 0 && flattenOk
  }

  /** handle_access of src/CustomBLE/Characteristic.cpp. `readResult` is what
      the read callback returns, None when none is bound. */
  function CallbackAccess(op: byte, payload: seq<byte>, appendOk: bool, flattenOk: bool,
                          readResult: Option<seq<byte>>, hasWriteCallback: bool): (o: AccessOutcome)
    ensures op == OpReadChr ==> o.forwarded.None?
    ensures op == OpReadChr ==> (o.rc == 0 <==> appendOk)
    ensures op == OpReadChr && !appendOk ==> o.rc == ErrInsufficientRes
    ensures op == OpReadChr && readResult.None? ==> o.sent == []
    ensures op == OpReadChr && readResult.Some? ==> o.sent == readResult.value
    ensures op == OpWriteChr ==> o.rc == 0 && o.sent == []
    ensures op == OpWriteChr ==>
      (o.forwarded.Some? <==> Received(payload, flattenOk) && hasWriteCallback)
    ensures o.forwarded.Some? ==> o.forwarded.value == ReceivedValue(payload)
    ensures op != OpReadChr && op != OpWriteChr ==> o == AccessOutcome(ErrUnlikely, [], None)
  {
    if op == OpReadChr then
      var value := readResult.GetOr([]);
      AccessOutcome(if appendOk then 0 else ErrInsufficientRes, value, None)
    else if op == OpWriteChr then
      var forwarded := if Received(payload, flattenOk) && hasWriteCallback
                       then Some(ReceivedValue(payload)) else None;
      AccessOutcome(0, [], forwarded)
    else
      AccessOutcome(ErrUnlikely, [], None)
  }

  /** The outcome and the new default_value of one access in the variants
      that keep a default value. */
  datatype ValueStep = ValueStep(outcome: AccessOutcome, defaultValue: seq<byte>)

  /** handle_access of src/Characteristic.cpp and src/CustomBLECharacteristic.cpp. */
  function DefaultValueAccess(op: byte, payload: seq<byte>, appendOk: bool, flattenOk: bool,
                              readResult: Option<seq<byte>>, hasWriteCallback: bool,
                              defaultValue: seq<byte>): (s: ValueStep)
    ensures op == OpReadChr ==> s.outcome.forwarded.None? && s.defaultValue == defaultValue
    ensures op == OpReadChr ==> (s.outcome.rc == 0 <==> appendOk)
    ensures op == OpReadChr && !appendOk ==> s.outcome.rc == ErrInsufficientRes
    ensures op == OpReadChr && readResult.None? ==> s.outcome.sent == defaultValue
    ensures op == OpReadChr && readResult.Some? ==> s.outcome.sent == readResult.value
    ensures op == OpWriteChr ==> s.outcome.rc == 0 && s.outcome.sent == []
    ensures op == OpWriteChr ==>
      (s.outcome.forwarded.Some? <==> Received(payload, flattenOk) && hasWriteCallback)
    ensures s.outcome.forwarded.Some? ==> s.outcome.forwarded.value == ReceivedValue(payload)
    ensures s.defaultValue != defaultValue ==>
      op == OpWriteChr && Received(payload, flattenOk) && !hasWriteCallback
    ensures op == OpWriteChr && Received(payload, flattenOk) && !hasWriteCallback ==>
      s.defaultValue == ReceivedValue(payload)
    ensures op != OpReadChr && op != OpWriteChr ==>
      s == ValueStep(AccessOutcome(ErrUnlikely, [], None), defaultValue)
  {
    if op == OpReadChr then
      var value := readResult.GetOr(defaultValue);
      ValueStep(AccessOutcome(if appendOk then 0 else ErrInsufficientRes, value, None), defaultValue)
    else if op == OpWriteChr then
      if Received(payload, flattenOk) then
        if hasWriteCallback then
          ValueStep(AccessOutcome(0, [], Some(ReceivedValue(payload))), defaultValue)
        else
          ValueStep(AccessOutcome(0, [], None), ReceivedValue(payload))
      else
        ValueStep(AccessOutcome(0, [], None), defaultValue)
    else
      ValueStep(AccessOutcome(ErrUnlikely, [], None), defaultValue)
  }

  /** Round trip through a characteristic without callbacks: after a
      successful write of a string without 0 bytes, a read returns it. */
  lemma {:induction false} DefaultValueRoundTrip(value: seq<byte>, previous: seq<byte>)
    requires |value| > 0 && forall i | 0 <= i < |value| :: value[i] != 0
    ensures var written := DefaultValueAccess(OpWriteChr, value, true, true, None, false, previous);
            var read := DefaultValueAccess(OpReadChr, [], true, true, None, false, written.defaultValue);
            read.outcome == AccessOutcome(0, value, None)
  {
    ReceivedWhole(value);
  }

  /** The two families agree wherever the default value plays no part: on
      writes with a write callback, on reads with a read callback, and on
      unknown operations; the default-value family additionally stores
      writes made without a callback. */
  lemma FamiliesAgree(op: byte, payload: seq<byte>, appendOk: bool, flattenOk: bool,
                      readResult: Option<seq<byte>>, hasWriteCallback: bool, defaultValue: seq<byte>)
    requires op == OpReadChr ==> readResult.Some?
    requires op == OpWriteChr ==> hasWriteCallback
    ensures DefaultValueAccess(op, payload, appendOk, flattenOk, readResult, hasWriteCallback, defaultValue).outcome
         == CallbackAccess(op, payload, appendOk, flattenOk, readResult, hasWriteCallback)
  {
  }

  /** The packet 01 00 00 00 (the 32-bit value 1, little-endian) is
      received as the single byte 01: a binary value with a 0 byte does not
      reach the write callback whole. */
  lemma BinaryValueWithZeroByteIsCut()
    ensures ReceivedValue([1, 0, 0, 0]) == [1]
    ensures CallbackAccess(OpWriteChr, [1, 0, 0, 0], true, true, None, true).forwarded == Some([1])
  {
    assert ReceivedValue([0, 0, 0]) == [];
    assert [1, 0, 0, 0][1..] == [0, 0, 0];
  }

  /** handle_access of the default-value variants with the received string
      built from all of the packet's bytes (std::string(buffer, om_len))
      instead of from the NUL-terminated buffer. */
  function WholeValueAccess(op: byte, payload: seq<byte>, appendOk: bool, flattenOk: bool,
                            readResult: Option<seq<byte>>, hasWriteCallback: bool,
                            defaultValue: seq<byte>): (s: ValueStep)
    ensures op == OpWriteChr && Received(payload, flattenOk) && hasWriteCallback ==>
      s.outcome == AccessOutcome(0, [], Some(payload)) && s.defaultValue == defaultValue
    ensures op == OpWriteChr && Received(payload, flattenOk) && !hasWriteCallback ==>
      s.outcome == AccessOutcome(0, [], None) && s.defaultValue == payload
    ensures !(op == OpWriteChr && Received(payload, flattenOk)) ==>
      s == DefaultValueAccess(op, payload, appendOk, flattenOk, readResult, hasWriteCallback, defaultValue)
  {
    if op == OpWriteChr && Received(payload, flattenOk) then
      if hasWriteCallback then ValueStep(AccessOutcome(0, [], Some(payload)), defaultValue)
      else ValueStep(AccessOutcome(0, [], None), payload)
    else
      DefaultValueAccess(op, payload, appendOk, flattenOk, readResult, hasWriteCallback, defaultValue)
  }

  /** The corrected access differs from the written one only on packets
      that contain a 0 byte: text values behave exactly as before. */
  lemma {:induction false} WholeValueAgreesOnText(op: byte, payload: seq<byte>, appendOk: bool, flattenOk: bool,
                                                  readResult: Option<seq<byte>>, hasWriteCallback: bool,
                                                  defaultValue: seq<byte>)
    requires forall i | 0 <= i < |payload| :: payload[i] != 0
    ensures WholeValueAccess(op, payload, appendOk, flattenOk, readResult, hasWriteCallback, defaultValue)
         == DefaultValueAccess(op, payload, appendOk, flattenOk, readResult, hasWriteCallback, defaultValue)
  {
    ReceivedWhole(payload);
  }

  /** With the corrected access every non-empty sizeof(T)-byte packet reaches
      the write callback with exactly sizeof(T) bytes, so a pointer write
      callback stores any T, 0 bytes included. */
  lemma WholeValueForwardsEveryObject(width: nat, payload: seq<byte>)
    requires |payload| == width > 0
    ensures var s := WholeValueAccess(OpWriteChr, payload, true, true, None, true, []);
            s.outcome.forwarded == Some(payload) && |s.outcome.forwarded.value| == width
  {
  }
}
