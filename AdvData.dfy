/** The advertising payload populate_adv_data builds: one AD structure of
    type 0x07, "Complete List of 128-bit Service UUIDs" (Bluetooth Core
    Specification Supplement Part A section 1.1). An AD structure is a
    length byte counting the type byte and the data, then the type byte,
    then the data. */
module AdvData {
  import opened Gatt

  const AdTypeComplete128: byte := 0x07

  /** The largest length byte. */
  const MaxAdLength: nat := 0xFF

  /** The UUIDs' value bytes back to back, in order. */
  function Flatten(uuids: seq<UuidBytes>): (bytes: seq<byte>)
    ensures |bytes| == 16 * |uuids|
  {
    if uuids == [] then []
    else Flatten(uuids[..|uuids| - 1]) + uuids[|uuids| - 1]
  }

  /** Byte j of the k-th UUID sits at offset 16k + j. */
  lemma {:induction false} FlattenAt(uuids: seq<UuidBytes>, k: nat, j: nat)
    requires k < |uuids| && j < 16
    ensures Flatten(uuids)[16 * k + j] == uuids[k][j]
    decreases |uuids|
  {
    var n := |uuids| - 1;
    if k < n {
      FlattenAt(uuids[..n], k, j);
      assert uuids[..n][k] == uuids[k];
    }
  }

  /** The length byte as written: 1 + 16n, clamped to 0xFF. */
  function LengthByte(n: nat): byte {
    if 1 + 16 * n > MaxAdLength then MaxAdLength else 1 + 16 * n
  }

  /** The adv_data bytes for n >= 1 services: the clamped length byte, the
      type byte, then every service's 16 UUID bytes in service order. */
  function Payload(uuids: seq<UuidBytes>): (ad: seq<byte>)
    requires |uuids| >= 1
    ensures |ad| == 2 + 16 * |uuids|
    ensures ad[1] == AdTypeComplete128
    ensures 1 + 16 * |uuids| <= MaxAdLength ==> ad[0] == 1 + 16 * |uuids|
    ensures 1 + 16 * |uuids| > MaxAdLength ==> ad[0] == MaxAdLength
    ensures ad[2..] == Flatten(uuids)
  {
    [LengthByte(|uuids|), AdTypeComplete128] + Flatten(uuids)
  }

  /** How a receiver reads a Complete List of 128-bit Service UUIDs that
      fills the whole buffer: the length byte must cover exactly the rest of
      the buffer, and the data must be whole UUIDs. */
  function DecodeUuidList(ad: seq<byte>): Option<seq<UuidBytes>> {
    if |ad| < 2 || ad[1] != AdTypeComplete128 || ad[0] != |ad| - 1 || (|ad| - 2) % 16 != 0 then None
    else
      var n := (|ad| - 2) / 16;
      Some(seq(n, k requires 0 <= k < n => ad[2 + 16 * k..2 + 16 * k + 16]))
  }

  /** Up to 15 services the payload decodes back to the services' UUIDs,
      in service order. */
  lemma {:induction false} PayloadRoundTrip(uuids: seq<UuidBytes>)
    requires 1 <= |uuids| <= 15
    ensures DecodeUuidList(Payload(uuids)) == Some(uuids)
  {
    var ad := Payload(uuids);
    assert (|ad| - 2) / 16 == |uuids|;
    forall k | 0 <= k < |uuids|
      ensures ad[2 + 16 * k..2 + 16 * k + 16] == uuids[k]
    {
      forall j | 0 <= j < 16
        ensures ad[2 + 16 * k + j] == uuids[k][j]
      {
        FlattenAt(uuids, k, j);
        assert ad[2 + 16 * k + j] == ad[2..][16 * k + j];
      }
    }
    var decoded := seq(|uuids|, k requires 0 <= k < |uuids| => ad[2 + 16 * k..2 + 16 * k + 16]);
    assert decoded == uuids;
  }

  /** From 16 services on, the clamped length byte no longer covers the
      appended UUIDs, so the payload does not decode. */
  lemma SaturatedPayloadIsMalformed(uuids: seq<UuidBytes>)
    requires |uuids| >= 16
    ensures Payload(uuids)[0] == MaxAdLength
    ensures |Payload(uuids)| > MaxAdLength + 1
    ensures DecodeUuidList(Payload(uuids)) == None
  {
  }

  /** The payload with the list cut to the UUIDs one AD structure can hold:
      the first min(n, 15), with a length byte that covers them exactly. */
  function BoundedPayload(uuids: seq<UuidBytes>): (ad: seq<byte>)
    requires |uuids| >= 1
    ensures |uuids| <= 15 ==> ad == Payload(uuids)
    ensures |ad| <= MaxAdLength + 1
  {
    var kept := if |uuids| <= 15 then uuids else uuids[..15];
    Payload(kept)
  }

  /** The bounded payload always decodes, to the UUIDs it kept. */
  lemma BoundedPayloadRoundTrip(uuids: seq<UuidBytes>)
    requires |uuids| >= 1
    ensures DecodeUuidList(BoundedPayload(uuids)) == Some(if |uuids| <= 15 then uuids else uuids[..15])
  {
    PayloadRoundTrip(if |uuids| <= 15 then uuids else uuids[..15]);
  }
}
