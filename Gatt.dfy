/** The parts of the NimBLE host interface that the GATT wrappers fill in:
    fixed-width integers, the flag, error, operation and service-type
    constants, and the definition structs ble_gatt_chr_def,
    ble_gatt_dsc_def and ble_gatt_svc_def. A struct that C code
    zero-initialises to end an array is the "end marker" here. */
module Gatt {

  /** uint8_t */
  type byte = x: int | 0 <= x < 0x100

  /** uint16_t */
  type uint16 = x: int | 0 <= x < 0x1_0000

  datatype Option<+T> = None | Some(value: T) {
    function GetOr(default: T): T {
      match this
      case Some(v) => v
      case None => default
    }
  }

  /** The 16 value bytes of a ble_uuid128_t. */
  type UuidBytes = s: seq<byte> | |s| == 16 witness seq(16, _ => 0)

  /** A ble_uuid_t: the wrappers use 16-bit UUIDs (descriptors) and 128-bit ones. */
  datatype Uuid = Uuid16(short: uint16) | Uuid128(bytes: UuidBytes)

  /** The bytes of a NUL-terminated C string, without its terminator. */
  type CString = s: seq<byte> | forall i | 0 <= i < |s| :: s[i] != 0 witness []

  /** One bit of the uint16_t ble_gatt_chr_flags mask; a mask is the set of
      its bits. Bit values: BROADCAST 0x0001, READ 0x0002, WRITE_NO_RSP
      0x0004, WRITE 0x0008, NOTIFY 0x0010, INDICATE 0x0020. */
  datatype ChrFlag = Broadcast | Read | WriteNoRsp | Write | Notify | Indicate

  type ChrFlags = set<ChrFlag>

  // ATT error codes returned from access callbacks.
  const ErrUnlikely: int := 0x0e
  const ErrInsufficientRes: int := 0x11

  // ble_gatt_access_ctxt.op values.
  const OpReadChr: byte := 0
  const OpWriteChr: byte := 1

  // Descriptor attribute flag BLE_ATT_F_READ.
  const AttFlagRead: byte := 0x01

  // ble_gatt_svc_def.type values; 0 ends an array of services.
  const SvcTypeEnd: byte := 0
  const SvcTypePrimary: byte := 1

  /** The C access callbacks the wrappers install in definition structs. */
  datatype AccessFn =
    | GattAccessCallback   // Characteristic::gatt_access_callback, forwarding to arg->handle_access
    | UserDescriptionRead  // the descriptor lambda appending the name held in arg

  /** ble_gatt_dsc_def. `arg` holds the C string the descriptor callback reads. */
  datatype DscDef = DscDef(
    uuid: Option<Uuid>,
    attFlags: byte,
    accessCb: Option<AccessFn>,
    arg: Option<CString>)

  const DscEndMarker: DscDef := DscDef(None, 0, None, None)

  /** ble_gatt_chr_def over characteristic objects of class C. `arg` is the
      object the access callback is called with; `valHandle` is Some(c) when
      val_handle points at c's handle field and None when it is null. The
      descriptor array is held by value. */
  datatype ChrDef<C> = ChrDef(
    uuid: Option<Uuid>,
    accessCb: Option<AccessFn>,
    arg: Option<C>,
    descriptors: Option<seq<DscDef>>,
    flags: ChrFlags,
    minKeySize: byte,
    valHandle: Option<C>)

  function ChrEndMarker<C>(): ChrDef<C> {
    ChrDef(None, None, None, None, {}, 0, None)
  }

  /** ble_gatt_svc_def; the characteristics array is held by value. */
  datatype SvcDef<C> = SvcDef(
    kind: byte,
    uuid: Option<Uuid>,
    includes: Option<seq<SvcDef<C>>>,
    characteristics: Option<seq<ChrDef<C>>>)

  function SvcEndMarker<C>(): SvcDef<C> {
    SvcDef(SvcTypeEnd, None, None, None)
  }

  /** The shape every characteristic array handed to the host must have:
      one definition per characteristic and a single null-uuid end marker. */
  ghost predicate EndTerminated<C>(defs: seq<ChrDef<C>>) {
    && |defs| > 0
    && defs[|defs| - 1].uuid.None?
    && forall i | 0 <= i < |defs| - 1 :: defs[i].uuid.Some?
  }

  /** The rebuild step shared by every characteristics manager: the stored
      definitions in order, then the end marker. */
  function Terminated<C>(stored: seq<ChrDef<C>>): (defs: seq<ChrDef<C>>)
    ensures |defs| == |stored| + 1
    ensures defs[..|stored|] == stored
    ensures defs[|stored|] == ChrEndMarker()
    ensures (forall i | 0 <= i < |stored| :: stored[i].uuid.Some?) ==> EndTerminated(defs)
  {
    stored + [ChrEndMarker()]
  }

  /** The elements of a service array before its first type-0 element: what
      the concatenating service managers copy out of each service. */
  function UntilEnd<C>(svcs: seq<SvcDef<C>>): (prefix: seq<SvcDef<C>>)
    ensures prefix <= svcs
    ensures forall i | 0 <= i < |prefix| :: prefix[i].kind != SvcTypeEnd
    ensures |prefix| < |svcs| ==> svcs[|prefix|].kind == SvcTypeEnd
  {
    if svcs == [] || svcs[0].kind == SvcTypeEnd then []
    else [svcs[0]] + UntilEnd(svcs[1..])
  }

  /** The shape every service array handed to the host must have: the last
      element, and only it, has type 0. */
  ghost predicate SvcEndTerminated<C>(svcs: seq<SvcDef<C>>) {
    && |svcs| > 0
    && svcs[|svcs| - 1].kind == SvcTypeEnd
    && forall i | 0 <= i < |svcs| - 1 :: svcs[i].kind != SvcTypeEnd
  }

  /** A copy that stopped at index j, the first type-0 element, copied exactly UntilEnd. */
  lemma {:induction false} UntilEndAt<C>(svcs: seq<SvcDef<C>>, j: nat)
    requires j < |svcs| && svcs[j].kind == SvcTypeEnd
    requires forall i | 0 <= i < j :: svcs[i].kind != SvcTypeEnd
    ensures UntilEnd(svcs) == svcs[..j]
  {
    if j > 0 {
      UntilEndAt(svcs[1..], j - 1);
      assert svcs[..j] == [svcs[0]] + svcs[1..][..j - 1];
    }
  }

  /** Concatenation of every array's prefix before its end marker. */
  function ConcatUntilEnd<C>(arrays: seq<seq<SvcDef<C>>>): (out: seq<SvcDef<C>>)
    ensures forall i | 0 <= i < |out| :: out[i].kind != SvcTypeEnd
  {
    if arrays == [] then []
    else ConcatUntilEnd(arrays[..|arrays| - 1]) + UntilEnd(arrays[|arrays| - 1])
  }

  /** When every array is [service, end marker], concatenating their prefixes
      yields exactly the services, one per array and in array order. */
  lemma {:induction false} ConcatOfPairs<C>(arrays: seq<seq<SvcDef<C>>>)
    requires forall k | 0 <= k < |arrays| ::
      |arrays[k]| == 2 && arrays[k][0].kind != SvcTypeEnd && arrays[k][1].kind == SvcTypeEnd
    ensures |ConcatUntilEnd(arrays)| == |arrays|
    ensures forall k | 0 <= k < |arrays| :: ConcatUntilEnd(arrays)[k] == arrays[k][0]
  {
    if arrays != [] {
      var n := |arrays| - 1;
      ConcatOfPairs(arrays[..n]);
      UntilEndAt(arrays[n], 1);
    }
  }
}
