/** The CharacteristicsManager of src/CustomBLE/CharacteristicsManager.cpp:
    it owns (shares) CallbackCharacteristic objects, gives each named one a
    Characteristic User Description descriptor (UUID 0x2901, Bluetooth Core
    Specification Vol 3 Part G section 3.3.3.4), and keeps the
    end-terminated ble_gatt_chr_def array the host registers. */
module DescribedCharacteristics {
  import opened Gatt
  import opened AccessSpec
  import opened CallbackCharacteristic
  import UuidText

  /** The 16-bit UUID of the Characteristic User Description descriptor. */
  const UserDescriptionUuid: uint16 := 0x2901

  /** CharacteristicEntry: the characteristic, the descriptor array built for
      it, and its definition as captured by add_characteristic. */
  datatype Entry = Entry(
    characteristic: Characteristic,
    descriptors: seq<DscDef>,
    chrDef: ChrDef<Characteristic>)

  /** A name that yields a descriptor: non-null and not the empty string. */
  predicate Named(name: Option<CString>) {
    name.Some? && name.value != []
  }

  /** The read-only user description descriptor whose arg is the name. */
  function UserDescription(name: CString): DscDef {
    DscDef(Some(Uuid16(UserDescriptionUuid)), AttFlagRead, Some(UserDescriptionRead), Some(name))
  }

  /** The access callback of the user description descriptor: appends the
      strlen(desc) bytes of the name, whatever the operation. */
  function UserDescriptionAccess(desc: CString, appendOk: bool): (o: AccessOutcome)
    ensures o.sent == desc && o.forwarded.None?
    ensures o.rc == 0 <==> appendOk
    ensures !appendOk ==> o.rc == ErrInsufficientRes
  {
    AccessOutcome(if appendOk then 0 else ErrInsufficientRes, desc, None)
  }

  /** What add_characteristic records for a characteristic: exactly two
      descriptors (the user description, then the end marker) when it is
      named and none otherwise; a definition whose uuid is the
      characteristic's own, whose arg is the characteristic itself, with
      min_key_size 0, no handle pointer, and the descriptor array when there
      is one. The flags are a snapshot and are not constrained here. */
  ghost predicate WellFormedEntry(e: Entry) {
    var c := e.characteristic;
    && (Named(c.name) ==> e.descriptors == [UserDescription(c.name.value), DscEndMarker])
    && (!Named(c.name) ==> e.descriptors == [])
    && e.chrDef.uuid == Some(Uuid128(c.uuid))
    && e.chrDef.accessCb == Some(GattAccessCallback)
    && e.chrDef.arg == Some(c)
    && e.chrDef.descriptors == (if e.descriptors == [] then None else Some(e.descriptors))
    && e.chrDef.minKeySize == 0
    && e.chrDef.valHandle == None
  }

  /** One element of the rebuilt array: the stored definition with its
      descriptor pointer refreshed. */
  function Refreshed(e: Entry): ChrDef<Characteristic> {
    if e.descriptors != [] then e.chrDef.(descriptors := Some(e.descriptors)) else e.chrDef
  }

  /** The array update_chr_defs builds from the entries. */
  function Rebuilt(entries: seq<Entry>): (defs: seq<ChrDef<Characteristic>>)
    ensures |defs| == |entries| + 1
    ensures forall i | 0 <= i < |entries| :: defs[i] == Refreshed(entries[i])
    ensures defs[|entries|] == ChrEndMarker()
  {
    Terminated(seq(|entries|, i requires 0 <= i < |entries| => Refreshed(entries[i])))
  }

  /** Refreshing the descriptor pointer changes nothing in a well-formed
      entry, so the array holds the definitions exactly as captured, in
      insertion order, and is end-terminated: size()+1 elements of which
      only the last has a null uuid. */
  lemma RebuiltHoldsCapturedDefs(entries: seq<Entry>)
    requires forall i | 0 <= i < |entries| :: WellFormedEntry(entries[i])
    ensures forall i | 0 <= i < |entries| :: Rebuilt(entries)[i] == entries[i].chrDef
    ensures EndTerminated(Rebuilt(entries))
  {
    var defs := Rebuilt(entries);
    assert forall i | 0 <= i < |entries| :: defs[i] == entries[i].chrDef;
    assert forall i | 0 <= i < |defs| - 1 :: defs[i].uuid.Some?;
  }

  /** One line of overview(): index, the quoted name when there is one, and
      the UUID bytes in order. */
  function Line(index: nat, c: Characteristic): string {
    "  [" + UuidText.NatToString(index) + "] "
      + (if c.name.Some? then "'" + UuidText.Chars(c.name.value) + "' " else "")
      + "UUID: " + UuidText.FormatUuid(c.uuid, UuidText.StraightOrder) + "\n"
  }

  /** The lines for `entries`, numbered from `first`. */
  function LineTexts(entries: seq<Entry>, first: nat): (lines: seq<string>)
    ensures |lines| == |entries|
    ensures forall i | 0 <= i < |entries| :: lines[i] == Line(first + i, entries[i].characteristic)
  {
    seq(|entries|, i requires 0 <= i < |entries| => Line(first + i, entries[i].characteristic))
  }

  /** The text of the lines for `entries`, numbered from `first`. */
  function Lines(entries: seq<Entry>, first: nat): string {
    UuidText.Join(LineTexts(entries, first))
  }

  /** The overview of a sequence of entries is the overview of any prefix
      followed by the lines of the rest, numbered on from the prefix: the
      lines follow insertion order with indices 0..n-1. */
  lemma LinesSplit(a: seq<Entry>, b: seq<Entry>, first: nat)
    ensures Lines(a + b, first) == Lines(a, first) + Lines(b, first + |a|)
  {
    assert LineTexts(a + b, first) == LineTexts(a, first) + LineTexts(b, first + |a|);
    UuidText.JoinConcat(LineTexts(a, first), LineTexts(b, first + |a|));
  }

  /** Appending the line of one more entry to an overview gives the
      overview of one more entry. */
  lemma LinesStep(es: seq<Entry>, idx: nat, header: string, out: string)
    requires idx < |es| && out == header + Lines(es[..idx], 0)
    ensures out + Line(idx, es[idx].characteristic) == header + Lines(es[..idx + 1], 0)
  {
    var line := Line(idx, es[idx].characteristic);
    assert LineTexts(es[..idx + 1], 0) == LineTexts(es[..idx], 0) + [line];
    UuidText.JoinAppend(LineTexts(es[..idx], 0), line, header);
  }

  class CharacteristicsManager {
    var entries: seq<Entry>
    var chrDefs: seq<ChrDef<Characteristic>>

    /** Every entry is as add_characteristic built it, and the array is
        either not built yet or the rebuild of the entries. */
    ghost predicate Valid()
      reads this
    {
      && (forall i | 0 <= i < |entries| :: WellFormedEntry(entries[i]))
      && ((chrDefs == [] && entries == []) || chrDefs == Rebuilt(entries))
    }

    constructor ()
      ensures Valid() && entries == [] && chrDefs == []
    {
      entries := [];
      chrDefs := [];
    }

    /** add_characteristic: builds the entry (with the user description
        descriptor for a named characteristic), appends it, and rebuilds
        the array. */
    method AddCharacteristic(c: Characteristic)
      requires Valid()
      modifies this
      ensures Valid()
      ensures |entries| == |old(entries)| + 1 && entries[..|old(entries)|] == old(entries)
      ensures entries[|old(entries)|].characteristic == c
      ensures entries[|old(entries)|].chrDef.flags == c.flags
      ensures chrDefs == Rebuilt(entries)
    {
      var descriptors: seq<DscDef> := [];
      if c.name.Some? && c.name.value != [] {
        descriptors := descriptors + [UserDescription(c.name.value)];
        descriptors := descriptors + [DscEndMarker];
      }
      var chrDef := ChrDef(Some(Uuid128(c.uuid)), Some(GattAccessCallback), Some(c),
                           if descriptors == [] then None else Some(descriptors),
                           c.flags, 0, None);
      entries := entries + [Entry(c, descriptors, chrDef)];
      UpdateChrDefs();
    }

    /** emplace_characteristic: constructs a characteristic and adds it; the
        result is the very object that became the last entry. */
    method EmplaceCharacteristic(name: Option<CString>, uuid: UuidBytes,
                                 readCb: Option<Callbacks.ReadCallback>,
                                 writeCb: Option<Callbacks.WriteCallback>) returns (c: Characteristic)
      requires Valid()
      modifies this
      ensures Valid() && fresh(c) && c.Valid()
      ensures c.name == name && c.uuid == uuid && c.handle == 0
      ensures c.readCallback == readCb && c.writeCallback == writeCb
      ensures |entries| == |old(entries)| + 1 && entries[..|old(entries)|] == old(entries)
      ensures entries[|entries| - 1].characteristic == c
      ensures chrDefs == Rebuilt(entries)
    {
      c := new Characteristic(name, uuid, readCb, writeCb);
      AddCharacteristic(c);
    }

    /** get_chr_defs: rebuilds, then hands out the array. */
    method GetChrDefs() returns (defs: seq<ChrDef<Characteristic>>)
      requires Valid()
      modifies this
      ensures Valid() && entries == old(entries)
      ensures defs == chrDefs && defs == Rebuilt(entries)
    {
      UpdateChrDefs();
      defs := chrDefs;
    }

    /** size(): the number of characteristics, end marker excluded. */
    method Size() returns (n: nat)
      requires Valid()
      ensures n == |entries| && n == |Rebuilt(entries)| - 1
    {
      n := |entries|;
    }

    /** update_chr_defs: clears the array and refills it in insertion order,
        then appends the end marker. */
    method UpdateChrDefs()
      requires forall i | 0 <= i < |entries| :: WellFormedEntry(entries[i])
      modifies this
      ensures entries == old(entries) && chrDefs == Rebuilt(entries)
    {
      chrDefs := [];
      var i := 0;
      while i < |entries|
        invariant 0 <= i <= |entries| && entries == old(entries)
        invariant |chrDefs| == i
        invariant forall k | 0 <= k < i :: chrDefs[k] == Refreshed(entries[k])
      {
        var chr := entries[i].chrDef;
        if entries[i].descriptors != [] {
          chr := chr.(descriptors := Some(entries[i].descriptors));
        }
        chrDefs := chrDefs + [chr];
        i := i + 1;
      }
      chrDefs := chrDefs + [ChrEndMarker()];
      var expected := Rebuilt(entries);
      assert forall k | 0 <= k < |chrDefs| :: chrDefs[k] == expected[k];
    }

    /** overview(): a header, then one line per characteristic. */
    method Overview() returns (out: string)
      ensures out == "Characteristics:\n" + Lines(entries, 0)
    {
      var es := entries;
      out := "Characteristics:\n";
      var idx := 0;
      while idx < |es|
        invariant 0 <= idx <= |es|
        invariant out == "Characteristics:\n" + Lines(es[..idx], 0)
      {
        LinesStep(es, idx, "Characteristics:\n", out);
        out := out + Line(idx, es[idx].characteristic);
        idx := idx + 1;
      }
      assert es[..idx] == es;
    }
  }

  /** The array's flags are the ones captured when the characteristic was
      added: widening the characteristic's flags afterwards does not reach
      the array handed to the host. */
  method FlagsAreCapturedAtAdd(m: CharacteristicsManager, c: Characteristic, cb: Callbacks.ReadCallback)
    returns (defs: seq<ChrDef<Characteristic>>)
    requires m.Valid() && c.Valid()
    modifies m, c
    ensures |defs| == |old(m.entries)| + 2
    ensures defs[|old(m.entries)|].arg == Some(c)
    ensures defs[|old(m.entries)|].flags == old(c.flags)
    ensures Read in c.flags
  {
    m.AddCharacteristic(c);
    c.SetReadCallback(Some(cb));
    defs := m.GetChrDefs();
    RebuiltHoldsCapturedDefs(m.entries);
  }
}
