/** The CharacteristicsManager of src/CharacteristicsManager.cpp: shares
    default-value characteristics (src/Characteristic.cpp), builds one
    descriptor-less definition per characteristic with a null handle
    pointer, and keeps the end-terminated array the host registers. */
module SharedCharacteristics {
  import opened Gatt
  import opened ValueCharacteristic
  import UuidText

  /** CharacteristicEntry: the characteristic and its definition as
      captured by add_characteristic. */
  datatype Entry = Entry(characteristic: Characteristic, chrDef: ChrDef<Characteristic>)

  /** What add_characteristic records for a characteristic: a definition
      whose uuid is the characteristic's own, whose arg is the characteristic
      itself, without descriptors, with min_key_size 0 and a null handle pointer.
      The flags are a snapshot and are not constrained here. */
  ghost predicate WellFormedEntry(e: Entry) {
    var c := e.characteristic;
    && e.chrDef.uuid == Some(Uuid128(c.uuid))
    && e.chrDef.accessCb == Some(GattAccessCallback)
    && e.chrDef.arg == Some(c)
    && e.chrDef.descriptors == None
    && e.chrDef.minKeySize == 0
    && e.chrDef.valHandle == None
  }

  /** The stored definitions, in insertion order. */
  function StoredDefs(entries: seq<Entry>): (defs: seq<ChrDef<Characteristic>>)
    ensures |defs| == |entries|
    ensures forall i | 0 <= i < |entries| :: defs[i] == entries[i].chrDef
  {
    seq(|entries|, i requires 0 <= i < |entries| => entries[i].chrDef)
  }

  /** The array update_chr_defs builds: size()+1 elements, the stored
      definitions in insertion order and then the end marker; with
      well-formed entries only that last element has a null uuid. */
  function Rebuilt(entries: seq<Entry>): (defs: seq<ChrDef<Characteristic>>)
    ensures |defs| == |entries| + 1
    ensures forall i | 0 <= i < |entries| :: defs[i] == entries[i].chrDef
    ensures defs[|entries|] == ChrEndMarker()
    ensures (forall i | 0 <= i < |entries| :: WellFormedEntry(entries[i])) ==> EndTerminated(defs)
  {
    Terminated(StoredDefs(entries))
  }

  /** One line of overview(): the index and the UUID bytes in order. */
  function Line(index: nat, c: Characteristic): string {
    "  [" + UuidText.NatToString(index) + "] UUID: " + UuidText.FormatUuid(c.uuid, UuidText.StraightOrder) + "\n"
  }

  /** The lines for `entries`, numbered from `first`. */
  function LineTexts(entries: seq<Entry>, first: nat): (lines: seq<string>)
    ensures |lines| == |entries|
    ensures forall i | 0 <= i < |entries| :: lines[i] == Line(first + i, entries[i].characteristic)
  {
    seq(|entries|, i requires 0 <= i < |entries| => Line(first + i, entries[i].characteristic))
  }

  /** The text of the lines for `entries`, numbered from `first`. */
  function Lines(entries: seq<Entry>, first: nat): string {
    UuidText.Join(LineTexts(entries, first))
  }

  /** The overview of a sequence of entries is the overview of any prefix
      followed by the lines of the rest, numbered on from the prefix: the
      lines follow insertion order with indices 0..n-1. */
  lemma LinesSplit(a: seq<Entry>, b: seq<Entry>, first: nat)
    ensures Lines(a + b, first) == Lines(a, first) + Lines(b, first + |a|)
  {
    assert LineTexts(a + b, first) == LineTexts(a, first) + LineTexts(b, first + |a|);
    UuidText.JoinConcat(LineTexts(a, first), LineTexts(b, first + |a|));
  }

  /** Appending the line of one more entry to an overview gives the
      overview of one more entry. */
  lemma LinesStep(es: seq<Entry>, idx: nat, header: string, out: string)
    requires idx < |es| && out == header + Lines(es[..idx], 0)
    ensures out + Line(idx, es[idx].characteristic) == header + Lines(es[..idx + 1], 0)
  {
    var line := Line(idx, es[idx].characteristic);
    assert LineTexts(es[..idx + 1], 0) == LineTexts(es[..idx], 0) + [line];
    UuidText.JoinAppend(LineTexts(es[..idx], 0), line, header);
  }

  class CharacteristicsManager {
    var entries: seq<Entry>
    var chrDefs: seq<ChrDef<Characteristic>>

    /** Every entry is as add_characteristic built it, and the array is
        either not built yet or the rebuild of the entries. */
    ghost predicate Valid()
      reads this
    {
      && (forall i | 0 <= i < |entries| :: WellFormedEntry(entries[i]))
      && ((chrDefs == [] && entries == []) || chrDefs == Rebuilt(entries))
    }

    constructor ()
      ensures Valid() && entries == [] && chrDefs == []
    {
      entries := [];
      chrDefs := [];
    }

    /** add_characteristic: appends the entry and rebuilds the array. */
    method AddCharacteristic(c: Characteristic)
      requires Valid()
      modifies this
      ensures Valid()
      ensures |entries| == |old(entries)| + 1 && entries[..|old(entries)|] == old(entries)
      ensures entries[|old(entries)|].characteristic == c
      ensures entries[|old(entries)|].chrDef.flags == c.flags
      ensures chrDefs == Rebuilt(entries)
    {
      var chrDef := ChrDef(Some(Uuid128(c.uuid)), Some(GattAccessCallback), Some(c), None, c.flags, 0, None);
      entries := entries + [Entry(c, chrDef)];
      UpdateChrDefs();
    }

    /** emplace_characteristic: constructs a characteristic and adds it; the
        result is the very object that became the last entry. */
    method EmplaceCharacteristic(uuid: UuidBytes, initialValue: seq<byte>,
                                 readCb: Option<Callbacks.ReadCallback>,
                                 writeCb: Option<Callbacks.WriteCallback>) returns (c: Characteristic)
      requires Valid()
      modifies this
      ensures Valid() && fresh(c) && c.Valid()
      ensures c.uuid == uuid && c.handle == 0 && c.defaultValue == initialValue
      ensures c.readCallback == readCb && c.writeCallback == writeCb
      ensures |entries| == |old(entries)| + 1 && entries[..|old(entries)|] == old(entries)
      ensures entries[|entries| - 1].characteristic == c
      ensures chrDefs == Rebuilt(entries)
    {
      c := new Characteristic(uuid, initialValue, readCb, writeCb);
      AddCharacteristic(c);
    }

    /** get_chr_defs: rebuilds, then hands out the array. */
    method GetChrDefs() returns (defs: seq<ChrDef<Characteristic>>)
      requires Valid()
      modifies this
      ensures Valid() && entries == old(entries)
      ensures defs == chrDefs && defs == Rebuilt(entries)
    {
      UpdateChrDefs();
      defs := chrDefs;
    }

    /** size(): the number of characteristics, end marker excluded. */
    method Size() returns (n: nat)
      requires Valid()
      ensures n == |entries| && n == |Rebuilt(entries)| - 1
    {
      n := |entries|;
    }

    /** update_chr_defs: clears the array and refills it in insertion order,
        then appends the end marker. */
    method UpdateChrDefs()
      modifies this
      ensures entries == old(entries) && chrDefs == Rebuilt(entries)
    {
      chrDefs := [];
      var i := 0;
      while i < |entries|
        invariant 0 <= i <= |entries| && entries == old(entries)
        invariant |chrDefs| == i
        invariant forall k | 0 <= k < i :: chrDefs[k] == entries[k].chrDef
      {
        chrDefs := chrDefs + [entries[i].chrDef];
        i := i + 1;
      }
      chrDefs := chrDefs + [ChrEndMarker()];
      var expected := Rebuilt(entries);
      assert forall k | 0 <= k < |chrDefs| :: chrDefs[k] == expected[k];
    }

    /** overview(): a header, then one line per characteristic. */
    method Overview() returns (out: string)
      ensures out == "Characteristics:\n" + Lines(entries, 0)
    {
      var es := entries;
      out := "Characteristics:\n";
      var idx := 0;
      while idx < |es|
        invariant 0 <= idx <= |es|
        invariant out == "Characteristics:\n" + Lines(es[..idx], 0)
      {
        LinesStep(es, idx, "Characteristics:\n", out);
        out := out + Line(idx, es[idx].characteristic);
        idx := idx + 1;
      }
      assert es[..idx] == es;
    }
  }
}
