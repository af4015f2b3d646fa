/** The legacy CustomBLECharacteristicsManager of
    src/CustomBLEServiceCharacteristicsManager.cpp, over
    CustomBLECharacteristic objects: one descriptor-less definition per
    characteristic with its handle pointer wired to the characteristic's
    handle field. */
module LegacyCharacteristics {
  import opened Gatt
  import opened LegacyCharacteristic


  /** CharacteristicEntry: the characteristic and its definition as
      captured by add_characteristic. */
  datatype Entry = Entry(characteristic: CustomBLECharacteristic, chrDef: ChrDef<CustomBLECharacteristic>)

  /** What add_characteristic records for a characteristic: a definition
      whose uuid is the characteristic's own, whose arg is the characteristic
      itself, without descriptors, with min_key_size 0 and a handle pointer to the characteristic's own handle field.
      The flags are a snapshot and are not constrained here. */
  ghost predicate WellFormedEntry(e: Entry) {
    var c := e.characteristic;
    && e.chrDef.uuid == Some(Uuid128(c.uuid))
    && e.chrDef.accessCb == Some(GattAccessCallback)
    && e.chrDef.arg == Some(c)
    && e.chrDef.descriptors == None
    && e.chrDef.minKeySize == 0
    && e.chrDef.valHandle == Some(c)
  }

  /** The stored definitions, in insertion order. */
  function StoredDefs(entries: seq<Entry>): (defs: seq<ChrDef<CustomBLECharacteristic>>)
    ensures |defs| == |entries|
    ensures forall i | 0 <= i < |entries| :: defs[i] == entries[i].chrDef
  {
    seq(|entries|, i requires 0 <= i < |entries| => entries[i].chrDef)
  }

  /** The array update_chr_defs builds: size()+1 elements, the stored
      definitions in insertion order and then the end marker; with
      well-formed entries only that last element has a null uuid. */
  function Rebuilt(entries: seq<Entry>): (defs: seq<ChrDef<CustomBLECharacteristic>>)
    ensures |defs| == |entries| + 1
    ensures forall i | 0 <= i < |entries| :: defs[i] == entries[i].chrDef
    ensures defs[|entries|] == ChrEndMarker()
    ensures (forall i | 0 <= i < |entries| :: WellFormedEntry(entries[i])) ==> EndTerminated(defs)
  {
    Terminated(StoredDefs(entries))
  }

  class CustomBLECharacteristicsManager {
    var entries: seq<Entry>
    var chrDefs: seq<ChrDef<CustomBLECharacteristic>>

    /** Every entry is as add_characteristic built it, and the array is
        either not built yet or the rebuild of the entries. */
    ghost predicate Valid()
      reads this
    {
      && (forall i | 0 <= i < |entries| :: WellFormedEntry(entries[i]))
      && ((chrDefs == [] && entries == []) || chrDefs == Rebuilt(entries))
    }

    constructor ()
      ensures Valid() && entries == [] && chrDefs == []
    {
      entries := [];
      chrDefs := [];
    }

    /** add_characteristic: appends the entry and rebuilds the array. */
    method AddCharacteristic(c: CustomBLECharacteristic)
      requires Valid()
      modifies this
      ensures Valid()
      ensures |entries| == |old(entries)| + 1 && entries[..|old(entries)|] == old(entries)
      ensures entries[|old(entries)|].characteristic == c
      ensures entries[|old(entries)|].chrDef.flags == c.flags
      ensures chrDefs == Rebuilt(entries)
    {
      var chrDef := ChrDef(Some(Uuid128(c.uuid)), Some(GattAccessCallback), Some(c), None, c.flags, 0, Some(c));
      entries := entries + [Entry(c, chrDef)];
      UpdateChrDefs();
    }

    /** get_chr_defs: rebuilds, then hands out the array. */
    method GetChrDefs() returns (defs: seq<ChrDef<CustomBLECharacteristic>>)
      requires Valid()
      modifies this
      ensures Valid() && entries == old(entries)
      ensures defs == chrDefs && defs == Rebuilt(entries)
    {
      UpdateChrDefs();
      defs := chrDefs;
    }

    /** size(): the number of characteristics, end marker excluded. */
    method Size() returns (n: nat)
      requires Valid()
      ensures n == |entries| && n == |Rebuilt(entries)| - 1
    {
      n := |entries|;
    }

    /** update_chr_defs: clears the array and refills it in insertion order,
        then appends the end marker. */
    method UpdateChrDefs()
      modifies this
      ensures entries == old(entries) && chrDefs == Rebuilt(entries)
    {
      chrDefs := [];
      var i := 0;
      while i < |entries|
        invariant 0 <= i <= |entries| && entries == old(entries)
        invariant |chrDefs| == i
        invariant forall k | 0 <= k < i :: chrDefs[k] == entries[k].chrDef
      {
        chrDefs := chrDefs + [entries[i].chrDef];
        i := i + 1;
      }
      chrDefs := chrDefs + [ChrEndMarker()];
      var expected := Rebuilt(entries);
      assert forall k | 0 <= k < |chrDefs| :: chrDefs[k] == expected[k];
    }
  }
}
