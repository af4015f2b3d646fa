/** CustomBLE::Service of src/CustomBLEService.cpp: a primary service that
    owns a characteristics manager (src/CustomBLECharacteristicsManager.cpp)
    and hands out its own two-element service array: the service definition
    and a type-0 end marker. */
module OwnedService {
  import opened Gatt
  import opened ValueCharacteristic
  import opened OwnedCharacteristics

  /** The service definition get_svc_defs hands out for a service with this
      UUID whose manager holds these entries. */
  function Definition(uuid: UuidBytes, entries: seq<Entry>): SvcDef<Characteristic> {
    SvcDef(SvcTypePrimary, Some(Uuid128(uuid)), None, Some(Rebuilt(entries)))
  }

  class Service {
    const uuid: UuidBytes
    const manager: CharacteristicsManager
    var svcDef: SvcDef<Characteristic>
    var svcDefs: seq<SvcDef<Characteristic>>

    /** The definition stays a primary service named by the service's own
        UUID, without includes; the manager keeps its invariant. */
    ghost predicate Valid()
      reads this, manager
    {
      && manager.Valid()
      && svcDef.kind == SvcTypePrimary
      && svcDef.uuid == Some(Uuid128(uuid))
      && svcDef.includes == None
    }

    /** The service definition get_svc_defs hands out for the manager's
        current characteristics. */
    function Published(): SvcDef<Characteristic>
      reads manager
    {
      Definition(uuid, manager.entries)
    }

    constructor (uuid: UuidBytes)
      ensures Valid() && fresh(manager)
      ensures this.uuid == uuid && manager.entries == [] && manager.chrDefs == []
      ensures svcDef == SvcDef(SvcTypePrimary, Some(Uuid128(uuid)), None, None)
      ensures svcDefs == []
    {
      this.uuid := uuid;
      manager := new CharacteristicsManager();
      svcDef := SvcDef(SvcTypePrimary, Some(Uuid128(uuid)), None, None);
      svcDefs := [];
    }

    /** add_characteristic: delegates to the manager. */
    method AddCharacteristic(c: Characteristic)
      requires Valid()
      modifies manager
      ensures Valid()
      ensures |manager.entries| == |old(manager.entries)| + 1
      ensures manager.entries[..|old(manager.entries)|] == old(manager.entries)
      ensures manager.entries[|old(manager.entries)|].characteristic == c
    {
      manager.AddCharacteristic(c);
    }

    /** emplace_characteristic: delegates to the manager; the result is its last entry. */
    method EmplaceCharacteristic(uuid: UuidBytes, initialValue: seq<byte>,
                                 readCb: Option<Callbacks.ReadCallback>,
                                 writeCb: Option<Callbacks.WriteCallback>) returns (c: Characteristic)
      requires Valid()
      modifies manager
      ensures Valid() && fresh(c) && c.Valid()
      ensures c.uuid == uuid && c.handle == 0 && c.defaultValue == initialValue
      ensures c.readCallback == readCb && c.writeCallback == writeCb
      ensures |manager.entries| == |old(manager.entries)| + 1
      ensures manager.entries[..|old(manager.entries)|] == old(manager.entries)
      ensures manager.entries[|manager.entries| - 1].characteristic == c
    {
      c := manager.EmplaceCharacteristic(uuid, initialValue, readCb, writeCb);
    }

    /** get_svc_defs: refreshes the characteristics pointer, then clears the
        array and pushes the definition and the end marker, so the array
        always has exactly two elements however often it is requested. */
    method GetSvcDefs() returns (defs: seq<SvcDef<Characteristic>>)
      requires Valid()
      modifies this, manager
      ensures Valid() && manager.entries == old(manager.entries)
      ensures svcDef == Published()
      ensures defs == svcDefs && defs == [Published(), SvcEndMarker()]
    {
      var chrs := manager.GetChrDefs();
      svcDef := svcDef.(characteristics := Some(chrs));
      svcDefs := [];
      svcDefs := svcDefs + [svcDef];
      svcDefs := svcDefs + [SvcEndMarker()];
      defs := svcDefs;
    }
  }

  /** The published pair is what the concatenating service managers expect:
      one non-end element, then the end marker. */
  lemma PublishedPairShape(s: Service)
    ensures [s.Published(), SvcEndMarker<Characteristic>()][0].kind != SvcTypeEnd
    ensures UntilEnd([s.Published(), SvcEndMarker<Characteristic>()]) == [s.Published()]
  {
    UntilEndAt([s.Published(), SvcEndMarker<Characteristic>()], 1);
  }
}
