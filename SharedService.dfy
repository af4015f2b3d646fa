/** CustomBLE::Service of src/Service.cpp: a primary service that owns a
    characteristics manager (src/CharacteristicsManager.cpp) and refreshes
    its ble_gatt_svc_def's characteristics pointer from that manager on
    every request. */
module SharedService {
  import opened Gatt
  import opened ValueCharacteristic
  import opened SharedCharacteristics
  import UuidText

  class Service {
    const uuid: UuidBytes
    const manager: CharacteristicsManager
    var svcDef: SvcDef<Characteristic>

    /** The definition stays a primary service named by the service's own
        UUID, without includes; the manager keeps its invariant. */
    ghost predicate Valid()
      reads this, manager
    {
      && manager.Valid()
      && svcDef.kind == SvcTypePrimary
      && svcDef.uuid == Some(Uuid128(uuid))
      && svcDef.includes == None
    }

    /** The definition get_svc_def hands out for the manager's current characteristics. */
    function Published(): SvcDef<Characteristic>
      reads manager
    {
      SvcDef(SvcTypePrimary, Some(Uuid128(uuid)), None, Some(Rebuilt(manager.entries)))
    }

    constructor (uuid: UuidBytes)
      ensures Valid() && fresh(manager)
      ensures this.uuid == uuid && manager.entries == [] && manager.chrDefs == []
      ensures svcDef == SvcDef(SvcTypePrimary, Some(Uuid128(uuid)), None, None)
    {
      this.uuid := uuid;
      manager := new CharacteristicsManager();
      svcDef := SvcDef(SvcTypePrimary, Some(Uuid128(uuid)), None, None);
    }

    /** add_characteristic(std::shared_ptr<Characteristic>): delegates to the manager. */
    method AddCharacteristic(c: Characteristic)
      requires Valid()
      modifies manager
      ensures Valid()
      ensures |manager.entries| == |old(manager.entries)| + 1
      ensures manager.entries[..|old(manager.entries)|] == old(manager.entries)
      ensures manager.entries[|old(manager.entries)|].characteristic == c
    {
      manager.AddCharacteristic(c);
    }

    /** add_characteristic(Characteristic&&): moves the characteristic into a
        new object and adds that one. */
    method AddMovedCharacteristic(from: Characteristic) returns (c: Characteristic)
      requires Valid() && from.Valid()
      modifies manager
      ensures Valid() && fresh(c) && c.Valid()
      ensures c.uuid == from.uuid && c.handle == from.handle && c.defaultValue == from.defaultValue && c.flags == from.flags
      ensures c.readCallback == from.readCallback && c.writeCallback == from.writeCallback
      ensures |manager.entries| == |old(manager.entries)| + 1
      ensures manager.entries[..|old(manager.entries)|] == old(manager.entries)
      ensures manager.entries[|old(manager.entries)|].characteristic == c
    {
      c := new Characteristic.Moved(from);
      manager.AddCharacteristic(c);
    }

    /** emplace_characteristic: delegates to the manager; the result is its last entry. */
    method EmplaceCharacteristic(uuid: UuidBytes, initialValue: seq<byte>,
                                 readCb: Option<Callbacks.ReadCallback>,
                                 writeCb: Option<Callbacks.WriteCallback>) returns (c: Characteristic)
      requires Valid()
      modifies manager
      ensures Valid() && fresh(c) && c.Valid()
      ensures c.uuid == uuid && c.handle == 0 && c.defaultValue == initialValue
      ensures c.readCallback == readCb && c.writeCallback == writeCb
      ensures |manager.entries| == |old(manager.entries)| + 1
      ensures manager.entries[..|old(manager.entries)|] == old(manager.entries)
      ensures manager.entries[|manager.entries| - 1].characteristic == c
    {
      c := manager.EmplaceCharacteristic(uuid, initialValue, readCb, writeCb);
    }

    /** get_svc_def: points the definition at the manager's freshly rebuilt
        array (size()+1 elements, end marker last) and returns a copy; type
        and uuid do not change. */
    method GetSvcDef() returns (def: SvcDef<Characteristic>)
      requires Valid()
      modifies this, manager
      ensures Valid() && manager.entries == old(manager.entries)
      ensures svcDef == old(svcDef).(characteristics := Some(Rebuilt(manager.entries)))
      ensures def == svcDef && def == Published()
    {
      var chrs := manager.GetChrDefs();
      svcDef := svcDef.(characteristics := Some(chrs));
      def := svcDef;
    }

    /** overview(): the service UUID, then one line per characteristic. */
    method Overview() returns (out: string)
      ensures out == "Service UUID: " + UuidText.FormatUuid(uuid, UuidText.StraightOrder)
                     + "\nCharacteristics:\n" + Lines(manager.entries, 0)
    {
      var header := "Service UUID: " + UuidText.FormatUuid(uuid, UuidText.StraightOrder)
                    + "\nCharacteristics:\n";
      out := header;
      var es := manager.entries;
      var idx := 0;
      while idx < |es|
        invariant 0 <= idx <= |es|
        invariant out == header + Lines(es[..idx], 0)
      {
        LinesStep(es, idx, header, out);
        out := out + Line(idx, es[idx].characteristic);
        idx := idx + 1;
      }
      assert es[..idx] == es;
    }
  }

  /** The published definition carries the characteristics as they were
      captured, one per added characteristic in order, and ends in the
      characteristic end marker. */
  lemma PublishedListsCharacteristics(s: Service)
    requires s.Valid()
    ensures s.Published().kind == SvcTypePrimary
    ensures s.Published().uuid == Some(Uuid128(s.uuid))
    ensures var chrs := s.Published().characteristics.value;
            && |chrs| == |s.manager.entries| + 1
            && EndTerminated(chrs)
            && forall i | 0 <= i < |s.manager.entries| :: chrs[i].arg == Some(s.manager.entries[i].characteristic)
  {
  }
}
