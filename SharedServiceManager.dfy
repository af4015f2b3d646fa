/** CustomBLE::ServiceManager of src/CustomBLE/ServiceManager.cpp: shares
    SharedService objects, rebuilds the type-0-terminated service array the
    host registers, registers it, and fills the advertising fields of the
    connection manager's configuration. */
module SharedServiceManager {
  import opened Gatt
  import opened ValueCharacteristic
  import opened SharedCharacteristics
  import opened SharedService
  import opened AdvData

  /** The result of add_services_to_nimble given the return codes of
      ble_gatts_count_cfg and ble_gatts_add_svcs: the count code when it is
      not 0, otherwise the add code. */
  function RegistrationRc(countRc: int, addRc: int): (rc: int)
    ensures rc == 0 <==> countRc == 0 && addRc == 0
    ensures countRc != 0 ==> rc == countRc
    ensures countRc == 0 ==> rc == addRc
  {
    if countRc != 0 then countRc else if addRc != 0 then addRc else 0
  }

  /** The advertising fields of esp_ble_conn_config_t that populate_adv_data
      writes. A data field is None for a null pointer and Some(m) when it
      points at manager m's adv_data buffer. */
  class ConnConfig {
    var extendedData: Option<ServiceManager>
    var extendedLen: nat
    var periodicData: Option<ServiceManager>
    var periodicLen: nat

    constructor ()
      ensures extendedData == None && extendedLen == 0
      ensures periodicData == None && periodicLen == 0
    {
      extendedData := None;
      extendedLen := 0;
      periodicData := None;
      periodicLen := 0;
    }
  }

  /** The services' UUIDs in service order. */
  function UuidsOf(services: seq<Service>): (uuids: seq<UuidBytes>)
    ensures |uuids| == |services|
    ensures forall i | 0 <= i < |services| :: uuids[i] == services[i].uuid
  {
    seq(|services|, i requires 0 <= i < |services| => services[i].uuid)
  }

  /** What get_svc_def hands out for each service, in service order. */
  function Definitions(services: seq<Service>): (defs: seq<SvcDef<Characteristic>>)
    reads set s | s in services :: s.manager
    ensures |defs| == |services|
    ensures forall k | 0 <= k < |services| :: defs[k] == services[k].Published()
  {
    seq(|services|, k requires 0 <= k < |services|
                        reads if 0 <= k < |services| then {services[k].manager} else {} =>
      services[k].Published())
  }

  /** The bytes populate_adv_data pushes for a non-empty UUID list: the
      length byte 1 + 16n clamped to 0xFF, the type byte, then each UUID's
      16 bytes in order. */
  method BuildUuidList(uuids: seq<UuidBytes>) returns (data: seq<byte>)
    requires |uuids| > 0
    ensures data == Payload(uuids)
  {
    var payloadLen := 1 + |uuids| * 16;
    if payloadLen > MaxAdLength {
      payloadLen := MaxAdLength;
    }
    data := [payloadLen, AdTypeComplete128];
    var n := 0;
    while n < |uuids|
      invariant 0 <= n <= |uuids|
      invariant data == [LengthByte(|uuids|), AdTypeComplete128] + Flatten(uuids[..n])
    {
      var i := 0;
      while i < 16
        invariant 0 <= i <= 16
        invariant data == [LengthByte(|uuids|), AdTypeComplete128] + Flatten(uuids[..n]) + uuids[n][..i]
      {
        data := data + [uuids[n][i]];
        i := i + 1;
      }
      assert uuids[..n + 1][..n] == uuids[..n];
      assert uuids[n][..16] == uuids[n];
      n := n + 1;
    }
    assert uuids[..n] == uuids;
  }

  class ServiceManager {
    var services: seq<Service>
    var svcDefs: seq<SvcDef<Characteristic>>
    var advData: seq<byte>

    /** The services and their characteristics managers. */
    ghost var Repr: set<object>

    ghost predicate Valid()
      reads this, Repr
    {
      && this !in Repr
      && forall s | s in services :: s in Repr && s.manager in Repr && s.Valid()
    }

    constructor ()
      ensures Valid() && services == [] && svcDefs == [] && advData == [] && Repr == {}
    {
      services := [];
      svcDefs := [];
      advData := [];
      Repr := {};
    }

    /** add_service: appends the service and rebuilds the array. */
    method AddService(s: Service)
      requires Valid() && s.Valid()
      modifies this, Repr, s, s.manager
      ensures Repr == old(Repr) + {s, s.manager}
      ensures Valid() && services == old(services) + [s] && advData == old(advData)
      ensures forall t | t in services :: t.manager.entries == old(t.manager.entries)
      ensures |svcDefs| == |services| + 1
      ensures forall i | 0 <= i < |services| :: svcDefs[i] == services[i].Published()
      ensures svcDefs[|services|] == SvcEndMarker()
    {
      services := services + [s];
      Repr := Repr + {s, s.manager};
      UpdateSvcDefs();
    }

    /** emplace_service: constructs a service, adds it, and returns it. */
    method EmplaceService(uuid: UuidBytes) returns (s: Service)
      requires Valid()
      modifies this, Repr
      ensures Valid() && fresh(s) && fresh(s.manager) && s.uuid == uuid && s.manager.entries == []
      ensures Repr == old(Repr) + {s, s.manager}
      ensures services == old(services) + [s] && advData == old(advData)
      ensures forall t | t in old(services) :: t.manager.entries == old(t.manager.entries)
      ensures |svcDefs| == |services| + 1
      ensures forall i | 0 <= i < |services| :: svcDefs[i] == services[i].Published()
      ensures svcDefs[|services|] == SvcEndMarker()
    {
      s := new Service(uuid);
      AddService(s);
    }

    /** get_svc_defs: rebuilds, then hands out the array. */
    method GetSvcDefs() returns (defs: seq<SvcDef<Characteristic>>)
      requires Valid()
      modifies this, Repr
      ensures Valid() && services == old(services) && Repr == old(Repr) && advData == old(advData)
      ensures forall t | t in services :: t.manager.entries == old(t.manager.entries)
      ensures defs == svcDefs && |defs| == |services| + 1
      ensures forall i | 0 <= i < |services| :: defs[i] == services[i].Published()
      ensures defs[|services|] == SvcEndMarker()
    {
      UpdateSvcDefs();
      defs := svcDefs;
    }

    /** size(): the number of services, end marker excluded. */
    method Size() returns (n: nat)
      ensures n == |services|
    {
      n := |services|;
    }

    /** update_svc_defs: clears the array and refills it with each service's
        get_svc_def() in insertion order, then the type-0 end marker. */
    method UpdateSvcDefs()
      requires Valid()
      modifies this, Repr
      ensures Valid() && services == old(services) && Repr == old(Repr) && advData == old(advData)
      ensures forall t | t in services :: t.manager.entries == old(t.manager.entries)
      ensures |svcDefs| == |services| + 1
      ensures forall i | 0 <= i < |services| :: svcDefs[i] == services[i].Published()
      ensures svcDefs[|services|] == SvcEndMarker()
    {
      ghost var published := Definitions(services);
      var defs := [];
      var i := 0;
      while i < |services|
        modifies Repr
        invariant 0 <= i <= |services| && Valid()
        invariant forall t | t in services :: t.manager.entries == old(t.manager.entries)
        invariant |defs| == i
        invariant forall k | 0 <= k < i :: defs[k] == published[k]
      {
        label Before:
        var s := services[i];
        var def := s.GetSvcDef();
        forall t | t in services
          ensures t.Valid() && t.manager.entries == old@Before(t.manager.entries)
        {
          if t != s && t.manager != s.manager {
            assert t.Valid();
          }
        }
        defs := defs + [def];
        i := i + 1;
      }
      svcDefs := defs + [SvcEndMarker()];
      forall k | 0 <= k < |services|
        ensures svcDefs[k] == services[k].Published()
      {
        assert services[k] in services;
      }
    }

    /** add_services_to_nimble: rebuilds the array, then counts it and, only
        if counting succeeded, adds it. The host calls are given by their
        return codes; `addCalled` says whether ble_gatts_add_svcs ran. */
    method AddServicesToNimble(countRc: int, addRc: int)
      returns (rc: int, addCalled: bool, registered: seq<SvcDef<Characteristic>>)
      requires Valid()
      modifies this, Repr
      ensures Valid() && services == old(services) && Repr == old(Repr) && advData == old(advData)
      ensures forall t | t in services :: t.manager.entries == old(t.manager.entries)
      ensures rc == RegistrationRc(countRc, addRc) && addCalled == (countRc == 0)
      ensures registered == svcDefs && |registered| == |services| + 1
      ensures forall i | 0 <= i < |services| :: registered[i] == services[i].Published()
      ensures registered[|services|] == SvcEndMarker()
    {
      registered := GetSvcDefs();
      addCalled := false;
      rc := countRc;
      if rc != 0 {
        return;
      }
      addCalled := true;
      rc := addRc;
      if rc != 0 {
        return;
      }
      rc := 0;
    }

    /** populate_adv_data: with no services, empties adv_data and nulls the
        periodic fields, leaving the extended ones alone; otherwise fills
        adv_data with the Complete List of 128-bit Service UUIDs and points
        both the extended and the periodic fields at it. */
    method PopulateAdvData(config: ConnConfig)
      requires Valid() && config !in Repr
      modifies this, config
      ensures Valid() && Repr == old(Repr)
      ensures services == old(services) && svcDefs == old(svcDefs)
      ensures |services| == 0 ==> advData == []
      ensures |services| == 0 ==> config.periodicData == None && config.periodicLen == 0
      ensures |services| == 0 ==>
        config.extendedData == old(config.extendedData) && config.extendedLen == old(config.extendedLen)
      ensures |services| > 0 ==> advData == Payload(UuidsOf(services))
      ensures |services| > 0 ==> config.extendedData == Some(this) && config.extendedLen == |advData|
      ensures |services| > 0 ==> config.periodicData == Some(this) && config.periodicLen == |advData|
    {
      advData := [];
      var uuids: seq<UuidBytes> := [];
      var k := 0;
      while k < |services|
        invariant 0 <= k <= |services| && services == old(services) && svcDefs == old(svcDefs)
        invariant advData == [] && uuids == UuidsOf(services[..k])
        invariant config.extendedData == old(config.extendedData) && config.extendedLen == old(config.extendedLen)
      {
        uuids := uuids + [services[k].uuid];
        k := k + 1;
      }
      assert services[..k] == services;
      if uuids == [] {
        config.periodicData := None;
        config.periodicLen := 0;
        return;
      }
      advData := BuildUuidList(uuids);
      config.extendedData := Some(this);
      config.extendedLen := |advData|;
      config.periodicData := Some(this);
      config.periodicLen := |advData|;
    }
  }
}
