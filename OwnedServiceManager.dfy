/** CustomBLE::ServiceManager of src/ServiceManager.cpp: owns OwnedService
    objects and builds the service array the host registers by copying each
    service's own array up to its first type-0 element and closing the whole
    with one type-0 end marker. */
module OwnedServiceManager {
  import opened Gatt
  import opened ValueCharacteristic
  import opened OwnedCharacteristics
  import opened OwnedService
  import SharedServiceManager

  /** The inner copy loop of update_svc_defs: pushes the elements of `svcs`
      before its first type-0 element. The array must contain a type-0
      element, or the loop would run past its end. */
  method AppendUntilEnd<C>(out: seq<SvcDef<C>>, svcs: seq<SvcDef<C>>) returns (r: seq<SvcDef<C>>)
    requires exists j | 0 <= j < |svcs| :: svcs[j].kind == SvcTypeEnd
    ensures r == out + UntilEnd(svcs)
  {
    ghost var e :| 0 <= e < |svcs| && svcs[e].kind == SvcTypeEnd;
    r := out;
    var i := 0;
    while svcs[i].kind != SvcTypeEnd
      invariant 0 <= i <= e
      invariant forall k | 0 <= k < i :: svcs[k].kind != SvcTypeEnd
      invariant r == out + svcs[..i]
      decreases e - i
    {
      r := r + [svcs[i]];
      i := i + 1;
    }
    UntilEndAt(svcs, i);
  }

  /** The arrays the services hand out, in service order. */
  function Handed(services: seq<Service>): (arrays: seq<seq<SvcDef<Characteristic>>>)
    reads set s | s in services :: s.manager
    ensures |arrays| == |services|
    ensures forall k | 0 <= k < |services| :: arrays[k] == [services[k].Published(), SvcEndMarker()]
  {
    seq(|services|, k requires 0 <= k < |services|
                        reads if 0 <= k < |services| then {services[k].manager} else {} =>
      [services[k].Published(), SvcEndMarker()])
  }

  /** One pass of the outer copy loop: when every array is [definition, end
      marker], appending the pre-end-marker part of the i-th array extends
      the first definitions of arrays 0..i-1 by the i-th one. */
  lemma PrefixStep<C>(defs: seq<SvcDef<C>>, arrays: seq<seq<SvcDef<C>>>, i: nat)
    requires i < |arrays| && |defs| == i
    requires |arrays[i]| == 2 && arrays[i][0].kind != SvcTypeEnd && arrays[i][1].kind == SvcTypeEnd
    requires forall k | 0 <= k < i :: |arrays[k]| > 0 && defs[k] == arrays[k][0]
    ensures exists j | 0 <= j < |arrays[i]| :: arrays[i][j].kind == SvcTypeEnd
    ensures |defs + UntilEnd(arrays[i])| == i + 1
    ensures forall k | 0 <= k < i + 1 :: |arrays[k]| > 0 && (defs + UntilEnd(arrays[i]))[k] == arrays[k][0]
  {
    UntilEndAt(arrays[i], 1);
  }

  /** An array holding one definition per service, in service order, closed
      by one end marker, is exactly the concatenation of the pre-end-marker
      prefixes of the arrays the services hand out, closed by one end marker,
      and it is correctly terminated. */
  lemma PairsConcatenated(services: seq<Service>, out: seq<SvcDef<Characteristic>>)
    requires |out| == |services| + 1 && out[|services|] == SvcEndMarker()
    requires forall i | 0 <= i < |services| :: out[i] == services[i].Published()
    ensures out == ConcatUntilEnd(Handed(services)) + [SvcEndMarker()]
    ensures SvcEndTerminated(out)
  {
    var handed := Handed(services);
    ConcatOfPairs(handed);
    assert forall i | 0 <= i < |out| :: out[i] == (ConcatUntilEnd(handed) + [SvcEndMarker()])[i];
  }

  class ServiceManager {
    var services: seq<Service>
    var svcDefs: seq<SvcDef<Characteristic>>

    /** The services and their characteristics managers. */
    ghost var Repr: set<object>

    ghost predicate Valid()
      reads this, Repr
    {
      && this !in Repr
      && forall s | s in services :: s in Repr && s.manager in Repr && s.Valid()
    }

    constructor ()
      ensures Valid() && services == [] && svcDefs == [] && Repr == {}
    {
      services := [];
      svcDefs := [];
      Repr := {};
    }

    /** add_service: appends the service and rebuilds the array. */
    method AddService(s: Service)
      requires Valid() && s.Valid()
      modifies this, Repr, s, s.manager
      ensures Repr == old(Repr) + {s, s.manager}
      ensures Valid() && services == old(services) + [s]
      ensures forall t | t in services :: t.manager.entries == old(t.manager.entries)
      ensures svcDefs == ConcatUntilEnd(Handed(services)) + [SvcEndMarker()]
      ensures |svcDefs| == |services| + 1 && SvcEndTerminated(svcDefs)
      ensures forall i | 0 <= i < |services| :: svcDefs[i] == services[i].Published()
    {
      services := services + [s];
      Repr := Repr + {s, s.manager};
      UpdateSvcDefs();
    }

    /** emplace_service: constructs a service, adds it, and returns it. */
    method EmplaceService(uuid: UuidBytes) returns (s: Service)
      requires Valid()
      modifies this, Repr
      ensures Valid() && fresh(s) && fresh(s.manager) && s.uuid == uuid && s.manager.entries == []
      ensures Repr == old(Repr) + {s, s.manager}
      ensures services == old(services) + [s]
      ensures forall t | t in old(services) :: t.manager.entries == old(t.manager.entries)
      ensures svcDefs == ConcatUntilEnd(Handed(services)) + [SvcEndMarker()]
      ensures |svcDefs| == |services| + 1 && SvcEndTerminated(svcDefs)
      ensures forall i | 0 <= i < |services| :: svcDefs[i] == services[i].Published()
    {
      s := new Service(uuid);
      AddService(s);
    }

    /** get_svc_defs: rebuilds, then hands out the array. */
    method GetSvcDefs() returns (defs: seq<SvcDef<Characteristic>>)
      requires Valid()
      modifies this, Repr
      ensures Valid() && services == old(services) && Repr == old(Repr)
      ensures forall t | t in services :: t.manager.entries == old(t.manager.entries)
      ensures defs == svcDefs && defs == ConcatUntilEnd(Handed(services)) + [SvcEndMarker()]
      ensures |defs| == |services| + 1 && SvcEndTerminated(defs)
      ensures forall i | 0 <= i < |services| :: defs[i] == services[i].Published()
    {
      UpdateSvcDefs();
      defs := svcDefs;
    }

    /** size(): the number of services, end marker excluded. */
    method Size() returns (n: nat)
      ensures n == |services|
    {
      n := |services|;
    }

    /** update_svc_defs: clears the array, appends the pre-end-marker prefix
        of every service's own array in insertion order, then one type-0 end
        marker. Since each service hands out [definition, end marker], the
        result holds exactly one definition per service. */
    method UpdateSvcDefs()
      requires Valid()
      modifies this, Repr
      ensures Valid() && services == old(services) && Repr == old(Repr)
      ensures forall t | t in services :: t.manager.entries == old(t.manager.entries)
      ensures svcDefs == ConcatUntilEnd(Handed(services)) + [SvcEndMarker()]
      ensures |svcDefs| == |services| + 1 && SvcEndTerminated(svcDefs)
      ensures forall i | 0 <= i < |services| :: svcDefs[i] == services[i].Published()
    {
      var defs := CollectDefinitions();
      svcDefs := defs + [SvcEndMarker()];
      PairsConcatenated(services, svcDefs);
    }

    /** The outer loop of update_svc_defs: for each service in insertion
        order, the part of its own array before the end marker, which is its
        definition alone. Nothing but the services' own arrays changes. */
    method CollectDefinitions() returns (defs: seq<SvcDef<Characteristic>>)
      requires Valid()
      modifies Repr
      ensures Valid()
      ensures forall t | t in services :: t.manager.entries == old(t.manager.entries)
      ensures |defs| == |services|
      ensures forall k | 0 <= k < |services| :: defs[k] == services[k].Published()
    {
      ghost var handed := Handed(services);
      defs := [];
      var i := 0;
      while i < |services|
        invariant 0 <= i <= |services| && Valid()
        invariant forall t | t in services :: t.manager.entries == old(t.manager.entries)
        invariant |defs| == i
        invariant forall k | 0 <= k < i :: defs[k] == handed[k][0]
      {
        var arr := FetchArray(services[i]);
        assert arr == handed[i];
        PrefixStep(defs, handed, i);
        defs := AppendUntilEnd(defs, arr);
        i := i + 1;
      }
      forall k | 0 <= k < |services|
        ensures defs[k] == services[k].Published()
      {
        assert services[k] in services;
      }
    }

    /** One step of update_svc_defs: the array services[i]->get_svc_defs()
        hands out. Only the services and their managers change, and neither
        the characteristics nor the published definitions do. */
    method FetchArray(s: Service) returns (arr: seq<SvcDef<Characteristic>>)
      requires Valid() && s in services
      modifies Repr
      ensures Valid()
      ensures forall t | t in services :: t.manager.entries == old(t.manager.entries)
      ensures arr == [Definition(s.uuid, old(s.manager.entries)), SvcEndMarker()]
    {
      arr := s.GetSvcDefs();
      forall t | t in services
        ensures t.Valid() && t.manager.entries == old(t.manager.entries)
      {
        if t != s && t.manager != s.manager {
          assert t.Valid();
        }
      }
    }

    /** add_services_to_nimble: builds the array, then counts it and, only if
        counting succeeded, adds it. The host calls are given by their return
        codes; `addCalled` says whether ble_gatts_add_svcs ran. */
    method AddServicesToNimble(countRc: int, addRc: int)
      returns (rc: int, addCalled: bool, registered: seq<SvcDef<Characteristic>>)
      requires Valid()
      modifies this, Repr
      ensures Valid() && services == old(services) && Repr == old(Repr)
      ensures forall t | t in services :: t.manager.entries == old(t.manager.entries)
      ensures rc == SharedServiceManager.RegistrationRc(countRc, addRc) && addCalled == (countRc == 0)
      ensures registered == svcDefs && |registered| == |services| + 1 && SvcEndTerminated(registered)
      ensures forall i | 0 <= i < |services| :: registered[i] == services[i].Published()
    {
      registered := GetSvcDefs();
      addCalled := false;
      rc := countRc;
      if rc != 0 {
        return;
      }
      addCalled := true;
      rc := addRc;
      if rc != 0 {
        return;
      }
      rc := 0;
    }
  }
}
