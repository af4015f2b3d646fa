/** The legacy CustomBLEServiceManager of src/CustomBLEServiceManager.cpp:
    the same concatenating rebuild as src/ServiceManager.cpp under its older
    global class name, without emplace_service and registration. */
module LegacyServiceManager {
  import opened Gatt
  import opened ValueCharacteristic
  import opened OwnedCharacteristics
  import opened OwnedService
  import opened OwnedServiceManager

  class CustomBLEServiceManager {
    var services: seq<Service>
    var svcDefs: seq<SvcDef<Characteristic>>

    /** The services and their characteristics managers. */
    ghost var Repr: set<object>

    ghost predicate Valid()
      reads this, Repr
    {
      && this !in Repr
      && forall s | s in services :: s in Repr && s.manager in Repr && s.Valid()
    }

    constructor ()
      ensures Valid() && services == [] && svcDefs == [] && Repr == {}
    {
      services := [];
      svcDefs := [];
      Repr := {};
    }

    /** add_service: appends the service and rebuilds the array. */
    method AddService(s: Service)
      requires Valid() && s.Valid()
      modifies this, Repr, s, s.manager
      ensures Repr == old(Repr) + {s, s.manager}
      ensures Valid() && services == old(services) + [s]
      ensures forall t | t in services :: t.manager.entries == old(t.manager.entries)
      ensures svcDefs == ConcatUntilEnd(Handed(services)) + [SvcEndMarker()]
      ensures |svcDefs| == |services| + 1 && SvcEndTerminated(svcDefs)
      ensures forall i | 0 <= i < |services| :: svcDefs[i] == services[i].Published()
    {
      services := services + [s];
      Repr := Repr + {s, s.manager};
      UpdateSvcDefs();
    }

    /** get_svc_defs: rebuilds, then hands out the array. */
    method GetSvcDefs() returns (defs: seq<SvcDef<Characteristic>>)
      requires Valid()
      modifies this, Repr
      ensures Valid() && services == old(services) && Repr == old(Repr)
      ensures forall t | t in services :: t.manager.entries == old(t.manager.entries)
      ensures defs == svcDefs && defs == ConcatUntilEnd(Handed(services)) + [SvcEndMarker()]
      ensures |defs| == |services| + 1 && SvcEndTerminated(defs)
      ensures forall i | 0 <= i < |services| :: defs[i] == services[i].Published()
    {
      UpdateSvcDefs();
      defs := svcDefs;
    }

    /** size(): the number of services, end marker excluded. */
    method Size() returns (n: nat)
      ensures n == |services|
    {
      n := |services|;
    }

    /** update_svc_defs: clears the array, appends the pre-end-marker prefix
        of every service's own array in insertion order, then one type-0 end
        marker. Since each service hands out [definition, end marker], the
        result holds exactly one definition per service. */
    method UpdateSvcDefs()
      requires Valid()
      modifies this, Repr
      ensures Valid() && services == old(services) && Repr == old(Repr)
      ensures forall t | t in services :: t.manager.entries == old(t.manager.entries)
      ensures svcDefs == ConcatUntilEnd(Handed(services)) + [SvcEndMarker()]
      ensures |svcDefs| == |services| + 1 && SvcEndTerminated(svcDefs)
      ensures forall i | 0 <= i < |services| :: svcDefs[i] == services[i].Published()
    {
      var defs := CollectDefinitions();
      svcDefs := defs + [SvcEndMarker()];
      PairsConcatenated(services, svcDefs);
    }

    /** The outer loop of update_svc_defs: for each service in insertion
        order, the part of its own array before the end marker, which is its
        definition alone. Nothing but the services' own arrays changes. */
    method CollectDefinitions() returns (defs: seq<SvcDef<Characteristic>>)
      requires Valid()
      modifies Repr
      ensures Valid()
      ensures forall t | t in services :: t.manager.entries == old(t.manager.entries)
      ensures |defs| == |services|
      ensures forall k | 0 <= k < |services| :: defs[k] == services[k].Published()
    {
      ghost var handed := Handed(services);
      defs := [];
      var i := 0;
      while i < |services|
        invariant 0 <= i <= |services| && Valid()
        invariant forall t | t in services :: t.manager.entries == old(t.manager.entries)
        invariant |defs| == i
        invariant forall k | 0 <= k < i :: defs[k] == handed[k][0]
      {
        var arr := FetchArray(services[i]);
        assert arr == handed[i];
        PrefixStep(defs, handed, i);
        defs := AppendUntilEnd(defs, arr);
        i := i + 1;
      }
      forall k | 0 <= k < |services|
        ensures defs[k] == services[k].Published()
      {
        assert services[k] in services;
      }
    }

    /** One step of update_svc_defs: the array services[i]->get_svc_defs()
        hands out. Only the services and their managers change, and neither
        the characteristics nor the published definitions do. */
    method FetchArray(s: Service) returns (arr: seq<SvcDef<Characteristic>>)
      requires Valid() && s in services
      modifies Repr
      ensures Valid()
      ensures forall t | t in services :: t.manager.entries == old(t.manager.entries)
      ensures arr == [Definition(s.uuid, old(s.manager.entries)), SvcEndMarker()]
    {
      arr := s.GetSvcDefs();
      forall t | t in services
        ensures t.Valid() && t.manager.entries == old(t.manager.entries)
      {
        if t != s && t.manager != s.manager {
          assert t.Valid();
        }
      }
    }
  }
}
