/** The registry of attached devices, its broadcasts, and the policies that authorise devices and interfaces. AddDevice
    is InsertDevice, then a policy, then PublishDevice, because it gives the registry's lock up in between. Insertion and
    deletion hold that lock exclusively; that a policy or a publication, which only share it, is one step too is an
    assumption of the model. */
module HostManager {
  import opened DeviceNames
  import opened HostModel
  import opened NameOrder
  import opened TypeTables
  import opened UsbModel

  class UsbHostManager {
    var devices: map<string, Device>
    var serialDevices: seq<BusAddr>
    var broadcasts: Broadcasts

    ghost function State(): HostState
      reads this
    {
      HostState(devices, serialDevices, broadcasts)
    }

    ghost predicate Valid()
      reads this
    {
      RegistryOk(State())
    }

    constructor ()
      ensures State() == HostState(map[], [], map[]) && Valid()
    {
      devices, serialDevices, broadcasts := map[], [], map[];
    }

    method PublishCommonEvent(name: string, attached: bool)
      modifies `broadcasts
      ensures broadcasts == Tell(old(broadcasts), name, Some(attached))
    {
      broadcasts := broadcasts[name := BroadcastsOf(broadcasts, name) + [attached]];
    }

    /// The registry

    // Scans every device for the address; in a valid registry that is looking its name up.
    method GetTargetDevice(busNum: byte, devAddr: byte) returns (dev: Option<Device>)
      requires Valid()
      ensures dev == if NameOf(busNum, devAddr) in devices then Some(devices[NameOf(busNum, devAddr)]) else None
    {
      var names := devices.Keys;
      while names != {}
        invariant names <= devices.Keys
        invariant NameOf(busNum, devAddr) in devices ==> NameOf(busNum, devAddr) in names
        decreases |names|
      {
        var n :| n in names;
        names := names - {n};
        NameInjective(busNum, devAddr, devices[n].busNum, devices[n].devAddr);
        if devices[n].busNum == busNum && devices[n].devAddr == devAddr {
          return Some(devices[n]);
        }
      }
      return None;
    }

    // ports is None when the serial manager is missing or does not answer.
    method AddUsbSerialDevice(dev: Device, ports: Option<seq<BusAddr>>)
      modifies `serialDevices
      ensures serialDevices == old(serialDevices) +
                (if HasPort(ports, AddressOf(dev)) && AddressOf(dev) !in old(serialDevices) then [AddressOf(dev)] else [])
    {
      if ports == None {
        return;
      }
      for i := 0 to |ports.value|
        invariant serialDevices == old(serialDevices)
        invariant AddressOf(dev) !in ports.value[..i]
      {
        if ports.value[i] == AddressOf(dev) {
          if AddressOf(dev) !in serialDevices {
            serialDevices := serialDevices + [AddressOf(dev)];
          }
          return;
        }
      }
    }

    // The first locked part of AddDevice: a device that is already there is replaced.
    method InsertDevice(dev: Device, ports: Option<seq<BusAddr>>)
      requires Valid()
      modifies this
      ensures Valid()
      ensures State() == Inserted(old(State()), dev, ports)
    {
      InsertedKeepsRegistry(State(), dev, ports);
      var name := NameOf(dev.busNum, dev.devAddr);
      RemovedThenPut(devices, name, dev.(status := NewArrived));
      if name in devices {
        devices := devices - {name};
      }
      devices := devices[name := dev.(status := NewArrived)];
      AddUsbSerialDevice(dev, ports);
    }

    // The last locked part of AddDevice, which looks the name up again.
    method PublishDevice(name: string) returns (found: bool)
      requires Valid()
      modifies this
      ensures Valid() && found == (name in old(devices))
      ensures State() == Published(old(State()), name)
    {
      if name !in devices {
        return false;
      }
      if devices[name].status != Disabled {
        devices := devices[name := devices[name].(status := Enabled)];
        PublishCommonEvent(name, true);
      }
      return true;
    }

    method DelDevice(busNum: byte, devNum: byte) returns (found: bool)
      requires Valid()
      modifies this
      ensures Valid() && found == (NameOf(busNum, devNum) in old(devices))
      ensures State() == Deleted(old(State()), busNum, devNum)
    {
      DeletedKeepsRegistry(State(), busNum, devNum);
      var name := NameOf(busNum, devNum);
      if name !in devices {
        return false;
      }
      var devOld := devices[name];
      NameInjective(busNum, devNum, devOld.busNum, devOld.devAddr);
      if devOld.status == Enabled {
        PublishCommonEvent(name, false);
      }
      RemoveSerialDevice(AddressOf(devOld));
      devices := devices - {name};
      return true;
    }

    method RemoveSerialDevice(a: BusAddr)
      modifies `serialDevices
      ensures serialDevices == WithoutFirst(old(serialDevices), a)
    {
      for i := 0 to |serialDevices|
        invariant serialDevices == old(serialDevices)
        invariant forall j :: 0 <= j < i ==> serialDevices[j] != a
      {
        if serialDevices[i] == a {
          WithoutFirstAt(serialDevices, i);
          serialDevices := serialDevices[..i] + serialDevices[i + 1..];
          return;
        }
      }
      WithoutFirstAbsent(serialDevices, a);
    }

    /// Authorising devices

    method UsbDeviceAuthorize(busNum: byte, devAddr: byte, authorized: bool, hdi: Hdi)
      requires Valid()
      modifies `devices, `broadcasts
      ensures Valid()
      ensures State() == Authorized(old(State()), NameOf(busNum, devAddr), authorized, hdi)
    {
      var name := NameOf(busNum, devAddr);
      AuthorizedKeepsRegistry(State(), name, authorized, hdi);
      if name !in devices {
        return;
      }
      var authorizeStatus := devices[name].status;
      if (authorized && authorizeStatus != Disabled) || (!authorized && authorizeStatus == Disabled) {
        NothingToAuthorize(State(), name, authorized, hdi);
        return;
      }
      if !hdi.authorize(name, authorized) {
        NothingToAuthorize(State(), name, authorized, hdi);
        return;
      }
      if authorizeStatus != NewArrived {
        PublishCommonEvent(name, authorized);
      }
      devices := devices[name := devices[name].(status := if authorized then Enabled else Disabled)];
    }

    // The body of the loop over devices, for one class pattern.
    method ManageOneDevice(n: string, pattern: Pattern, disable: bool, serialDisabled: bool, hdi: Hdi)
      requires Valid() && n in devices
      modifies `devices, `broadcasts
      ensures Valid() && devices.Keys == old(devices.Keys)
      ensures State() == Asked(old(State()), n, Hit(PatternHits(old(State()), pattern, disable, serialDisabled, hdi), n), hdi)
    {
      var dev := devices[n];
      if serialDisabled && AddressOf(dev) in serialDevices {
        return;
      }
      if Matches(pattern, TripleOf(dev)) {
        if !hdi.open(n) {
          return;
        }
        UsbDeviceAuthorize(dev.busNum, dev.devAddr, !disable, hdi);
      }
    }

    // All devices of one class pattern.
    method ManageDeviceTypeImpl(table: TypeMap, interfaceType: InterfaceType, disable: bool, serialDisabled: bool,
                                hdi: Hdi)
      requires Valid()
      modifies `devices, `broadcasts
      ensures Valid()
      ensures interfaceType in table ==>
                Managed(old(State()), State(),
                        PatternHits(old(State()), table[interfaceType], disable, serialDisabled, hdi), hdi)
      ensures interfaceType !in table ==> State() == old(State())
    {
      if interfaceType !in table {
        return;
      }
      ghost var before := State();
      ghost var pattern := table[interfaceType];
      ghost var hits := PatternHits(before, pattern, disable, serialDisabled, hdi);
      var names := devices.Keys;
      ManagedNone(before, Except(hits, names), hdi);
      while names != {}
        invariant Valid() && names <= devices.Keys
        invariant Managed(before, State(), Except(hits, names), hdi)
        decreases names
      {
        var n :| n in names;
        ghost var between := State();
        ManageOneDevice(n, table[interfaceType], disable, serialDisabled, hdi);
        PatternOneMore(before, between, State(), pattern, disable, serialDisabled, names, n, hdi);
        names := names - {n};
      }
      ManagedSame(before, State(), Except(hits, {}), hits, hdi);
    }

    /// The serial policy and the trust list

    method ManageUsbSerialDevice(disable: bool, hdi: Hdi)
      requires Valid()
      modifies `devices, `broadcasts
      ensures Valid()
      ensures Managed(old(State()), State(), SerialHits(old(State()), |serialDevices|, disable), hdi)
    {
      ghost var before := State();
      ManagedNone(before, SerialHits(before, 0, disable), hdi);
      for i := 0 to |serialDevices|
        invariant Valid()
        invariant Managed(before, State(), SerialHits(before, i, disable), hdi)
      {
        ghost var between := State();
        UsbDeviceAuthorize(serialDevices[i].busNum, serialDevices[i].devAddr, !disable, hdi);
        SerialOneMore(before, between, i, disable, hdi);
      }
    }

    // The body of the loop over devices, for one vendor and product.
    method ManageOneDeviceOfId(n: string, id: UsbDeviceId, disable: bool, hdi: Hdi) returns (ok: bool)
      requires Valid() && n in devices
      modifies `devices, `broadcasts
      ensures Valid() && devices.Keys == old(devices.Keys)
      ensures ok <==> (HasId(old(devices)[n], id) ==> hdi.open(n))
      ensures State() == if ok then Asked(old(State()), n, Hit(IdHits(old(State()), id, disable), n), hdi)
                         else old(State())
    {
      var dev := devices[n];
      if dev.baseClass == BASE_CLASS_HUB {
        return true;
      }
      if dev.vendorId == id.vendorId && dev.productId == id.productId {
        if !hdi.open(n) {
          return false;
        }
        UsbDeviceAuthorize(dev.busNum, dev.devAddr, !disable, hdi);
      }
      return true;
    }

    // All devices of one vendor and product, in the order of their names; the first that does not open ends it, and
    // those from there on stay as they were.
    method ManageDeviceImpl(id: UsbDeviceId, disable: bool, hdi: Hdi) returns (ok: bool, ghost left: set<string>)
      requires Valid()
      modifies `devices, `broadcasts
      ensures Valid()
      ensures Managed(old(State()), State(), Except(IdHits(old(State()), id, disable), left), hdi)
      ensures ok <==> forall n :: n in old(devices) && HasId(old(devices)[n], id) ==> hdi.open(n)
      ensures if ok then left == {} else exists n :: StopsAt(old(State()), n, left, id, hdi)
    {
      ghost var before := State();
      var names := devices.Keys;
      ManagedNone(before, Except(IdHits(before, id, disable), names), hdi);
      while names != {}
        invariant Valid() && names <= devices.Keys
        invariant IdPassSoFar(before, State(), names, id, disable, hdi)
        decreases names
      {
        SomeIsFirst(names);
        var n :| n in names && IsFirst(n, names);
        ghost var between := State();
        var done := ManageOneDeviceOfId(n, id, disable, hdi);
        if !done {
          StopsAtFirst(before, between, names, n, id, disable, hdi);
          return false, names;
        }
        IdPassOneMore(before, between, State(), id, disable, names, n, hdi);
        names := names - {n};
      }
      return true, {};
    }

    /// Marking interfaces

    // The loop over the interfaces of one configuration.
    method MarkInterfaces(interfaces: seq<Interface>, pattern: Pattern, disable: bool) returns (marked: seq<Interface>)
      ensures marked == Marked(interfaces, PatternMark(pattern, disable))
    {
      marked := interfaces;
      for i := 0 to |interfaces|
        invariant |marked| == |interfaces|
        invariant forall j :: 0 <= j < i ==> marked[j] == PatternMark(pattern, disable)(interfaces[j])
        invariant forall j :: i <= j < |interfaces| ==> marked[j] == interfaces[j]
      {
        if Matches(pattern, InterfaceTriple(marked[i])) {
          marked := marked[i := marked[i].(authorized := !disable)];
        }
      }
    }

    // The body of the loop over devices, for one interface pattern.
    method ManageOneDeviceInterfaces(n: string, pattern: Pattern, disable: bool, hdi: Hdi)
      requires n in devices
      modifies `devices
      ensures devices == old(devices)[n := MarkedDevice(old(devices)[n], n, PatternMark(pattern, disable), hdi)]
    {
      var dev := devices[n];
      if dev.baseClass == BASE_CLASS_HUB || dev.status == Disabled {
        return;
      }
      if hdi.activeConfig(n) == None {
        return;
      }
      var configIndex: int := hdi.activeConfig(n).value;
      var index := (configIndex - 1) % 0x100;
      if index >= |dev.configs| {
        return;
      }
      var marked := MarkInterfaces(dev.configs[index].interfaces, pattern, disable);
      devices := devices[n := dev.(configs := dev.configs[index := dev.configs[index].(interfaces := marked)])];
    }

    // All interfaces of one class pattern.
    method ManageInterfaceTypeImpl(table: TypeMap, interfaceType: InterfaceType, disable: bool, hdi: Hdi)
      requires Valid()
      modifies `devices
      ensures Valid()
      ensures interfaceType in table ==>
                Marking(old(State()), State(), PatternMark(table[interfaceType], disable), hdi)
      ensures interfaceType !in table ==> State() == old(State())
    {
      if interfaceType !in table {
        return;
      }
      ghost var mark := PatternMark(table[interfaceType], disable);
      ghost var before := devices;
      var names := devices.Keys;
      while names != {}
        invariant names <= devices.Keys
        invariant MarkedExcept(before, devices, names, mark, hdi)
        decreases names
      {
        var n :| n in names;
        MarkOneMoreDevice(before, devices, names, n, mark, hdi);
        names := names - {n};
        ManageOneDeviceInterfaces(n, table[interfaceType], disable, hdi);
      }
    }

    /// The type policy

    // The body of the loop over entries.
    method ManageOneType(table: TypeMap, k: InterfaceType, isDev: bool, execDisable: bool, serialDisabled: bool, hdi: Hdi)
      requires Valid() && k in table
      modifies `devices, `broadcasts
      ensures Valid()
      ensures EntryDone(old(State()), State(), table[k], isDev, execDisable, serialDisabled, hdi)
    {
      if isDev {
        ManageDeviceTypeImpl(table, k, execDisable, serialDisabled, hdi);
      } else {
        ManageInterfaceTypeImpl(table, k, execDisable, hdi);
      }
    }

    // One turn of the loop over entries, when the entries outside keys are done.
    method ManageNextType(ghost before: HostState, ghost keys: set<InterfaceType>, ghost disableType: seq<UsbDeviceType>,
                          disable: bool, table: TypeMap, k: InterfaceType, canFind: bool, isDev: bool,
                          serialDisabled: bool, hdi: Hdi)
      requires Valid() && Disjoint(table) && k in keys && keys <= table.Keys
      requires canFind == IsMatching(table, disableType, isDev, k)
      requires TableDone(before, State(), disableType, disable, table - keys, isDev, serialDisabled, hdi)
      modifies `devices, `broadcasts
      ensures Valid()
      ensures TableDone(before, State(), disableType, disable, table - (keys - {k}), isDev, serialDisabled, hdi)
    {
      var execDisable := if canFind then disable else !disable;
      ghost var between := State();
      ManageOneType(table, k, isDev, execDisable, serialDisabled, hdi);
      EntryOneMore(before, between, State(), table, keys, k, disableType, disable, isDev, serialDisabled, hdi);
    }

    // The entries in whatever order the unordered map yields them.
    method ExecuteManageDeviceType(disableType: seq<UsbDeviceType>, disable: bool, table: TypeMap, isDev: bool,
                                   serialDisabled: bool, hdi: Hdi)
      requires Valid() && Disjoint(table)
      modifies `devices, `broadcasts
      ensures Valid()
      ensures TableDone(old(State()), State(), disableType, disable, table, isDev, serialDisabled, hdi)
    {
      ghost var before := State();
      var interfaceTypes := FindMatchingTypes(table, isDev, disableType);
      var keys := table.Keys;
      NoEntriesDone(before, disableType, disable, table, isDev, serialDisabled, hdi);
      while keys != {}
        invariant Valid() && keys <= table.Keys
        invariant TableDone(before, State(), disableType, disable, table - keys, isDev, serialDisabled, hdi)
        decreases keys
      {
        var k :| k in keys;
        ManageNextType(before, keys, disableType, disable, table, k, k in interfaceTypes, isDev, serialDisabled, hdi);
        keys := keys - {k};
      }
      assert table - {} == table;
    }

    // The lists of types, devices first, then the interfaces of the devices that are not disabled.
    method ExecuteManageInterfaceType(disableType: seq<UsbDeviceType>, disable: bool, serialDisabled: bool, hdi: Hdi)
      requires Valid()
      modifies `devices, `broadcasts
      ensures Valid()
      ensures PolicyDone(old(State()), State(), disableType, disable, serialDisabled, hdi)
    {
      TablesAreDisjoint();
      ghost var before := State();
      ExecuteManageDeviceType(disableType, disable, D_TYPE_MAP, true, serialDisabled, hdi);
      ghost var between := State();
      ExecuteManageDeviceType(disableType, disable, G_TYPE_MAP, false, serialDisabled, hdi);
      PolicyInTwoParts(before, between, State(), disableType, disable, serialDisabled, hdi);
    }
  }

  // All devices but some are marked.
  ghost predicate MarkedExcept(before: map<string, Device>, after: map<string, Device>, names: set<string>, mark: Mark,
                               hdi: Hdi)
  {
    && after.Keys == before.Keys
    && forall n :: n in before ==> after[n] == if n in names then before[n] else MarkedDevice(before[n], n, mark, hdi)
  }

  lemma MarkOneMoreDevice(before: map<string, Device>, between: map<string, Device>, names: set<string>, n: string,
                          mark: Mark, hdi: Hdi)
    requires MarkedExcept(before, between, names, mark, hdi) && n in names && n in before
    ensures MarkedExcept(before, between[n := MarkedDevice(between[n], n, mark, hdi)], names - {n}, mark, hdi)
  {
  }

  // Every device of the vendor and product among some names opens.
  ghost predicate AllOpen(s: HostState, names: set<string>, id: UsbDeviceId, hdi: Hdi)
  {
    forall n :: n in names && n in s.devices && HasId(s.devices[n], id) ==> hdi.open(n)
  }

  // The first devices by name, all but names, are done.
  ghost predicate IdPassSoFar(before: HostState, between: HostState, names: set<string>, id: UsbDeviceId, disable: bool,
                              hdi: Hdi)
  {
    && Managed(before, between, Except(IdHits(before, id, disable), names), hdi)
    && names <= before.devices.Keys && AllOpen(before, before.devices.Keys - names, id, hdi)
    && forall m, k :: m in before.devices.Keys - names && k in names ==> Before(m, k)
  }

  lemma SameId(before: HostState, between: HostState, hits: Hits, id: UsbDeviceId, hdi: Hdi, n: string)
    requires Managed(before, between, hits, hdi) && n in between.devices
    ensures n in before.devices && HasId(between.devices[n], id) == HasId(before.devices[n], id)
  {
  }

  lemma IdPassOneMore(before: HostState, between: HostState, after: HostState, id: UsbDeviceId, disable: bool,
                      names: set<string>, n: string, hdi: Hdi)
    requires IdPassSoFar(before, between, names, id, disable, hdi) && IsFirst(n, names) && n in between.devices
    requires HasId(between.devices[n], id) ==> hdi.open(n)
    requires after == Asked(between, n, Hit(IdHits(between, id, disable), n), hdi)
    ensures IdPassSoFar(before, after, names - {n}, id, disable, hdi)
  {
    SameId(before, between, Except(IdHits(before, id, disable), names), id, hdi, n);
    IdOneMore(before, between, after, id, disable, names, n, hdi);
  }

  // The first device of the vendor and product, by name, that does not open, and the names from it on.
  ghost predicate StopsAt(s: HostState, n: string, left: set<string>, id: UsbDeviceId, hdi: Hdi)
  {
    && n in s.devices && HasId(s.devices[n], id) && !hdi.open(n)
    && (forall m :: m in s.devices && Before(m, n) && HasId(s.devices[m], id) ==> hdi.open(m))
    && left == set m | m in s.devices && !Before(m, n)
  }

  lemma StopsAtFirst(before: HostState, between: HostState, names: set<string>, n: string, id: UsbDeviceId,
                     disable: bool, hdi: Hdi)
    requires IdPassSoFar(before, between, names, id, disable, hdi) && IsFirst(n, names) && n in between.devices
    requires HasId(between.devices[n], id) && !hdi.open(n)
    ensures StopsAt(before, n, names, id, hdi)
  {
    SameId(before, between, Except(IdHits(before, id, disable), names), id, hdi, n);
    FromFirst(before.devices.Keys, names, n);
    forall m | m in before.devices && Before(m, n) && HasId(before.devices[m], id) ensures hdi.open(m) {
      assert m !in names;
    }
  }

  lemma RemovedThenPut(devices: map<string, Device>, name: string, dev: Device)
    ensures (devices - {name})[name := dev] == devices[name := dev]
  {
  }

  // The keys of the entries that hold a type of the list. No type is held by two, so stopping at the first entry found,
  // in any order, misses none.
  method FindMatchingTypes(table: TypeMap, isDev: bool, disableType: seq<UsbDeviceType>)
    returns (matchingTypes: seq<InterfaceType>)
    requires Disjoint(table)
    ensures forall k :: k in matchingTypes <==> k in table && IsMatching(table, disableType, isDev, k)
  {
    matchingTypes := [];
    for i := 0 to |disableType|
      invariant forall k :: k in matchingTypes <==> k in table && IsMatching(table, disableType[..i], isDev, k)
    {
      assert forall k :: k in table ==>
        (IsMatching(table, disableType[..i + 1], isDev, k) <==>
         || IsMatching(table, disableType[..i], isDev, k)
         || (disableType[i].isDeviceType == isDev && Matches(table[k], disableType[i].triple)));
      if disableType[i].isDeviceType == isDev {
        var found := FindType(table, disableType[i].triple);
        if found.Some? {
          matchingTypes := matchingTypes + [found.value];
        }
      }
    }
    assert disableType[..|disableType|] == disableType;
  }

  // The search of the map, which stops at the first hit.
  method FindType(table: TypeMap, t: Triple) returns (found: Option<InterfaceType>)
    requires Disjoint(table)
    ensures forall k :: found == Some(k) <==> k in table && Matches(table[k], t)
  {
    var keys := table.Keys;
    while keys != {}
      invariant keys <= table.Keys
      invariant forall k :: k in table && k !in keys ==> !Matches(table[k], t)
      decreases keys
    {
      var k :| k in keys;
      keys := keys - {k};
      if Matches(table[k], t) {
        return Some(k);
      }
    }
    return None;
  }

  lemma AskOneMore(before: HostState, between: HostState, hits: Hits, names: set<string>, n: string, hdi: Hdi)
    requires Managed(before, between, Except(hits, names), hdi) && n in names
    ensures Managed(before, Asked(between, n, Hit(hits, n), hdi), Except(hits, names - {n}), hdi)
  {
    if Hit(hits, n) == None {
      ManagedSame(before, between, Except(hits, names), Except(hits, names - {n}), hdi);
    } else {
      AuthorizedIsManaged(between, n, hits[n], hdi);
      ManagedJoin(before, between, Authorized(between, n, hits[n], hdi), Except(hits, names), map[n := hits[n]],
                  Except(hits, names - {n}), hdi);
    }
  }

  // Deciding on the changed state or on the original one is the same.
  lemma PatternHitsSame(before: HostState, between: HostState, hits: Hits, pattern: Pattern, disable: bool,
                        serialDisabled: bool, n: string, hdi: Hdi)
    requires Managed(before, between, hits, hdi)
    ensures Hit(PatternHits(between, pattern, disable, serialDisabled, hdi), n) ==
            Hit(PatternHits(before, pattern, disable, serialDisabled, hdi), n)
  {
    assert n in before.devices <==> n in between.devices;
  }

  lemma PatternOneMore(before: HostState, between: HostState, after: HostState, pattern: Pattern, disable: bool,
                       serialDisabled: bool, names: set<string>, n: string, hdi: Hdi)
    requires var hits := PatternHits(before, pattern, disable, serialDisabled, hdi);
             Managed(before, between, Except(hits, names), hdi) && n in names
    requires after == Asked(between, n, Hit(PatternHits(between, pattern, disable, serialDisabled, hdi), n), hdi)
    ensures Managed(before, after, Except(PatternHits(before, pattern, disable, serialDisabled, hdi), names - {n}), hdi)
  {
    var hits := PatternHits(before, pattern, disable, serialDisabled, hdi);
    PatternHitsSame(before, between, Except(hits, names), pattern, disable, serialDisabled, n, hdi);
    AskOneMore(before, between, hits, names, n, hdi);
  }

  /// One step of the serial policy and of the trust list

  lemma SerialOneMore(before: HostState, between: HostState, i: nat, disable: bool, hdi: Hdi)
    requires RegistryOk(before) && i < |before.serialDevices|
    requires Managed(before, between, SerialHits(before, i, disable), hdi)
    ensures var a := before.serialDevices[i];
            Managed(before, Authorized(between, NameOf(a.busNum, a.devAddr), !disable, hdi),
                    SerialHits(before, i + 1, disable), hdi)
  {
    var a := before.serialDevices[i];
    var name := NameOf(a.busNum, a.devAddr);
    var first, second, both := SerialHits(before, i, disable), map[name := !disable], SerialHits(before, i + 1, disable);
    AuthorizedIsManaged(between, name, !disable, hdi);
    forall n | n in before.devices
      ensures Agree(Hit(first, n), Hit(second, n)) && Hit(both, n) == Either(Hit(first, n), Hit(second, n))
    {
      SerialHitsOneMore(before, i, disable, n);
    }
    ManagedJoin(before, between, Authorized(between, name, !disable, hdi), first, second, both, hdi);
  }

  lemma SerialHitsOneMore(s: HostState, i: nat, disable: bool, n: string)
    requires RegistryOk(s) && i < |s.serialDevices| && n in s.devices
    ensures var a := s.serialDevices[i];
            Hit(SerialHits(s, i + 1, disable), n) ==
            Either(Hit(SerialHits(s, i, disable), n), Hit(map[NameOf(a.busNum, a.devAddr) := !disable], n))
  {
    var a := s.serialDevices[i];
    NameInjective(a.busNum, a.devAddr, s.devices[n].busNum, s.devices[n].devAddr);
  }

  lemma IdOneMore(before: HostState, between: HostState, after: HostState, id: UsbDeviceId, disable: bool,
                  names: set<string>, n: string, hdi: Hdi)
    requires Managed(before, between, Except(IdHits(before, id, disable), names), hdi) && n in names
    requires after == Asked(between, n, Hit(IdHits(between, id, disable), n), hdi)
    ensures Managed(before, after, Except(IdHits(before, id, disable), names - {n}), hdi)
  {
    assert n in before.devices <==> n in between.devices;
    assert Hit(IdHits(between, id, disable), n) == Hit(IdHits(before, id, disable), n);
    AskOneMore(before, between, IdHits(before, id, disable), names, n, hdi);
  }

  /// One entry of the type policy

  lemma KnownOneMore(table: TypeMap, keys: set<InterfaceType>, k: InterfaceType, disableType: seq<UsbDeviceType>,
                     isDev: bool, t: Triple)
    requires Disjoint(table) && k in keys && keys <= table.Keys
    ensures Known(table - (keys - {k}), t) <==> Known(table - keys, t) || Matches(table[k], t)
    ensures !(Known(table - keys, t) && Matches(table[k], t))
    ensures Listed(table - (keys - {k}), disableType, isDev, t) <==>
            || Listed(table - keys, disableType, isDev, t)
            || (Matches(table[k], t) && IsMatching(table, disableType, isDev, k))
    ensures Listed(table - keys, disableType, isDev, t) ==> Known(table - keys, t)
  {
    var fewer, more := table - keys, table - (keys - {k});
    assert forall j :: j in more <==> j in fewer || j == k;
    assert forall j :: j in fewer ==> more[j] == fewer[j] == table[j] && j != k;
    assert more[k] == table[k];
    assert forall j :: j in fewer ==>
      IsMatching(fewer, disableType, isDev, j) == IsMatching(more, disableType, isDev, j);
    assert IsMatching(more, disableType, isDev, k) == IsMatching(table, disableType, isDev, k);
  }

  lemma HitsOneMore(s: HostState, table: TypeMap, keys: set<InterfaceType>, k: InterfaceType,
                    disableType: seq<UsbDeviceType>, disable: bool, serialDisabled: bool, hdi: Hdi, n: string)
    requires Disjoint(table) && k in keys && keys <= table.Keys && n in s.devices
    ensures var execDisable := if IsMatching(table, disableType, true, k) then disable else !disable;
            var first := Hit(TypeHits(s, table - keys, disableType, disable, serialDisabled, hdi), n);
            var second := Hit(PatternHits(s, table[k], execDisable, serialDisabled, hdi), n);
            && Agree(first, second)
            && Hit(TypeHits(s, table - (keys - {k}), disableType, disable, serialDisabled, hdi), n) ==
               Either(first, second)
  {
    KnownOneMore(table, keys, k, disableType, true, TripleOf(s.devices[n]));
  }

  lemma TypeOneMore(before: HostState, between: HostState, after: HostState, table: TypeMap, keys: set<InterfaceType>,
                    k: InterfaceType, disableType: seq<UsbDeviceType>, disable: bool, serialDisabled: bool, hdi: Hdi)
    requires Disjoint(table) && k in keys && keys <= table.Keys
    requires Managed(before, between, TypeHits(before, table - keys, disableType, disable, serialDisabled, hdi), hdi)
    requires var execDisable := if IsMatching(table, disableType, true, k) then disable else !disable;
             Managed(between, after, PatternHits(between, table[k], execDisable, serialDisabled, hdi), hdi)
    ensures Managed(before, after,
                    TypeHits(before, table - (keys - {k}), disableType, disable, serialDisabled, hdi), hdi)
  {
    var execDisable := if IsMatching(table, disableType, true, k) then disable else !disable;
    var first := TypeHits(before, table - keys, disableType, disable, serialDisabled, hdi);
    var second := PatternHits(between, table[k], execDisable, serialDisabled, hdi);
    var both := TypeHits(before, table - (keys - {k}), disableType, disable, serialDisabled, hdi);
    forall n | n in before.devices
      ensures Agree(Hit(first, n), Hit(second, n)) && Hit(both, n) == Either(Hit(first, n), Hit(second, n))
    {
      HitsOneMore(before, table, keys, k, disableType, disable, serialDisabled, hdi, n);
      PatternHitsSame(before, between, first, table[k], execDisable, serialDisabled, n, hdi);
    }
    ManagedJoin(before, between, after, first, second, both, hdi);
  }

  lemma EntryOneMore(before: HostState, between: HostState, after: HostState, table: TypeMap, keys: set<InterfaceType>,
                     k: InterfaceType, disableType: seq<UsbDeviceType>, disable: bool, isDev: bool,
                     serialDisabled: bool, hdi: Hdi)
    requires Disjoint(table) && k in keys && keys <= table.Keys
    requires TableDone(before, between, disableType, disable, table - keys, isDev, serialDisabled, hdi)
    requires var execDisable := if IsMatching(table, disableType, isDev, k) then disable else !disable;
             EntryDone(between, after, table[k], isDev, execDisable, serialDisabled, hdi)
    ensures TableDone(before, after, disableType, disable, table - (keys - {k}), isDev, serialDisabled, hdi)
  {
    if isDev {
      TypeOneMore(before, between, after, table, keys, k, disableType, disable, serialDisabled, hdi);
    } else {
      MarkOneMore(before, between, after, table, keys, k, disableType, disable, hdi);
    }
  }

  lemma NoEntriesDone(s: HostState, disableType: seq<UsbDeviceType>, disable: bool, table: TypeMap, isDev: bool,
                      serialDisabled: bool, hdi: Hdi)
    ensures TableDone(s, s, disableType, disable, table - table.Keys, isDev, serialDisabled, hdi)
  {
    assert table - table.Keys == map[];
    if isDev {
      ManagedNone(s, TypeHits(s, map[], disableType, disable, serialDisabled, hdi), hdi);
    } else {
      MarkingNone(s, TypeMark(map[], disableType, disable), hdi);
    }
  }

  lemma MarkOneMore(before: HostState, between: HostState, after: HostState, table: TypeMap, keys: set<InterfaceType>,
                    k: InterfaceType, disableType: seq<UsbDeviceType>, disable: bool, hdi: Hdi)
    requires Disjoint(table) && k in keys && keys <= table.Keys
    requires Marking(before, between, TypeMark(table - keys, disableType, disable), hdi)
    requires var execDisable := if IsMatching(table, disableType, false, k) then disable else !disable;
             Marking(between, after, PatternMark(table[k], execDisable), hdi)
    ensures Marking(before, after, TypeMark(table - (keys - {k}), disableType, disable), hdi)
  {
    var execDisable := if IsMatching(table, disableType, false, k) then disable else !disable;
    var first := TypeMark(table - keys, disableType, disable);
    var second := PatternMark(table[k], execDisable);
    var both := TypeMark(table - (keys - {k}), disableType, disable);
    forall intf ensures both(intf) == second(first(intf)) {
      KnownOneMore(table, keys, k, disableType, false, InterfaceTriple(intf));
    }
    MarkingJoin(before, between, after, first, second, both, hdi);
  }
}
