/** What the policies make of each device, in terms of its own class, vendor, product and address. */
module HostPolicies {
  import opened HostModel
  import opened HostRuns
  import opened TypeCoverage
  import opened TypeTables
  import opened UsbModel

  // A device's answer to what is asked of it, if anything: only a disabled device can be enabled and only one that is
  // not disabled can be disabled, if the driver accepts; the change is announced unless the device has just arrived.
  ghost predicate Responds(before: HostState, after: HostState, n: string, wanted: Option<bool>, hdi: Hdi)
    requires n in before.devices && n in after.devices
  {
    var status := before.devices[n].status;
    var changes := wanted.Some? && (wanted.value <==> status == Disabled) && hdi.authorize(n, wanted.value);
    && after.devices[n].status == (if !changes then status else if wanted.value then Enabled else Disabled)
    && BroadcastsOf(after.broadcasts, n) ==
       BroadcastsOf(before.broadcasts, n) + (if changes && status != NewArrived then [wanted.value] else [])
  }

  // Where there is no device, none appears and nothing is announced.
  ghost predicate StaysAbsent(before: HostState, after: HostState, n: string)
  {
    n !in after.devices && BroadcastsOf(after.broadcasts, n) == BroadcastsOf(before.broadcasts, n)
  }

  lemma ManagedResponds(before: HostState, after: HostState, hits: Hits, hdi: Hdi, n: string)
    requires Managed(before, after, hits, hdi)
    ensures if n in before.devices
            then && n in after.devices && Responds(before, after, n, Hit(hits, n), hdi)
                 && after.devices[n] == before.devices[n].(status := after.devices[n].status)
            else StaysAbsent(before, after, n)
  {
    assert n in before.devices <==> n in after.devices;
  }

  /// One vendor and product

  // A pass for a vendor and product asks exactly its devices that are no hubs, but for those it did not get to.
  lemma IdPassExactly(before: HostState, after: HostState, id: UsbDeviceId, disable: bool, left: set<string>, hdi: Hdi,
                      n: string)
    requires Managed(before, after, Except(IdHits(before, id, disable), left), hdi)
    ensures if n in before.devices
            then var dev := before.devices[n];
                 var asked := dev.vendorId == id.vendorId && dev.productId == id.productId && dev.baseClass != 9;
                 && n in after.devices
                 && Responds(before, after, n, if asked && n !in left then Some(!disable) else None, hdi)
                 && after.devices[n] == dev.(status := after.devices[n].status)
            else StaysAbsent(before, after, n)
  {
    ManagedResponds(before, after, Except(IdHits(before, id, disable), left), hdi, n);
  }

  // So after a whole pass with a driver that accepts, each such device is disabled, or if the pass enables then not
  // disabled; and every other device is as it was.
  lemma {:induction false} IdPassDone(before: HostState, after: HostState, id: UsbDeviceId, disable: bool, hdi: Hdi, n: string)
    requires Managed(before, after, Except(IdHits(before, id, disable), {}), hdi)
    requires n in before.devices && hdi.authorize(n, !disable)
    ensures n in after.devices
    ensures var dev := before.devices[n];
            after.devices[n] ==
            if dev.vendorId != id.vendorId || dev.productId != id.productId || dev.baseClass == 9 then dev
            else if disable then dev.(status := Disabled)
            else if dev.status == Disabled then dev.(status := Enabled) else dev
  {
    IdPassExactly(before, after, id, disable, {}, hdi, n);
  }

  /// Serial devices

  // The serial policy asks exactly the devices whose address is in the serial list.
  lemma SerialPassExactly(before: HostState, after: HostState, disable: bool, hdi: Hdi, n: string)
    requires Managed(before, after, SerialHits(before, |before.serialDevices|, disable), hdi)
    ensures if n in before.devices
            then var dev := before.devices[n];
                 var asked := BusAddr(dev.busNum, dev.devAddr) in before.serialDevices;
                 && n in after.devices && Responds(before, after, n, if asked then Some(!disable) else None, hdi)
                 && after.devices[n] == dev.(status := after.devices[n].status)
            else StaysAbsent(before, after, n)
  {
    ManagedResponds(before, after, SerialHits(before, |before.serialDevices|, disable), hdi, n);
  }

  /// The type policy

  predicate ListsDevice(disableType: seq<UsbDeviceType>, t: Triple)
  {
    exists i :: 0 <= i < |disableType| && disableType[i].isDeviceType && SameDeviceClass(disableType[i].triple, t)
  }

  predicate ListsInterface(disableType: seq<UsbDeviceType>, t: Triple)
  {
    exists i :: 0 <= i < |disableType| && !disableType[i].isDeviceType && SameInterfaceClass(disableType[i].triple, t)
  }

  lemma DeviceListed(disableType: seq<UsbDeviceType>, t: Triple)
    ensures Known(D_TYPE_MAP, t) <==> SameDeviceClass(t, t)
    ensures Listed(D_TYPE_MAP, disableType, true, t) <==> ListsDevice(disableType, t)
  {
    DeviceTableCovers(t, t);
    assert Known(D_TYPE_MAP, t) <==> ShareEntry(D_TYPE_MAP, t, t);
    forall i | 0 <= i < |disableType|
      ensures ShareEntry(D_TYPE_MAP, disableType[i].triple, t) <==> SameDeviceClass(disableType[i].triple, t)
    {
      DeviceTableCovers(disableType[i].triple, t);
    }
    ListedShares(D_TYPE_MAP, disableType, true, t);
  }

  lemma InterfaceListed(disableType: seq<UsbDeviceType>, t: Triple)
    ensures Known(G_TYPE_MAP, t) <==> SameInterfaceClass(t, t)
    ensures Listed(G_TYPE_MAP, disableType, false, t) <==> ListsInterface(disableType, t)
  {
    InterfaceTableCovers(t, t);
    assert Known(G_TYPE_MAP, t) <==> ShareEntry(G_TYPE_MAP, t, t);
    forall i | 0 <= i < |disableType|
      ensures ShareEntry(G_TYPE_MAP, disableType[i].triple, t) <==> SameInterfaceClass(disableType[i].triple, t)
    {
      InterfaceTableCovers(disableType[i].triple, t);
    }
    ListedShares(G_TYPE_MAP, disableType, false, t);
  }

  lemma ListedShares(table: TypeMap, disableType: seq<UsbDeviceType>, isDev: bool, t: Triple)
    ensures Listed(table, disableType, isDev, t) <==>
            exists i :: 0 <= i < |disableType| && disableType[i].isDeviceType == isDev &&
                        ShareEntry(table, disableType[i].triple, t)
  {
    if i :| 0 <= i < |disableType| && disableType[i].isDeviceType == isDev && ShareEntry(table, disableType[i].triple, t) {
      var k :| k in table && Matches(table[k], disableType[i].triple) && Matches(table[k], t);
      assert IsMatching(table, disableType, isDev, k);
    }
    if k :| k in table && Matches(table[k], t) && IsMatching(table, disableType, isDev, k) {
      var i :| 0 <= i < |disableType| && disableType[i].isDeviceType == isDev && Matches(table[k], disableType[i].triple);
      assert ShareEntry(table, disableType[i].triple, t);
    }
  }

  // Marking interfaces leaves the answer alone.
  lemma MarkedResponds(before: HostState, after: HostState, n: string, hits: Hits, mark: Mark, hdi: Hdi)
    requires n in before.devices && n in after.devices
    requires after.devices[n] == MarkedDevice(DeviceUnder(before.devices[n], n, Hit(hits, n), hdi), n, mark, hdi)
    requires BroadcastsOf(after.broadcasts, n) ==
             Told(BroadcastsOf(before.broadcasts, n), NewsOf(before.devices, n, hits, hdi))
    ensures Responds(before, after, n, Hit(hits, n), hdi)
  {
    assert after.devices[n].status == DeviceUnder(before.devices[n], n, Hit(hits, n), hdi).status;
  }

  lemma PolicyResponds(before: HostState, after: HostState, disableType: seq<UsbDeviceType>, disable: bool,
                       serialDisabled: bool, hdi: Hdi, n: string)
    requires PolicyDone(before, after, disableType, disable, serialDisabled, hdi)
    ensures if n in before.devices
            then && n in after.devices
                 && Responds(before, after, n,
                             Hit(TypeHits(before, D_TYPE_MAP, disableType, disable, serialDisabled, hdi), n), hdi)
            else StaysAbsent(before, after, n)
  {
    assert n in before.devices <==> n in after.devices;
    var hits := TypeHits(before, D_TYPE_MAP, disableType, disable, serialDisabled, hdi);
    if n in before.devices {
      MarkedResponds(before, after, n, hits, TypeMark(G_TYPE_MAP, disableType, disable), hdi);
    }
  }

  lemma HitUnderPolicy(s: HostState, disableType: seq<UsbDeviceType>, disable: bool, serialDisabled: bool, hdi: Hdi,
                       n: string)
    requires n in s.devices
    ensures var dev := s.devices[n];
            var t := Triple(dev.baseClass, dev.subClass, dev.protocol);
            var serial := serialDisabled && BusAddr(dev.busNum, dev.devAddr) in s.serialDevices;
            var asked := hdi.open(n) && !serial && SameDeviceClass(t, t);
            var wanted := if ListsDevice(disableType, t) then !disable else disable;
            Hit(TypeHits(s, D_TYPE_MAP, disableType, disable, serialDisabled, hdi), n) == if asked then Some(wanted) else None
  {
    DeviceListed(disableType, TripleOf(s.devices[n]));
  }

  // Of the devices that open and that the serial policy does not own, exactly those of a class the device table covers
  // are asked: those the list names for one thing, the others for the opposite.
  lemma StatusUnderPolicy(before: HostState, after: HostState, disableType: seq<UsbDeviceType>, disable: bool,
                          serialDisabled: bool, hdi: Hdi, n: string)
    requires PolicyDone(before, after, disableType, disable, serialDisabled, hdi)
    ensures if n in before.devices
            then var dev := before.devices[n];
                 var t := Triple(dev.baseClass, dev.subClass, dev.protocol);
                 var serial := serialDisabled && BusAddr(dev.busNum, dev.devAddr) in before.serialDevices;
                 var asked := hdi.open(n) && !serial && SameDeviceClass(t, t);
                 var wanted := if ListsDevice(disableType, t) then !disable else disable;
                 && n in after.devices && Responds(before, after, n, if asked then Some(wanted) else None, hdi)
            else StaysAbsent(before, after, n)
  {
    PolicyResponds(before, after, disableType, disable, serialDisabled, hdi, n);
    if n in before.devices {
      HitUnderPolicy(before, disableType, disable, serialDisabled, hdi, n);
    }
  }

  // Whether configuration j of the device is its active one, for a device whose interfaces are looked at: no hub, and
  // not disabled after the first half of the policy. A configuration value of 0 counts as 256.
  predicate LooksAt(dev: Device, after: AuthorizeStatus, n: string, hdi: Hdi, j: nat)
  {
    dev.baseClass != 9 && after != Disabled && hdi.activeConfig(n).Some? &&
    j == if hdi.activeConfig(n).value == 0 then 255 else hdi.activeConfig(n).value - 1
  }

  // Of the interfaces of the active configuration, exactly those of a class the interface table covers get a new flag:
  // those the list names one flag, the others the opposite. Nothing else of the device changes but its status.
  lemma FlagUnderPolicy(before: HostState, after: HostState, disableType: seq<UsbDeviceType>, disable: bool,
                        serialDisabled: bool, hdi: Hdi, n: string, j: nat, i: nat)
    requires PolicyDone(before, after, disableType, disable, serialDisabled, hdi)
    requires n in before.devices && j < |before.devices[n].configs| && i < |before.devices[n].configs[j].interfaces|
    ensures && n in after.devices && |after.devices[n].configs| == |before.devices[n].configs|
            && |after.devices[n].configs[j].interfaces| == |before.devices[n].configs[j].interfaces|
    ensures var dev, intf := before.devices[n], before.devices[n].configs[j].interfaces[i];
            var t := Triple(intf.klass, intf.subClass, intf.protocol);
            var flag := if ListsInterface(disableType, t) then !disable else disable;
            after.devices[n].configs[j].interfaces[i] ==
            if LooksAt(dev, after.devices[n].status, n, hdi, j) && SameInterfaceClass(t, t)
            then intf.(authorized := flag) else intf
    ensures && after.devices[n] == before.devices[n].(status := after.devices[n].status, configs := after.devices[n].configs)
            && after.devices[n].configs[j] ==
               before.devices[n].configs[j].(interfaces := after.devices[n].configs[j].interfaces)
  {
    assert n in after.devices;
    var intf := before.devices[n].configs[j].interfaces[i];
    InterfaceListed(disableType, InterfaceTriple(intf));
    var hits := TypeHits(before, D_TYPE_MAP, disableType, disable, serialDisabled, hdi);
    FlagOnDevice(DeviceUnder(before.devices[n], n, Hit(hits, n), hdi), n, TypeMark(G_TYPE_MAP, disableType, disable), hdi, j, i);
  }

  lemma FlagOnDevice(dev: Device, n: string, mark: Mark, hdi: Hdi, j: nat, i: nat)
    requires j < |dev.configs| && i < |dev.configs[j].interfaces|
    ensures var after := MarkedDevice(dev, n, mark, hdi);
            && after == dev.(configs := after.configs) && |after.configs| == |dev.configs|
            && after.configs[j] == dev.configs[j].(interfaces := after.configs[j].interfaces)
            && |after.configs[j].interfaces| == |dev.configs[j].interfaces|
            && after.configs[j].interfaces[i] ==
               if LooksAt(dev, dev.status, n, hdi, j) then mark(dev.configs[j].interfaces[i])
               else dev.configs[j].interfaces[i]
  {
  }

  // For example, disabling any type of a base class that is covered whole unauthorises every interface of that base
  // class in the active configuration, whatever the subclasses and protocols.
  lemma WholeClassIsUnauthorised(before: HostState, after: HostState, disableType: seq<UsbDeviceType>,
                                 serialDisabled: bool, hdi: Hdi, n: string, j: nat, i: nat, k: nat)
    requires PolicyDone(before, after, disableType, true, serialDisabled, hdi)
    requires k < |disableType| && !disableType[k].isDeviceType
    requires disableType[k].triple.baseClass in {1, 2, 3, 5, 7, 8, 10, 11, 14, 15, 255}
    requires n in before.devices && j < |before.devices[n].configs| && i < |before.devices[n].configs[j].interfaces|
    requires before.devices[n].configs[j].interfaces[i].klass == disableType[k].triple.baseClass
    requires n in after.devices && LooksAt(before.devices[n], after.devices[n].status, n, hdi, j)
    ensures && j < |after.devices[n].configs| && i < |after.devices[n].configs[j].interfaces|
            && !after.devices[n].configs[j].interfaces[i].authorized
  {
    FlagUnderPolicy(before, after, disableType, true, serialDisabled, hdi, n, j, i);
    var t := InterfaceTriple(before.devices[n].configs[j].interfaces[i]);
    assert SameInterfaceClass(disableType[k].triple, t);
  }

  // A policy is two steps of a run: requests, then flags.
  lemma PolicyIsTwoSteps(before: HostState, after: HostState, disableType: seq<UsbDeviceType>, disable: bool,
                         serialDisabled: bool, hdi: Hdi) returns (between: HostState)
    requires PolicyDone(before, after, disableType, disable, serialDisabled, hdi)
    ensures Step(before, Manage(TypeHits(before, D_TYPE_MAP, disableType, disable, serialDisabled, hdi), hdi), between)
    ensures Step(between, MarkInterfaces(TypeMark(G_TYPE_MAP, disableType, disable), hdi), after)
  {
    between := PassIsTwoSteps(before, after, TypeHits(before, D_TYPE_MAP, disableType, disable, serialDisabled, hdi),
                              TypeMark(G_TYPE_MAP, disableType, disable), hdi);
  }

  lemma PassIsTwoSteps(before: HostState, after: HostState, hits: Hits, mark: Mark, hdi: Hdi)
    returns (between: HostState)
    requires after.devices.Keys == before.devices.Keys && after.serialDevices == before.serialDevices
    requires forall n :: n in before.devices ==>
               after.devices[n] == MarkedDevice(DeviceUnder(before.devices[n], n, Hit(hits, n), hdi), n, mark, hdi)
    requires forall n :: BroadcastsOf(after.broadcasts, n) ==
                         Told(BroadcastsOf(before.broadcasts, n), NewsOf(before.devices, n, hits, hdi))
    ensures Managed(before, between, hits, hdi) && Marking(between, after, mark, hdi)
  {
    var devices := map n | n in before.devices :: DeviceUnder(before.devices[n], n, Hit(hits, n), hdi);
    between := HostState(devices, before.serialDevices, after.broadcasts);
    assert between.devices.Keys == before.devices.Keys;
  }

  // Running the same policy again changes nothing and broadcasts nothing, whatever the driver answers, if it answers the
  // same both times.
  lemma SecondPolicyChangesNothing(s0: HostState, s1: HostState, s2: HostState, disableType: seq<UsbDeviceType>,
                                   disable: bool, serialDisabled: bool, hdi: Hdi, n: string)
    requires PolicyDone(s0, s1, disableType, disable, serialDisabled, hdi)
    requires PolicyDone(s1, s2, disableType, disable, serialDisabled, hdi)
    ensures s2.devices.Keys == s1.devices.Keys && (n in s1.devices ==> s2.devices[n] == s1.devices[n])
    ensures BroadcastsOf(s2.broadcasts, n) == BroadcastsOf(s1.broadcasts, n)
  {
    if n in s1.devices {
      assert n in s0.devices;
      SecondPassOnDevice(s0, s1, disableType, disable, serialDisabled, hdi, n);
    }
  }

  lemma SecondPassOnDevice(s0: HostState, s1: HostState, disableType: seq<UsbDeviceType>, disable: bool,
                           serialDisabled: bool, hdi: Hdi, n: string)
    requires n in s0.devices && n in s1.devices && s1.serialDevices == s0.serialDevices
    requires s1.devices[n] == PolicyDevice(s0, n, disableType, disable, serialDisabled, hdi)
    ensures PolicyDevice(s1, n, disableType, disable, serialDisabled, hdi) == s1.devices[n]
    ensures NewsOf(s1.devices, n, TypeHits(s1, D_TYPE_MAP, disableType, disable, serialDisabled, hdi), hdi) == None
  {
    var mark := TypeMark(G_TYPE_MAP, disableType, disable);
    HitAgain(s0, s1, disableType, disable, serialDisabled, hdi, n);
    TwiceOnDevice(s0.devices[n], n, Hit(TypeHits(s0, D_TYPE_MAP, disableType, disable, serialDisabled, hdi), n), mark, hdi);
  }

  // Asking and marking a second time does nothing.
  lemma TwiceOnDevice(dev: Device, n: string, hit: Option<bool>, mark: Mark, hdi: Hdi)
    requires forall intf :: mark(mark(intf)) == mark(intf)
    ensures var once := MarkedDevice(DeviceUnder(dev, n, hit, hdi), n, mark, hdi);
            && MarkedDevice(DeviceUnder(once, n, hit, hdi), n, mark, hdi) == once
            && AnnouncedUnder(once, n, hit, hdi) == None
  {
    var asked := DeviceUnder(dev, n, hit, hdi);
    var once := MarkedDevice(asked, n, mark, hdi);
    assert DeviceUnder(once, n, hit, hdi) == once;
    MarkedTwice(asked, n, mark, mark, mark, hdi);
  }

  // Marking changes no status and no class, so the second run asks for the same.
  lemma HitAgain(s0: HostState, s1: HostState, disableType: seq<UsbDeviceType>, disable: bool, serialDisabled: bool,
                 hdi: Hdi, n: string)
    requires n in s0.devices && n in s1.devices && s1.serialDevices == s0.serialDevices
    requires s1.devices[n] == PolicyDevice(s0, n, disableType, disable, serialDisabled, hdi)
    ensures Hit(TypeHits(s1, D_TYPE_MAP, disableType, disable, serialDisabled, hdi), n) ==
            Hit(TypeHits(s0, D_TYPE_MAP, disableType, disable, serialDisabled, hdi), n)
  {
    assert TripleOf(s1.devices[n]) == TripleOf(s0.devices[n]);
    assert AddressOf(s1.devices[n]) == AddressOf(s0.devices[n]);
  }
}
