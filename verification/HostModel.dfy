/** The host manager's state, and what one policy pass does to it device by device. */
module HostModel {
  import opened DeviceNames
  import opened TypeTables
  import opened UsbModel

  const BASE_CLASS_HUB: int32 := 9

  datatype BusAddr = BusAddr(busNum: byte, devAddr: byte)

  // The COMMON_EVENT_USB_DEVICE_ATTACHED (true) and _DETACHED (false) broadcasts sent for each name, oldest first.
  type Broadcasts = map<string, seq<bool>>

  datatype UsbDeviceType = UsbDeviceType(triple: Triple, isDeviceType: bool)

  datatype UsbDeviceId = UsbDeviceId(productId: int32, vendorId: int32)

  // What the driver answers for each device while a policy runs.
  datatype Hdi = Hdi(
    open: string -> bool,
    authorize: (string, bool) -> bool,
    activeConfig: string -> Option<byte>)

  datatype HostState = HostState(devices: map<string, Device>, serialDevices: seq<BusAddr>, broadcasts: Broadcasts)

  function AddressOf(dev: Device): BusAddr
  {
    BusAddr(dev.busNum, dev.devAddr)
  }

  predicate NoDuplicates(s: seq<BusAddr>)
  {
    forall i, j :: 0 <= i < j < |s| ==> s[i] != s[j]
  }

  // Keys are printed addresses, and serial devices are distinct registered devices.
  ghost predicate RegistryOk(s: HostState)
  {
    && (forall n :: n in s.devices ==> n == NameOf(s.devices[n].busNum, s.devices[n].devAddr))
    && NoDuplicates(s.serialDevices)
    && (forall a :: a in s.serialDevices ==> NameOf(a.busNum, a.devAddr) in s.devices)
  }

  function BroadcastsOf(broadcasts: Broadcasts, name: string): seq<bool>
  {
    if name in broadcasts then broadcasts[name] else []
  }

  function Told(history: seq<bool>, news: Option<bool>): seq<bool>
  {
    if news.Some? then history + [news.value] else history
  }

  // The broadcasts after what may be news of one device.
  function Tell(broadcasts: Broadcasts, name: string, news: Option<bool>): Broadcasts
  {
    if news.Some? then broadcasts[name := BroadcastsOf(broadcasts, name) + [news.value]] else broadcasts
  }

  /// One authorisation

  predicate NoNeedToChange(status: AuthorizeStatus, authorized: bool)
  {
    (authorized && status != Disabled) || (!authorized && status == Disabled)
  }

  function StatusAfter(status: AuthorizeStatus, authorized: bool, ok: bool): AuthorizeStatus
  {
    if NoNeedToChange(status, authorized) || !ok then status else if authorized then Enabled else Disabled
  }

  // A device that has just arrived is not announced here.
  function Announced(status: AuthorizeStatus, authorized: bool, ok: bool): Option<bool>
  {
    if NoNeedToChange(status, authorized) || !ok || status == NewArrived then None else Some(authorized)
  }

  function Authorized(s: HostState, name: string, authorized: bool, hdi: Hdi): HostState
  {
    if name !in s.devices then s
    else
      var dev, ok := s.devices[name], hdi.authorize(name, authorized);
      s.(devices := s.devices[name := dev.(status := StatusAfter(dev.status, authorized, ok))],
         broadcasts := Tell(s.broadcasts, name, Announced(dev.status, authorized, ok)))
  }

  function Asked(s: HostState, name: string, hit: Option<bool>, hdi: Hdi): HostState
  {
    if hit == None then s else Authorized(s, name, hit.value, hdi)
  }

  /// Devices that come and go

  function WithoutFirst(s: seq<BusAddr>, a: BusAddr): seq<BusAddr>
  {
    if s == [] then [] else if s[0] == a then s[1..] else [s[0]] + WithoutFirst(s[1..], a)
  }

  lemma {:induction false} WithoutFirstAt(s: seq<BusAddr>, i: nat)
    requires i < |s| && forall j :: 0 <= j < i ==> s[j] != s[i]
    ensures WithoutFirst(s, s[i]) == s[..i] + s[i + 1..]
  {
    if i > 0 {
      var rest := s[1..];
      assert rest[i - 1] == s[i] && forall j :: 0 <= j < i - 1 ==> rest[j] == s[j + 1];
      WithoutFirstAt(rest, i - 1);
      assert s[..i] == [s[0]] + rest[..i - 1];
      assert rest[i..] == s[i + 1..];
    }
  }

  lemma {:induction false} WithoutFirstAbsent(s: seq<BusAddr>, a: BusAddr)
    requires a !in s
    ensures WithoutFirst(s, a) == s
  {
    if s != [] {
      WithoutFirstAbsent(s[1..], a);
    }
  }

  lemma {:induction false} WithoutFirstMembers(s: seq<BusAddr>, a: BusAddr)
    requires NoDuplicates(s)
    ensures NoDuplicates(WithoutFirst(s, a))
    ensures forall x :: x in WithoutFirst(s, a) <==> x in s && x != a
  {
    if s != [] {
      var rest := s[1..];
      WithoutFirstMembers(rest, a);
      assert s == [s[0]] + rest;
      assert s[0] !in rest;
    }
  }

  // The ports of the serial manager include the device.
  predicate HasPort(ports: Option<seq<BusAddr>>, a: BusAddr)
  {
    ports.Some? && a in ports.value
  }

  // The first locked part of AddDevice.
  function Inserted(s: HostState, dev: Device, ports: Option<seq<BusAddr>>): HostState
  {
    s.(devices := s.devices[NameOf(dev.busNum, dev.devAddr) := dev.(status := NewArrived)],
       serialDevices := s.serialDevices + (if HasPort(ports, AddressOf(dev)) && AddressOf(dev) !in s.serialDevices
                                           then [AddressOf(dev)] else []))
  }

  // The last locked part of AddDevice.
  function Published(s: HostState, name: string): HostState
  {
    if name !in s.devices || s.devices[name].status == Disabled then s
    else s.(devices := s.devices[name := s.devices[name].(status := Enabled)],
            broadcasts := Tell(s.broadcasts, name, Some(true)))
  }

  function Deleted(s: HostState, busNum: byte, devNum: byte): HostState
  {
    var name := NameOf(busNum, devNum);
    if name !in s.devices then s
    else HostState(s.devices - {name}, WithoutFirst(s.serialDevices, BusAddr(busNum, devNum)),
                   Tell(s.broadcasts, name, if s.devices[name].status == Enabled then Some(false) else None))
  }

  lemma InsertedKeepsRegistry(s: HostState, dev: Device, ports: Option<seq<BusAddr>>)
    requires RegistryOk(s)
    ensures RegistryOk(Inserted(s, dev, ports))
  {
  }

  lemma AuthorizedKeepsRegistry(s: HostState, name: string, authorized: bool, hdi: Hdi)
    requires RegistryOk(s)
    ensures RegistryOk(Authorized(s, name, authorized, hdi))
  {
  }

  lemma NothingToAuthorize(s: HostState, name: string, authorized: bool, hdi: Hdi)
    requires name in s.devices
    requires !hdi.authorize(name, authorized) || NoNeedToChange(s.devices[name].status, authorized)
    ensures Authorized(s, name, authorized, hdi) == s
  {
    var dev := s.devices[name];
    assert s.devices[name := dev.(status := dev.status)] == s.devices;
  }

  lemma DeletedKeepsRegistry(s: HostState, busNum: byte, devNum: byte)
    requires RegistryOk(s)
    ensures RegistryOk(Deleted(s, busNum, devNum))
  {
    var after := Deleted(s, busNum, devNum);
    WithoutFirstMembers(s.serialDevices, BusAddr(busNum, devNum));
    if after != s {
      forall a | a in after.serialDevices ensures NameOf(a.busNum, a.devAddr) in after.devices {
        NameInjective(busNum, devNum, a.busNum, a.devAddr);
      }
    }
  }

  /// Passes over all devices

  // For each device name, the authorisation that a pass asks for, if any.
  type Hits = map<string, bool>

  function Hit(hits: Hits, n: string): Option<bool>
  {
    if n in hits then Some(hits[n]) else None
  }

  function DeviceUnder(dev: Device, n: string, hit: Option<bool>, hdi: Hdi): Device
  {
    if hit.None? then dev else dev.(status := StatusAfter(dev.status, hit.value, hdi.authorize(n, hit.value)))
  }

  function AnnouncedUnder(dev: Device, n: string, hit: Option<bool>, hdi: Hdi): Option<bool>
  {
    if hit.None? then None else Announced(dev.status, hit.value, hdi.authorize(n, hit.value))
  }

  ghost predicate DevicesManaged(before: map<string, Device>, after: map<string, Device>, hits: Hits, hdi: Hdi)
  {
    && after.Keys == before.Keys
    && forall n :: n in before ==> after[n] == DeviceUnder(before[n], n, Hit(hits, n), hdi)
  }

  function NewsOf(devices: map<string, Device>, n: string, hits: Hits, hdi: Hdi): Option<bool>
  {
    if n in devices then AnnouncedUnder(devices[n], n, Hit(hits, n), hdi) else None
  }

  // Each device got the authorisation asked for it, once, and was announced accordingly; nothing else changed.
  ghost predicate Managed(before: HostState, after: HostState, hits: Hits, hdi: Hdi)
  {
    && after.serialDevices == before.serialDevices
    && DevicesManaged(before.devices, after.devices, hits, hdi)
    && forall n :: BroadcastsOf(after.broadcasts, n) ==
                   Told(BroadcastsOf(before.broadcasts, n), NewsOf(before.devices, n, hits, hdi))
  }

  // A pass that asks for nothing.
  lemma ManagedNone(s: HostState, hits: Hits, hdi: Hdi)
    requires forall n :: n in s.devices ==> Hit(hits, n) == None
    ensures Managed(s, s, hits, hdi)
  {
  }

  lemma AuthorizedIsManaged(s: HostState, name: string, authorized: bool, hdi: Hdi)
    ensures Managed(s, Authorized(s, name, authorized, hdi), map[name := authorized], hdi)
  {
  }

  function Either(first: Option<bool>, second: Option<bool>): Option<bool>
  {
    if first == None then second else first
  }

  predicate Agree(first: Option<bool>, second: Option<bool>)
  {
    first == None || second == None || first == second
  }

  lemma UnderTwice(dev: Device, n: string, first: Option<bool>, second: Option<bool>, hdi: Hdi)
    requires Agree(first, second)
    ensures var once, both := DeviceUnder(dev, n, first, hdi), Either(first, second);
            && DeviceUnder(once, n, second, hdi) == DeviceUnder(dev, n, both, hdi)
            && (AnnouncedUnder(dev, n, first, hdi) == None || AnnouncedUnder(once, n, second, hdi) == None)
            && Either(AnnouncedUnder(dev, n, first, hdi), AnnouncedUnder(once, n, second, hdi)) ==
               AnnouncedUnder(dev, n, both, hdi)
  {
  }

  // Passes that do not contradict each other make one pass.
  lemma ManagedJoin(a: HostState, b: HostState, c: HostState, first: Hits, second: Hits, both: Hits, hdi: Hdi)
    requires Managed(a, b, first, hdi) && Managed(b, c, second, hdi)
    requires forall n :: n in a.devices ==>
               Agree(Hit(first, n), Hit(second, n)) && Hit(both, n) == Either(Hit(first, n), Hit(second, n))
    ensures Managed(a, c, both, hdi)
  {
    DevicesJoin(a.devices, b.devices, c.devices, first, second, both, hdi);
    forall n ensures BroadcastsOf(c.broadcasts, n) ==
                     Told(BroadcastsOf(a.broadcasts, n), NewsOf(a.devices, n, both, hdi))
    {
      NewsJoin(a.devices, b.devices, first, second, both, hdi, n);
    }
  }

  lemma DevicesJoin(a: map<string, Device>, b: map<string, Device>, c: map<string, Device>, first: Hits, second: Hits,
                    both: Hits, hdi: Hdi)
    requires DevicesManaged(a, b, first, hdi) && DevicesManaged(b, c, second, hdi)
    requires forall n :: n in a ==>
               Agree(Hit(first, n), Hit(second, n)) && Hit(both, n) == Either(Hit(first, n), Hit(second, n))
    ensures DevicesManaged(a, c, both, hdi)
  {
    forall n | n in a ensures c[n] == DeviceUnder(a[n], n, Hit(both, n), hdi) {
      assert n in b;
      UnderTwice(a[n], n, Hit(first, n), Hit(second, n), hdi);
    }
  }

  lemma NewsJoin(a: map<string, Device>, b: map<string, Device>, first: Hits, second: Hits, both: Hits, hdi: Hdi,
                 n: string)
    requires DevicesManaged(a, b, first, hdi)
    requires n in a ==>
               Agree(Hit(first, n), Hit(second, n)) && Hit(both, n) == Either(Hit(first, n), Hit(second, n))
    ensures NewsOf(a, n, first, hdi) == None || NewsOf(b, n, second, hdi) == None
    ensures Either(NewsOf(a, n, first, hdi), NewsOf(b, n, second, hdi)) == NewsOf(a, n, both, hdi)
  {
    assert n in a <==> n in b;
    if n in a {
      UnderTwice(a[n], n, Hit(first, n), Hit(second, n), hdi);
    }
  }

  lemma ManagedSame(a: HostState, b: HostState, hits: Hits, same: Hits, hdi: Hdi)
    requires Managed(a, b, hits, hdi)
    requires forall n :: n in a.devices ==> Hit(hits, n) == Hit(same, n)
    ensures Managed(a, b, same, hdi)
  {
  }

  lemma ManagedKeepsRegistry(a: HostState, b: HostState, hits: Hits, hdi: Hdi)
    requires Managed(a, b, hits, hdi) && RegistryOk(a)
    ensures RegistryOk(b)
  {
    assert forall n :: n in b.devices ==> n in a.devices;
  }

  // The requests for all but some devices.
  function Except(hits: Hits, names: set<string>): Hits
  {
    map n | n in hits && n !in names :: hits[n]
  }

  /// The device types of a policy

  function TripleOf(dev: Device): Triple
  {
    Triple(dev.baseClass, dev.subClass, dev.protocol)
  }

  function InterfaceTriple(intf: Interface): Triple
  {
    Triple(intf.klass, intf.subClass, intf.protocol)
  }

  // The class has an entry in the table.
  ghost predicate Known(table: TypeMap, t: Triple)
  {
    exists k :: k in table && Matches(table[k], t)
  }

  predicate IsMatching(table: TypeMap, disableType: seq<UsbDeviceType>, isDev: bool, k: InterfaceType)
    requires k in table
  {
    exists i :: 0 <= i < |disableType| && disableType[i].isDeviceType == isDev && Matches(table[k], disableType[i].triple)
  }

  // The entry of the class also holds a type of the list.
  ghost predicate Listed(table: TypeMap, disableType: seq<UsbDeviceType>, isDev: bool, t: Triple)
  {
    exists k :: k in table && Matches(table[k], t) && IsMatching(table, disableType, isDev, k)
  }

  // A device the pass gets to: one it can open and that the serial policy does not own.
  predicate IsManageable(s: HostState, n: string, serialDisabled: bool, hdi: Hdi)
  {
    n in s.devices && hdi.open(n) && !(serialDisabled && AddressOf(s.devices[n]) in s.serialDevices)
  }

  // What ManageDeviceTypeImpl asks for: one pattern, one decision.
  function PatternHits(s: HostState, pattern: Pattern, disable: bool, serialDisabled: bool, hdi: Hdi): Hits
  {
    map n | n in s.devices && IsManageable(s, n, serialDisabled, hdi) && Matches(pattern, TripleOf(s.devices[n])) ::
      !disable
  }

  // What the device half of the policy asks for, entry by entry, in no particular order.
  ghost function TypeHits(
    s: HostState, table: TypeMap, disableType: seq<UsbDeviceType>, disable: bool, serialDisabled: bool, hdi: Hdi): Hits
  {
    map n | n in s.devices && IsManageable(s, n, serialDisabled, hdi) && Known(table, TripleOf(s.devices[n])) ::
      if Listed(table, disableType, true, TripleOf(s.devices[n])) then !disable else disable
  }

  // What ManageUsbSerialDevice asks for: one decision for the first serial devices.
  function SerialHits(s: HostState, count: nat, disable: bool): Hits
    requires count <= |s.serialDevices|
  {
    map n | n in s.devices && IsSerialAmong(s, count, s.devices[n]) :: !disable
  }

  predicate IsSerialAmong(s: HostState, count: nat, dev: Device)
    requires count <= |s.serialDevices|
  {
    exists i :: 0 <= i < count && s.serialDevices[i] == AddressOf(dev)
  }

  predicate HasId(dev: Device, id: UsbDeviceId)
  {
    dev.baseClass != BASE_CLASS_HUB && dev.productId == id.productId && dev.vendorId == id.vendorId
  }

  // What ManageDeviceImpl asks for; hubs are exempt.
  function IdHits(s: HostState, id: UsbDeviceId, disable: bool): Hits
  {
    map n | n in s.devices && HasId(s.devices[n], id) :: !disable
  }

  /// The interfaces of the active configuration

  // uint8_t configIndex - 1, which wraps for zero.
  function ActiveIndex(dev: Device, n: string, hdi: Hdi): (index: Option<nat>)
    ensures index.Some? ==> index.value < |dev.configs|
  {
    if dev.baseClass == BASE_CLASS_HUB || dev.status == Disabled || hdi.activeConfig(n).None? then None
    else
      var index := if hdi.activeConfig(n).value == 0 then 255 else hdi.activeConfig(n).value - 1;
      if index >= |dev.configs| then None else Some(index)
  }

  type Mark = Interface -> Interface

  ghost predicate SetsOnlyFlags(mark: Mark)
  {
    forall intf :: mark(intf) == intf.(authorized := mark(intf).authorized)
  }

  function Marked(interfaces: seq<Interface>, mark: Mark): (marked: seq<Interface>)
    ensures |marked| == |interfaces|
    ensures forall i :: 0 <= i < |marked| ==> marked[i] == mark(interfaces[i])
  {
    seq(|interfaces|, i requires 0 <= i < |interfaces| => mark(interfaces[i]))
  }

  function MarkedDevice(dev: Device, n: string, mark: Mark, hdi: Hdi): Device
  {
    match ActiveIndex(dev, n, hdi)
    case None => dev
    case Some(i) =>
      dev.(configs := dev.configs[i := dev.configs[i].(interfaces := Marked(dev.configs[i].interfaces, mark))])
  }

  // Every device had the interfaces of its active configuration marked; nothing else changed.
  ghost predicate Marking(before: HostState, after: HostState, mark: Mark, hdi: Hdi)
  {
    && after.devices.Keys == before.devices.Keys
    && after.serialDevices == before.serialDevices && after.broadcasts == before.broadcasts
    && forall n :: n in before.devices ==> after.devices[n] == MarkedDevice(before.devices[n], n, mark, hdi)
  }

  // What ManageInterfaceTypeImpl does to an interface.
  function PatternMark(pattern: Pattern, disable: bool): Mark
  {
    intf => if Matches(pattern, InterfaceTriple(intf)) then intf.(authorized := !disable) else intf
  }

  // What the interface half of the policy does to an interface.
  ghost function TypeMark(table: TypeMap, disableType: seq<UsbDeviceType>, disable: bool): Mark
  {
    intf =>
      if Known(table, InterfaceTriple(intf))
      then intf.(authorized := if Listed(table, disableType, false, InterfaceTriple(intf)) then !disable else disable)
      else intf
  }

  lemma MarkedTwice(dev: Device, n: string, first: Mark, second: Mark, both: Mark, hdi: Hdi)
    requires forall intf :: both(intf) == second(first(intf))
    ensures MarkedDevice(MarkedDevice(dev, n, first, hdi), n, second, hdi) == MarkedDevice(dev, n, both, hdi)
  {
    if ActiveIndex(dev, n, hdi).Some? {
      var i := ActiveIndex(dev, n, hdi).value;
      var once := MarkedDevice(dev, n, first, hdi);
      assert ActiveIndex(once, n, hdi) == Some(i);
      assert Marked(once.configs[i].interfaces, second) == Marked(dev.configs[i].interfaces, both);
      assert MarkedDevice(once, n, second, hdi).configs == MarkedDevice(dev, n, both, hdi).configs;
    }
  }

  lemma MarkedNone(dev: Device, n: string, mark: Mark, hdi: Hdi)
    requires forall intf :: mark(intf) == intf
    ensures MarkedDevice(dev, n, mark, hdi) == dev
  {
    if ActiveIndex(dev, n, hdi).Some? {
      var i := ActiveIndex(dev, n, hdi).value;
      assert Marked(dev.configs[i].interfaces, mark) == dev.configs[i].interfaces;
      assert MarkedDevice(dev, n, mark, hdi).configs == dev.configs;
    }
  }

  lemma MarkingJoin(a: HostState, b: HostState, c: HostState, first: Mark, second: Mark, both: Mark, hdi: Hdi)
    requires Marking(a, b, first, hdi) && Marking(b, c, second, hdi)
    requires forall intf :: both(intf) == second(first(intf))
    ensures Marking(a, c, both, hdi)
  {
    forall n | n in a.devices ensures c.devices[n] == MarkedDevice(a.devices[n], n, both, hdi) {
      MarkedTwice(a.devices[n], n, first, second, both, hdi);
      assert n in b.devices;
    }
  }

  lemma MarkingNone(s: HostState, mark: Mark, hdi: Hdi)
    requires forall intf :: mark(intf) == intf
    ensures Marking(s, s, mark, hdi)
  {
    forall n | n in s.devices ensures MarkedDevice(s.devices[n], n, mark, hdi) == s.devices[n] {
      MarkedNone(s.devices[n], n, mark, hdi);
    }
  }

  // What one entry of a table does, and what a whole table does.
  ghost predicate EntryDone(before: HostState, after: HostState, pattern: Pattern, isDev: bool, disable: bool,
                            serialDisabled: bool, hdi: Hdi)
  {
    if isDev then Managed(before, after, PatternHits(before, pattern, disable, serialDisabled, hdi), hdi)
    else Marking(before, after, PatternMark(pattern, disable), hdi)
  }

  ghost predicate TableDone(before: HostState, after: HostState, disableType: seq<UsbDeviceType>, disable: bool,
                            table: TypeMap, isDev: bool, serialDisabled: bool, hdi: Hdi)
  {
    if isDev then Managed(before, after, TypeHits(before, table, disableType, disable, serialDisabled, hdi), hdi)
    else Marking(before, after, TypeMark(table, disableType, disable), hdi)
  }

  /// The whole type policy

  // What the policy makes of one device.
  ghost function PolicyDevice(s: HostState, n: string, disableType: seq<UsbDeviceType>, disable: bool,
                              serialDisabled: bool, hdi: Hdi): Device
    requires n in s.devices
  {
    var hits := TypeHits(s, D_TYPE_MAP, disableType, disable, serialDisabled, hdi);
    MarkedDevice(DeviceUnder(s.devices[n], n, Hit(hits, n), hdi), n, TypeMark(G_TYPE_MAP, disableType, disable), hdi)
  }

  ghost predicate PolicyDone(before: HostState, after: HostState, disableType: seq<UsbDeviceType>, disable: bool,
                             serialDisabled: bool, hdi: Hdi)
  {
    && after.devices.Keys == before.devices.Keys
    && after.serialDevices == before.serialDevices
    && (forall n :: n in before.devices ==>
          after.devices[n] == PolicyDevice(before, n, disableType, disable, serialDisabled, hdi))
    && (forall n ::
          BroadcastsOf(after.broadcasts, n) ==
          Told(BroadcastsOf(before.broadcasts, n),
               NewsOf(before.devices, n, TypeHits(before, D_TYPE_MAP, disableType, disable, serialDisabled, hdi), hdi)))
  }

  lemma PolicyInTwoParts(before: HostState, between: HostState, after: HostState, disableType: seq<UsbDeviceType>,
                         disable: bool, serialDisabled: bool, hdi: Hdi)
    requires Managed(before, between, TypeHits(before, D_TYPE_MAP, disableType, disable, serialDisabled, hdi), hdi)
    requires Marking(between, after, TypeMark(G_TYPE_MAP, disableType, disable), hdi)
    ensures PolicyDone(before, after, disableType, disable, serialDisabled, hdi)
  {
    assert forall n :: n in before.devices ==> n in between.devices;
  }
}
