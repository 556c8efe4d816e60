/** Writing the device tree and the isochronous packet list to a parcel, and reading them back. A parcel is a sequence of
    cells; a write appends one and a read takes the next. */
module Parcels {
  import opened Sequences
  import opened UsbModel

  const USB_CONFIG_MAX_NUM: uint32 := 128
  const USB_INTERFACE_MAX_NUM: uint32 := 128
  const USB_ENDPOINT_MAX_NUM: uint32 := 128
  const MAX_NUM_OF_ISO_PACKAGE: uint32 := 15000

  datatype Cell = Word(value: uint32) | Text(text: string)

  datatype IsoInfo = IsoInfo(isoLength: int32, isoActualLength: int32, isoStatus: int32)

  // int32_t as the word that holds it, and back.
  function ToWord(n: int32): uint32
  {
    if n < 0 then n + UINT32_MODULUS else n
  }

  function ToInt32(w: uint32): int32
  {
    if w > INT32_MAX then w - UINT32_MODULUS else w
  }

  // The elements a counted loop visits: the size is a uint32_t, and each loop stops at its cap.
  function Visited(size: nat, cap: uint32): (n: nat)
    ensures n <= size && n <= cap
  {
    if size % UINT32_MODULUS < cap then size % UINT32_MODULUS else cap
  }

  /// What is written

  function EndpointCells(ep: Endpoint): seq<Cell>
  {
    [Word(ep.address), Word(ep.attributes), Word(ToWord(ep.interval)), Word(ToWord(ep.maxPacketSize)),
     Word(ep.interfaceId)]
  }

  function EndpointsCells(eps: seq<Endpoint>): seq<Cell>
  {
    if eps == [] then [] else EndpointsCells(eps[..|eps| - 1]) + EndpointCells(eps[|eps| - 1])
  }

  function InterfaceHead(intf: Interface): seq<Cell>
  {
    [Word(ToWord(intf.id)), Word(ToWord(intf.protocol)), Word(ToWord(intf.klass)), Word(ToWord(intf.subClass)),
     Word(ToWord(intf.alternateSetting)), Text(intf.name), Word(intf.iInterface),
     Word(|intf.endpoints| % UINT32_MODULUS)]
  }

  function InterfaceCells(intf: Interface): seq<Cell>
  {
    InterfaceHead(intf) + EndpointsCells(intf.endpoints[..Visited(|intf.endpoints|, USB_ENDPOINT_MAX_NUM)])
  }

  function InterfacesCells(intfs: seq<Interface>): seq<Cell>
  {
    if intfs == [] then [] else InterfacesCells(intfs[..|intfs| - 1]) + InterfaceCells(intfs[|intfs| - 1])
  }

  function ConfigHead(config: Config): seq<Cell>
  {
    [Word(ToWord(config.id)), Word(config.attributes), Word(ToWord(config.maxPower)), Word(config.iConfiguration),
     Text(config.name), Word(|config.interfaces| % UINT32_MODULUS)]
  }

  function ConfigCells(config: Config): seq<Cell>
  {
    ConfigHead(config) + InterfacesCells(config.interfaces[..Visited(|config.interfaces|, USB_INTERFACE_MAX_NUM)])
  }

  function ConfigsCells(configs: seq<Config>): seq<Cell>
  {
    if configs == [] then [] else ConfigsCells(configs[..|configs| - 1]) + ConfigCells(configs[|configs| - 1])
  }

  function DeviceNumbers(dev: Device): seq<Cell>
  {
    [Word(dev.busNum), Word(dev.devAddr), Word(ToWord(dev.vendorId)), Word(ToWord(dev.productId)),
     Word(ToWord(dev.baseClass)), Word(ToWord(dev.subClass)), Word(ToWord(dev.protocol)), Word(dev.iManufacturer),
     Word(dev.iProduct), Word(dev.iSerialNumber), Word(dev.maxPacketSize0), Word(dev.bcdUSB), Word(dev.bcdDevice)]
  }

  function DeviceTexts(dev: Device): seq<Cell>
  {
    [Text(dev.name), Text(dev.manufacturerName), Text(dev.productName), Text(dev.version), Text(dev.serial),
     Word(|dev.configs| % UINT32_MODULUS)]
  }

  function DeviceCells(dev: Device): seq<Cell>
  {
    DeviceNumbers(dev) + DeviceTexts(dev) + ConfigsCells(dev.configs[..Visited(|dev.configs|, USB_CONFIG_MAX_NUM)])
  }

  // A parcelable is preceded by a word that says it is there.
  function IsoCells(info: IsoInfo): seq<Cell>
  {
    [Word(1), Word(ToWord(info.isoLength)), Word(ToWord(info.isoActualLength)), Word(ToWord(info.isoStatus))]
  }

  function IsosCells(infos: seq<IsoInfo>): seq<Cell>
  {
    if infos == [] then [] else IsosCells(infos[..|infos| - 1]) + IsoCells(infos[|infos| - 1])
  }

  // This list has no cap when it is written.
  function IsoVecCells(infos: seq<IsoInfo>): seq<Cell>
  {
    [Word(|infos| % UINT32_MODULUS)] + IsosCells(infos[..|infos| % UINT32_MODULUS])
  }

  /// What is read

  // A read past the end, or of the wrong kind, gives the default.
  function WordAt(cells: seq<Cell>, p: nat): uint32
  {
    if p < |cells| && cells[p].Word? then cells[p].value else 0
  }

  function TextAt(cells: seq<Cell>, p: nat): string
  {
    if p < |cells| && cells[p].Text? then cells[p].text else ""
  }

  function ByteAt(cells: seq<Cell>, p: nat): byte
  {
    WordAt(cells, p) % 0x100
  }

  function Uint16At(cells: seq<Cell>, p: nat): uint16
  {
    WordAt(cells, p) % 0x1_0000
  }

  function Int32At(cells: seq<Cell>, p: nat): int32
  {
    ToInt32(WordAt(cells, p))
  }

  function Capped(count: uint32, cap: uint32): nat
  {
    if count < cap then count else cap
  }

  // A value and the position after it.
  datatype Read<T> = Read(value: T, end: nat)

  function EndpointAt(cells: seq<Cell>, p: nat): Read<Endpoint>
  {
    Read(Endpoint(WordAt(cells, p), WordAt(cells, p + 1), Int32At(cells, p + 2), Int32At(cells, p + 3),
                  ByteAt(cells, p + 4)), p + 5)
  }

  function EndpointsAt(cells: seq<Cell>, p: nat, n: nat): Read<seq<Endpoint>>
  {
    if n == 0 then Read([], p)
    else
      var before := EndpointsAt(cells, p, n - 1);
      var last := EndpointAt(cells, before.end);
      Read(before.value + [last.value], last.end)
  }

  // An interface without its endpoints.
  function InterfaceHeadAt(cells: seq<Cell>, p: nat): Interface
  {
    Interface(Int32At(cells, p), Int32At(cells, p + 1), Int32At(cells, p + 2), Int32At(cells, p + 3),
              Int32At(cells, p + 4), TextAt(cells, p + 5), ByteAt(cells, p + 6), [], true)
  }

  function InterfaceAt(cells: seq<Cell>, p: nat): Read<Interface>
  {
    var eps := EndpointsAt(cells, p + 8, Capped(WordAt(cells, p + 7), USB_ENDPOINT_MAX_NUM));
    Read(InterfaceHeadAt(cells, p).(endpoints := eps.value), eps.end)
  }

  function InterfacesAt(cells: seq<Cell>, p: nat, n: nat): Read<seq<Interface>>
  {
    if n == 0 then Read([], p)
    else
      var before := InterfacesAt(cells, p, n - 1);
      var last := InterfaceAt(cells, before.end);
      Read(before.value + [last.value], last.end)
  }

  function ConfigHeadAt(cells: seq<Cell>, p: nat): Config
  {
    Config(Int32At(cells, p), WordAt(cells, p + 1), Int32At(cells, p + 2), ByteAt(cells, p + 3), TextAt(cells, p + 4), [])
  }

  function ConfigAt(cells: seq<Cell>, p: nat): Read<Config>
  {
    var intfs := InterfacesAt(cells, p + 6, Capped(WordAt(cells, p + 5), USB_INTERFACE_MAX_NUM));
    Read(ConfigHeadAt(cells, p).(interfaces := intfs.value), intfs.end)
  }

  function ConfigsAt(cells: seq<Cell>, p: nat, n: nat): Read<seq<Config>>
  {
    if n == 0 then Read([], p)
    else
      var before := ConfigsAt(cells, p, n - 1);
      var last := ConfigAt(cells, before.end);
      Read(before.value + [last.value], last.end)
  }

  // The numbers of a device, without its strings and configurations.
  function DeviceNumbersAt(cells: seq<Cell>, p: nat): Device
  {
    Device(ByteAt(cells, p), ByteAt(cells, p + 1), Int32At(cells, p + 2), Int32At(cells, p + 3), Int32At(cells, p + 4),
           Int32At(cells, p + 5), Int32At(cells, p + 6), ByteAt(cells, p + 7), ByteAt(cells, p + 8), ByteAt(cells, p + 9),
           ByteAt(cells, p + 10), Uint16At(cells, p + 11), Uint16At(cells, p + 12), "", "", "", "", "", [], UINT8_MAX,
           Enabled)
  }

  function DeviceHeadAt(cells: seq<Cell>, p: nat): Device
  {
    DeviceNumbersAt(cells, p).(
      name := TextAt(cells, p + 13), manufacturerName := TextAt(cells, p + 14), productName := TextAt(cells, p + 15),
      version := TextAt(cells, p + 16), serial := TextAt(cells, p + 17))
  }

  function DeviceAt(cells: seq<Cell>, p: nat): Read<Device>
  {
    var configs := ConfigsAt(cells, p + 19, Capped(WordAt(cells, p + 18), USB_CONFIG_MAX_NUM));
    Read(DeviceHeadAt(cells, p).(configs := configs.value), configs.end)
  }

  // None when the packet is missing.
  function IsoAt(cells: seq<Cell>, p: nat): Option<Read<IsoInfo>>
  {
    if WordAt(cells, p) == 0 then None
    else Some(Read(IsoInfo(Int32At(cells, p + 1), Int32At(cells, p + 2), Int32At(cells, p + 3)), p + 4))
  }

  // None when a packet is missing.
  function IsosAt(cells: seq<Cell>, p: nat, n: nat): Option<Read<seq<IsoInfo>>>
  {
    if n == 0 then Some(Read([], p))
    else
      var before := IsosAt(cells, p, n - 1);
      if before.None? then None
      else
        var last := IsoAt(cells, before.value.end);
        if last.None? then None else Some(Read(before.value.value + [last.value.value], last.value.end))
  }

  function IsoVecAt(cells: seq<Cell>, p: nat): Option<Read<seq<IsoInfo>>>
  {
    if p >= |cells| || !cells[p].Word? || cells[p].value > MAX_NUM_OF_ISO_PACKAGE then None
    else IsosAt(cells, p + 1, cells[p].value)
  }

  /// The parcel

  class Parcel {
    var cells: seq<Cell>
    var pos: nat

    constructor ()
      ensures cells == [] && pos == 0
    {
      cells, pos := [], 0;
    }

    method WriteUint32(value: uint32)
      modifies `cells
      ensures cells == old(cells) + [Word(value)]
    {
      cells := cells + [Word(value)];
    }

    method WriteInt32(value: int32)
      modifies `cells
      ensures cells == old(cells) + [Word(ToWord(value))]
    {
      cells := cells + [Word(ToWord(value))];
    }

    method WriteString(text: string)
      modifies `cells
      ensures cells == old(cells) + [Text(text)]
    {
      cells := cells + [Text(text)];
    }

    method ReadUint32() returns (value: uint32)
      modifies `pos
      ensures value == WordAt(cells, old(pos)) && pos == old(pos) + 1
    {
      value := WordAt(cells, pos);
      pos := pos + 1;
    }

    method ReadInt32() returns (value: int32)
      modifies `pos
      ensures value == Int32At(cells, old(pos)) && pos == old(pos) + 1
    {
      value := ToInt32(WordAt(cells, pos));
      pos := pos + 1;
    }

    method ReadUint16() returns (value: uint16)
      modifies `pos
      ensures value == Uint16At(cells, old(pos)) && pos == old(pos) + 1
    {
      value := WordAt(cells, pos) % 0x1_0000;
      pos := pos + 1;
    }

    method ReadUint8() returns (value: byte)
      modifies `pos
      ensures value == ByteAt(cells, old(pos)) && pos == old(pos) + 1
    {
      value := WordAt(cells, pos) % 0x100;
      pos := pos + 1;
    }

    method ReadString() returns (text: string)
      modifies `pos
      ensures text == TextAt(cells, old(pos)) && pos == old(pos) + 1
    {
      text := TextAt(cells, pos);
      pos := pos + 1;
    }
  }

  /// Marshalling and unmarshalling

  method MarshalEndpoint(ep: Endpoint, parcel: Parcel)
    modifies parcel`cells
    ensures parcel.cells == old(parcel.cells) + EndpointCells(ep)
  {
    parcel.WriteUint32(ep.address);
    parcel.WriteUint32(ep.attributes);
    parcel.WriteInt32(ep.interval);
    parcel.WriteInt32(ep.maxPacketSize);
    parcel.WriteUint32(ep.interfaceId);
  }

  method UnmarshalEndpoint(parcel: Parcel) returns (ep: Endpoint)
    modifies parcel`pos
    ensures Read(ep, parcel.pos) == EndpointAt(parcel.cells, old(parcel.pos))
  {
    var address := parcel.ReadUint32();
    var attributes := parcel.ReadUint32();
    var interval := parcel.ReadInt32();
    var maxPacketSize := parcel.ReadInt32();
    var interfaceId := parcel.ReadUint8();
    return Endpoint(address, attributes, interval, maxPacketSize, interfaceId);
  }

  // The fields of an interface and the number of its endpoints.
  method MarshalInterfaceHead(intf: Interface, parcel: Parcel)
    modifies parcel`cells
    ensures parcel.cells == old(parcel.cells) + InterfaceHead(intf)
  {
    parcel.WriteInt32(intf.id);
    parcel.WriteInt32(intf.protocol);
    parcel.WriteInt32(intf.klass);
    parcel.WriteInt32(intf.subClass);
    parcel.WriteInt32(intf.alternateSetting);
    parcel.WriteString(intf.name);
    parcel.WriteUint32(intf.iInterface);
    parcel.WriteUint32(|intf.endpoints| % UINT32_MODULUS);
  }

  method MarshalInterface(intf: Interface, parcel: Parcel)
    modifies parcel`cells
    ensures parcel.cells == old(parcel.cells) + InterfaceCells(intf)
  {
    MarshalInterfaceHead(intf, parcel);
    var n := Visited(|intf.endpoints|, USB_ENDPOINT_MAX_NUM);
    for i := 0 to n
      invariant parcel.cells == old(parcel.cells) + (InterfaceHead(intf) + EndpointsCells(intf.endpoints[..i]))
    {
      MarshalEndpoint(intf.endpoints[i], parcel);
      assert intf.endpoints[..i + 1][..i] == intf.endpoints[..i];
    }
  }

  method UnmarshalInterfaceHead(parcel: Parcel) returns (intf: Interface)
    modifies parcel`pos
    ensures intf == InterfaceHeadAt(parcel.cells, old(parcel.pos)) && parcel.pos == old(parcel.pos) + 7
  {
    var id := parcel.ReadInt32();
    var protocol := parcel.ReadInt32();
    var klass := parcel.ReadInt32();
    var subClass := parcel.ReadInt32();
    var alternateSetting := parcel.ReadInt32();
    var name := parcel.ReadString();
    var iInterface := parcel.ReadUint8();
    return Interface(id, protocol, klass, subClass, alternateSetting, name, iInterface, [], true);
  }

  method UnmarshalInterface(parcel: Parcel) returns (intf: Interface)
    modifies parcel`pos
    ensures Read(intf, parcel.pos) == InterfaceAt(parcel.cells, old(parcel.pos))
  {
    var head := UnmarshalInterfaceHead(parcel);
    var epCount := parcel.ReadUint32();
    ghost var start := parcel.pos;
    var endpoints: seq<Endpoint> := [];
    for i := 0 to Capped(epCount, USB_ENDPOINT_MAX_NUM)
      invariant Read(endpoints, parcel.pos) == EndpointsAt(parcel.cells, start, i)
    {
      var ep := UnmarshalEndpoint(parcel);
      endpoints := endpoints + [ep];
    }
    return head.(endpoints := endpoints);
  }

  // The fields of a configuration and the number of its interfaces.
  method MarshalConfigHead(config: Config, parcel: Parcel)
    modifies parcel`cells
    ensures parcel.cells == old(parcel.cells) + ConfigHead(config)
  {
    parcel.WriteInt32(config.id);
    parcel.WriteUint32(config.attributes);
    parcel.WriteInt32(config.maxPower);
    parcel.WriteUint32(config.iConfiguration);
    parcel.WriteString(config.name);
    parcel.WriteUint32(|config.interfaces| % UINT32_MODULUS);
  }

  method MarshalConfig(config: Config, parcel: Parcel)
    modifies parcel`cells
    ensures parcel.cells == old(parcel.cells) + ConfigCells(config)
  {
    MarshalConfigHead(config, parcel);
    var n := Visited(|config.interfaces|, USB_INTERFACE_MAX_NUM);
    for i := 0 to n
      invariant parcel.cells == old(parcel.cells) + (ConfigHead(config) + InterfacesCells(config.interfaces[..i]))
    {
      MarshalInterface(config.interfaces[i], parcel);
      assert config.interfaces[..i + 1][..i] == config.interfaces[..i];
    }
  }

  method UnmarshalConfigHead(parcel: Parcel) returns (config: Config)
    modifies parcel`pos
    ensures config == ConfigHeadAt(parcel.cells, old(parcel.pos)) && parcel.pos == old(parcel.pos) + 5
  {
    var id := parcel.ReadInt32();
    var attributes := parcel.ReadUint32();
    var maxPower := parcel.ReadInt32();
    var iConfiguration := parcel.ReadUint8();
    var name := parcel.ReadString();
    return Config(id, attributes, maxPower, iConfiguration, name, []);
  }

  method UnmarshalConfig(parcel: Parcel) returns (config: Config)
    modifies parcel`pos
    ensures Read(config, parcel.pos) == ConfigAt(parcel.cells, old(parcel.pos))
  {
    var head := UnmarshalConfigHead(parcel);
    var infCount := parcel.ReadUint32();
    ghost var start := parcel.pos;
    var interfaces: seq<Interface> := [];
    for i := 0 to Capped(infCount, USB_INTERFACE_MAX_NUM)
      invariant Read(interfaces, parcel.pos) == InterfacesAt(parcel.cells, start, i)
    {
      var intf := UnmarshalInterface(parcel);
      interfaces := interfaces + [intf];
    }
    return head.(interfaces := interfaces);
  }

  method MarshalDeviceNumbers(dev: Device, parcel: Parcel)
    modifies parcel`cells
    ensures parcel.cells == old(parcel.cells) + DeviceNumbers(dev)
  {
    parcel.WriteUint32(dev.busNum);
    parcel.WriteUint32(dev.devAddr);
    parcel.WriteInt32(dev.vendorId);
    parcel.WriteInt32(dev.productId);
    parcel.WriteInt32(dev.baseClass);
    parcel.WriteInt32(dev.subClass);
    parcel.WriteInt32(dev.protocol);
    parcel.WriteUint32(dev.iManufacturer);
    parcel.WriteUint32(dev.iProduct);
    parcel.WriteUint32(dev.iSerialNumber);
    parcel.WriteUint32(dev.maxPacketSize0);
    parcel.WriteUint32(dev.bcdUSB);
    parcel.WriteUint32(dev.bcdDevice);
  }

  // The strings of a device and the number of its configurations.
  method MarshalDeviceTexts(dev: Device, parcel: Parcel)
    modifies parcel`cells
    ensures parcel.cells == old(parcel.cells) + DeviceTexts(dev)
  {
    parcel.WriteString(dev.name);
    parcel.WriteString(dev.manufacturerName);
    parcel.WriteString(dev.productName);
    parcel.WriteString(dev.version);
    parcel.WriteString(dev.serial);
    parcel.WriteUint32(|dev.configs| % UINT32_MODULUS);
  }

  method MarshalDevice(dev: Device, parcel: Parcel)
    modifies parcel`cells
    ensures parcel.cells == old(parcel.cells) + DeviceCells(dev)
  {
    MarshalDeviceNumbers(dev, parcel);
    MarshalDeviceTexts(dev, parcel);
    ghost var head := DeviceNumbers(dev) + DeviceTexts(dev);
    AppendAssociates(old(parcel.cells), DeviceNumbers(dev), DeviceTexts(dev));
    var n := Visited(|dev.configs|, USB_CONFIG_MAX_NUM);
    assert ConfigsCells(dev.configs[..0]) == [] && head + [] == head;
    for i := 0 to n
      invariant parcel.cells == old(parcel.cells) + (head + ConfigsCells(dev.configs[..i]))
    {
      MarshalConfig(dev.configs[i], parcel);
      assert dev.configs[..i + 1][..i] == dev.configs[..i];
      AppendAssociates(head, ConfigsCells(dev.configs[..i]), ConfigCells(dev.configs[i]));
      AppendAssociates(old(parcel.cells), head + ConfigsCells(dev.configs[..i]), ConfigCells(dev.configs[i]));
    }
  }

  method UnmarshalDeviceNumbers(parcel: Parcel) returns (dev: Device)
    modifies parcel`pos
    ensures dev == DeviceNumbersAt(parcel.cells, old(parcel.pos)) && parcel.pos == old(parcel.pos) + 13
  {
    var busNum := parcel.ReadUint8();
    var devAddr := parcel.ReadUint8();
    var vendorId := parcel.ReadInt32();
    var productId := parcel.ReadInt32();
    var baseClass := parcel.ReadInt32();
    var subClass := parcel.ReadInt32();
    var protocol := parcel.ReadInt32();
    var iManufacturer := parcel.ReadUint8();
    var iProduct := parcel.ReadUint8();
    var iSerialNumber := parcel.ReadUint8();
    var maxPacketSize0 := parcel.ReadUint8();
    var bcdUSB := parcel.ReadUint16();
    var bcdDevice := parcel.ReadUint16();
    return Device(busNum, devAddr, vendorId, productId, baseClass, subClass, protocol, iManufacturer, iProduct,
                  iSerialNumber, maxPacketSize0, bcdUSB, bcdDevice, "", "", "", "", "", [], UINT8_MAX, Enabled);
  }

  method UnmarshalDeviceHead(parcel: Parcel) returns (dev: Device)
    modifies parcel`pos
    ensures dev == DeviceHeadAt(parcel.cells, old(parcel.pos)) && parcel.pos == old(parcel.pos) + 18
  {
    var numbers := UnmarshalDeviceNumbers(parcel);
    var name := parcel.ReadString();
    var manufacturerName := parcel.ReadString();
    var productName := parcel.ReadString();
    var version := parcel.ReadString();
    var serial := parcel.ReadString();
    return numbers.(name := name, manufacturerName := manufacturerName, productName := productName, version := version,
                    serial := serial);
  }

  method UnmarshalConfigs(parcel: Parcel, n: nat) returns (configs: seq<Config>)
    modifies parcel`pos
    ensures Read(configs, parcel.pos) == ConfigsAt(parcel.cells, old(parcel.pos), n)
  {
    configs := [];
    for i := 0 to n
      invariant Read(configs, parcel.pos) == ConfigsAt(parcel.cells, old(parcel.pos), i)
    {
      var config := UnmarshalConfig(parcel);
      configs := configs + [config];
    }
  }

  method UnmarshalDevice(parcel: Parcel) returns (dev: Device)
    modifies parcel`pos
    ensures Read(dev, parcel.pos) == DeviceAt(parcel.cells, old(parcel.pos))
  {
    var head := UnmarshalDeviceHead(parcel);
    var configCount := parcel.ReadUint32();
    var configs := UnmarshalConfigs(parcel, Capped(configCount, USB_CONFIG_MAX_NUM));
    return head.(configs := configs);
  }

  method MarshalIsoVec(infos: seq<IsoInfo>, parcel: Parcel)
    modifies parcel`cells
    ensures parcel.cells == old(parcel.cells) + IsoVecCells(infos)
  {
    var vecSize: uint32 := |infos| % UINT32_MODULUS;
    parcel.WriteUint32(vecSize);
    for index := 0 to vecSize
      invariant parcel.cells == old(parcel.cells) + ([Word(vecSize)] + IsosCells(infos[..index]))
    {
      parcel.WriteUint32(1);
      parcel.WriteInt32(infos[index].isoLength);
      parcel.WriteInt32(infos[index].isoActualLength);
      parcel.WriteInt32(infos[index].isoStatus);
      assert infos[..index + 1][..index] == infos[..index];
    }
  }

  // None when the packet is missing.
  method UnmarshalIso(parcel: Parcel) returns (info: Option<IsoInfo>)
    modifies parcel`pos
    ensures IsoAt(parcel.cells, old(parcel.pos)) == if info.Some? then Some(Read(info.value, parcel.pos)) else None
  {
    var present := parcel.ReadUint32();
    if present == 0 {
      return None;
    }
    var isoLength := parcel.ReadInt32();
    var isoActualLength := parcel.ReadInt32();
    var isoStatus := parcel.ReadInt32();
    return Some(IsoInfo(isoLength, isoActualLength, isoStatus));
  }

  method UnmarshalIsos(parcel: Parcel, n: nat) returns (infos: Option<seq<IsoInfo>>)
    modifies parcel`pos
    ensures IsosAt(parcel.cells, old(parcel.pos), n) ==
            if infos.Some? then Some(Read(infos.value, parcel.pos)) else None
  {
    var isoInfoVec: seq<IsoInfo> := [];
    for index := 0 to n
      invariant IsosAt(parcel.cells, old(parcel.pos), index) == Some(Read(isoInfoVec, parcel.pos))
    {
      var info := UnmarshalIso(parcel);
      if info.None? {
        MissingStays(parcel.cells, old(parcel.pos), index + 1, n);
        return None;
      }
      isoInfoVec := isoInfoVec + [info.value];
    }
    return Some(isoInfoVec);
  }

  // None for a null result.
  method UnmarshalIsoVec(parcel: Parcel) returns (infos: Option<seq<IsoInfo>>)
    modifies parcel`pos
    ensures IsoVecAt(parcel.cells, old(parcel.pos)) == if infos.Some? then Some(Read(infos.value, parcel.pos)) else None
  {
    if parcel.pos >= |parcel.cells| || !parcel.cells[parcel.pos].Word? {
      return None;
    }
    var vecSize := parcel.ReadUint32();
    if vecSize > MAX_NUM_OF_ISO_PACKAGE {
      return None;
    }
    infos := UnmarshalIsos(parcel, vecSize);
  }

  lemma {:induction false} MissingStays(cells: seq<Cell>, p: nat, m: nat, n: nat)
    requires m <= n && IsosAt(cells, p, m) == None
    ensures IsosAt(cells, p, n) == None
  {
    if m < n {
      MissingStays(cells, p, m, n - 1);
    }
  }
}
