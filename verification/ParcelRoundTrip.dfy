/** Reading back what was written: the tree comes back cut to the caps, and the rest of the parcel is left alone. */
module ParcelRoundTrip {
  import opened Parcels
  import opened UsbModel

  // The cells from position p on start with the given ones.
  predicate Has(cells: seq<Cell>, p: nat, part: seq<Cell>)
  {
    p + |part| <= |cells| && cells[p..p + |part|] == part
  }

  lemma HasParts(cells: seq<Cell>, p: nat, a: seq<Cell>, b: seq<Cell>)
    requires Has(cells, p, a + b)
    ensures Has(cells, p, a) && Has(cells, p + |a|, b)
  {
    var whole := cells[p..p + |a + b|];
    assert whole[..|a|] == a && whole[|a|..] == b;
    assert cells[p..p + |a|] == whole[..|a|];
    assert cells[p + |a|..p + |a| + |b|] == whole[|a|..];
  }

  lemma HasCell(cells: seq<Cell>, p: nat, part: seq<Cell>, i: nat)
    requires Has(cells, p, part) && i < |part|
    ensures p + i < |cells| && cells[p + i] == part[i]
  {
    assert cells[p..p + |part|][i] == cells[p + i];
  }

  // All of the first cells at once.
  lemma HasCells(cells: seq<Cell>, p: nat, part: seq<Cell>)
    requires Has(cells, p, part)
    ensures forall i {:trigger part[i]} :: 0 <= i < |part| ==> p + i < |cells| && cells[p + i] == part[i]
  {
    forall i {:trigger part[i]} | 0 <= i < |part| ensures p + i < |cells| && cells[p + i] == part[i] {
      HasCell(cells, p, part, i);
    }
  }

  /// What comes back

  function CutInterface(intf: Interface): Interface
  {
    intf.(endpoints := intf.endpoints[..Visited(|intf.endpoints|, USB_ENDPOINT_MAX_NUM)], authorized := true)
  }

  function CutInterfaces(intfs: seq<Interface>): seq<Interface>
  {
    if intfs == [] then [] else CutInterfaces(intfs[..|intfs| - 1]) + [CutInterface(intfs[|intfs| - 1])]
  }

  function CutConfig(config: Config): Config
  {
    config.(interfaces := CutInterfaces(config.interfaces[..Visited(|config.interfaces|, USB_INTERFACE_MAX_NUM)]))
  }

  function CutConfigs(configs: seq<Config>): seq<Config>
  {
    if configs == [] then [] else CutConfigs(configs[..|configs| - 1]) + [CutConfig(configs[|configs| - 1])]
  }

  // The tree cut to 128 children at each level; what is not written comes back as its default.
  function CutDevice(dev: Device): Device
  {
    dev.(configs := CutConfigs(dev.configs[..Visited(|dev.configs|, USB_CONFIG_MAX_NUM)]),
         descConfigCount := UINT8_MAX, status := Enabled)
  }

  /// Level by level

  lemma {:induction false} EndpointReadsBack(cells: seq<Cell>, p: nat, ep: Endpoint)
    requires Has(cells, p, EndpointCells(ep))
    ensures EndpointAt(cells, p) == Read(ep, p + |EndpointCells(ep)|)
  {
    HasCells(cells, p, EndpointCells(ep));
    var part := EndpointCells(ep);
    assert part[0] == Word(ep.address) && part[1] == Word(ep.attributes);
    assert part[2] == Word(ToWord(ep.interval)) && part[3] == Word(ToWord(ep.maxPacketSize));
    assert part[4] == Word(ep.interfaceId);
  }

  lemma EndpointsOneMore(cells: seq<Cell>, p: nat, before: seq<Endpoint>, last: Endpoint, at: nat, end: nat)
    requires EndpointsAt(cells, p, |before|) == Read(before, at)
    requires EndpointAt(cells, at) == Read(last, end)
    ensures EndpointsAt(cells, p, |before| + 1) == Read(before + [last], end)
  {
  }

  lemma HasEndpoints(cells: seq<Cell>, p: nat, before: seq<Endpoint>, last: Endpoint)
    requires Has(cells, p, EndpointsCells(before + [last]))
    ensures var at := p + |EndpointsCells(before)|;
            && Has(cells, p, EndpointsCells(before)) && Has(cells, at, EndpointCells(last))
            && p + |EndpointsCells(before + [last])| == at + |EndpointCells(last)|
  {
    assert (before + [last])[..|before|] == before;
    HasParts(cells, p, EndpointsCells(before), EndpointCells(last));
  }

  lemma {:induction false} EndpointsReadBack(cells: seq<Cell>, p: nat, eps: seq<Endpoint>)
    requires Has(cells, p, EndpointsCells(eps))
    ensures EndpointsAt(cells, p, |eps|) == Read(eps, p + |EndpointsCells(eps)|)
  {
    if eps != [] {
      var before, last := eps[..|eps| - 1], eps[|eps| - 1];
      var at, end := p + |EndpointsCells(before)|, p + |EndpointsCells(eps)|;
      assert before + [last] == eps;
      HasEndpoints(cells, p, before, last);
      EndpointsReadBack(cells, p, before);
      EndpointReadsBack(cells, at, last);
      EndpointsOneMore(cells, p, before, last, at, end);
    }
  }

  lemma InterfaceHeadReadsBack(cells: seq<Cell>, p: nat, intf: Interface)
    requires Has(cells, p, InterfaceHead(intf))
    ensures InterfaceHeadAt(cells, p) == intf.(endpoints := [], authorized := true)
    ensures WordAt(cells, p + 7) == |intf.endpoints| % UINT32_MODULUS
  {
    var part := InterfaceHead(intf);
    HasCells(cells, p, part);
    assert part[0] == Word(ToWord(intf.id)) && part[1] == Word(ToWord(intf.protocol));
    assert part[2] == Word(ToWord(intf.klass)) && part[3] == Word(ToWord(intf.subClass));
    assert part[4] == Word(ToWord(intf.alternateSetting)) && part[5] == Text(intf.name);
    assert part[6] == Word(intf.iInterface) && part[7] == Word(|intf.endpoints| % UINT32_MODULUS);
  }

  lemma InterfaceReadsBack(cells: seq<Cell>, p: nat, intf: Interface)
    requires Has(cells, p, InterfaceCells(intf))
    ensures InterfaceAt(cells, p) == Read(CutInterface(intf), p + |InterfaceCells(intf)|)
  {
    var eps := intf.endpoints[..Visited(|intf.endpoints|, USB_ENDPOINT_MAX_NUM)];
    HasParts(cells, p, InterfaceHead(intf), EndpointsCells(eps));
    InterfaceHeadReadsBack(cells, p, intf);
    EndpointsReadBack(cells, p + 8, eps);
  }

  lemma InterfacesOneMore(cells: seq<Cell>, p: nat, before: seq<Interface>, last: Interface, at: nat, end: nat)
    requires InterfacesAt(cells, p, |before|) == Read(CutInterfaces(before), at)
    requires InterfaceAt(cells, at) == Read(CutInterface(last), end)
    ensures InterfacesAt(cells, p, |before| + 1) == Read(CutInterfaces(before + [last]), end)
  {
    assert (before + [last])[..|before|] == before;
  }

  lemma HasInterfaces(cells: seq<Cell>, p: nat, before: seq<Interface>, last: Interface)
    requires Has(cells, p, InterfacesCells(before + [last]))
    ensures var at := p + |InterfacesCells(before)|;
            && Has(cells, p, InterfacesCells(before)) && Has(cells, at, InterfaceCells(last))
            && p + |InterfacesCells(before + [last])| == at + |InterfaceCells(last)|
  {
    assert (before + [last])[..|before|] == before;
    HasParts(cells, p, InterfacesCells(before), InterfaceCells(last));
  }

  lemma LastInterfaceReadsBack(cells: seq<Cell>, p: nat, before: seq<Interface>, last: Interface, at: nat)
    requires InterfacesAt(cells, p, |before|) == Read(CutInterfaces(before), at) && Has(cells, at, InterfaceCells(last))
    ensures InterfacesAt(cells, p, |before| + 1) == Read(CutInterfaces(before + [last]), at + |InterfaceCells(last)|)
  {
    InterfaceReadsBack(cells, at, last);
    InterfacesOneMore(cells, p, before, last, at, at + |InterfaceCells(last)|);
  }

  lemma {:induction false} InterfacesReadBack(cells: seq<Cell>, p: nat, intfs: seq<Interface>)
    requires Has(cells, p, InterfacesCells(intfs))
    ensures InterfacesAt(cells, p, |intfs|) == Read(CutInterfaces(intfs), p + |InterfacesCells(intfs)|)
  {
    if intfs != [] {
      var before, last := intfs[..|intfs| - 1], intfs[|intfs| - 1];
      assert before + [last] == intfs;
      HasInterfaces(cells, p, before, last);
      InterfacesReadBack(cells, p, before);
      LastInterfaceReadsBack(cells, p, before, last, p + |InterfacesCells(before)|);
    }
  }

  lemma ConfigHeadReadsBack(cells: seq<Cell>, p: nat, config: Config)
    requires Has(cells, p, ConfigHead(config))
    ensures ConfigHeadAt(cells, p) == config.(interfaces := [])
    ensures WordAt(cells, p + 5) == |config.interfaces| % UINT32_MODULUS
  {
    var part := ConfigHead(config);
    HasCells(cells, p, part);
    assert part[0] == Word(ToWord(config.id)) && part[1] == Word(config.attributes);
    assert part[2] == Word(ToWord(config.maxPower)) && part[3] == Word(config.iConfiguration);
    assert part[4] == Text(config.name) && part[5] == Word(|config.interfaces| % UINT32_MODULUS);
  }

  lemma ConfigReadsBack(cells: seq<Cell>, p: nat, config: Config)
    requires Has(cells, p, ConfigCells(config))
    ensures ConfigAt(cells, p) == Read(CutConfig(config), p + |ConfigCells(config)|)
  {
    var intfs := config.interfaces[..Visited(|config.interfaces|, USB_INTERFACE_MAX_NUM)];
    HasParts(cells, p, ConfigHead(config), InterfacesCells(intfs));
    ConfigHeadReadsBack(cells, p, config);
    InterfacesReadBack(cells, p + 6, intfs);
  }

  lemma ConfigsOneMore(cells: seq<Cell>, p: nat, before: seq<Config>, last: Config, at: nat, end: nat)
    requires ConfigsAt(cells, p, |before|) == Read(CutConfigs(before), at)
    requires ConfigAt(cells, at) == Read(CutConfig(last), end)
    ensures ConfigsAt(cells, p, |before| + 1) == Read(CutConfigs(before + [last]), end)
  {
    assert (before + [last])[..|before|] == before;
  }

  lemma HasConfigs(cells: seq<Cell>, p: nat, before: seq<Config>, last: Config)
    requires Has(cells, p, ConfigsCells(before + [last]))
    ensures var at := p + |ConfigsCells(before)|;
            && Has(cells, p, ConfigsCells(before)) && Has(cells, at, ConfigCells(last))
            && p + |ConfigsCells(before + [last])| == at + |ConfigCells(last)|
  {
    assert (before + [last])[..|before|] == before;
    HasParts(cells, p, ConfigsCells(before), ConfigCells(last));
  }

  lemma LastConfigReadsBack(cells: seq<Cell>, p: nat, before: seq<Config>, last: Config, at: nat)
    requires ConfigsAt(cells, p, |before|) == Read(CutConfigs(before), at) && Has(cells, at, ConfigCells(last))
    ensures ConfigsAt(cells, p, |before| + 1) == Read(CutConfigs(before + [last]), at + |ConfigCells(last)|)
  {
    ConfigReadsBack(cells, at, last);
    ConfigsOneMore(cells, p, before, last, at, at + |ConfigCells(last)|);
  }

  lemma {:induction false} ConfigsReadBack(cells: seq<Cell>, p: nat, configs: seq<Config>)
    requires Has(cells, p, ConfigsCells(configs))
    ensures ConfigsAt(cells, p, |configs|) == Read(CutConfigs(configs), p + |ConfigsCells(configs)|)
  {
    if configs != [] {
      var before, last := configs[..|configs| - 1], configs[|configs| - 1];
      assert before + [last] == configs;
      HasConfigs(cells, p, before, last);
      ConfigsReadBack(cells, p, before);
      LastConfigReadsBack(cells, p, before, last, p + |ConfigsCells(before)|);
    }
  }

  lemma IdentityReadsBack(cells: seq<Cell>, p: nat, dev: Device)
    requires Has(cells, p, DeviceNumbers(dev))
    ensures && ByteAt(cells, p) == dev.busNum && ByteAt(cells, p + 1) == dev.devAddr
            && Int32At(cells, p + 2) == dev.vendorId && Int32At(cells, p + 3) == dev.productId
            && Int32At(cells, p + 4) == dev.baseClass && Int32At(cells, p + 5) == dev.subClass
            && Int32At(cells, p + 6) == dev.protocol
  {
    var part := DeviceNumbers(dev);
    HasCells(cells, p, part);
    assert part[0] == Word(dev.busNum) && part[1] == Word(dev.devAddr);
    assert part[2] == Word(ToWord(dev.vendorId)) && part[3] == Word(ToWord(dev.productId));
    assert part[4] == Word(ToWord(dev.baseClass)) && part[5] == Word(ToWord(dev.subClass));
    assert part[6] == Word(ToWord(dev.protocol));
  }

  lemma IndexesReadBack(cells: seq<Cell>, p: nat, dev: Device)
    requires Has(cells, p, DeviceNumbers(dev))
    ensures && ByteAt(cells, p + 7) == dev.iManufacturer && ByteAt(cells, p + 8) == dev.iProduct
            && ByteAt(cells, p + 9) == dev.iSerialNumber && ByteAt(cells, p + 10) == dev.maxPacketSize0
            && Uint16At(cells, p + 11) == dev.bcdUSB && Uint16At(cells, p + 12) == dev.bcdDevice
  {
    var part := DeviceNumbers(dev);
    HasCells(cells, p, part);
    assert part[7] == Word(dev.iManufacturer) && part[8] == Word(dev.iProduct);
    assert part[9] == Word(dev.iSerialNumber) && part[10] == Word(dev.maxPacketSize0);
    assert part[11] == Word(dev.bcdUSB) && part[12] == Word(dev.bcdDevice);
  }

  lemma DeviceNumbersReadBack(cells: seq<Cell>, p: nat, dev: Device)
    requires Has(cells, p, DeviceNumbers(dev))
    ensures DeviceNumbersAt(cells, p) == OnlyNumbers(dev)
  {
    IdentityReadsBack(cells, p, dev);
    IndexesReadBack(cells, p, dev);
  }

  function OnlyNumbers(dev: Device): Device
  {
    dev.(name := "", manufacturerName := "", productName := "", version := "", serial := "", configs := [],
         descConfigCount := UINT8_MAX, status := Enabled)
  }

  lemma DeviceTextsReadBack(cells: seq<Cell>, p: nat, dev: Device)
    requires Has(cells, p, DeviceTexts(dev))
    ensures && TextAt(cells, p) == dev.name && TextAt(cells, p + 1) == dev.manufacturerName
            && TextAt(cells, p + 2) == dev.productName && TextAt(cells, p + 3) == dev.version
            && TextAt(cells, p + 4) == dev.serial && WordAt(cells, p + 5) == |dev.configs| % UINT32_MODULUS
  {
    var part := DeviceTexts(dev);
    HasCells(cells, p, part);
    assert part[0] == Text(dev.name) && part[1] == Text(dev.manufacturerName);
    assert part[2] == Text(dev.productName) && part[3] == Text(dev.version);
    assert part[4] == Text(dev.serial) && part[5] == Word(|dev.configs| % UINT32_MODULUS);
  }

  lemma DeviceReadsBack(cells: seq<Cell>, p: nat, dev: Device)
    requires Has(cells, p, DeviceCells(dev))
    ensures DeviceAt(cells, p) == Read(CutDevice(dev), p + |DeviceCells(dev)|)
  {
    var configs := dev.configs[..Visited(|dev.configs|, USB_CONFIG_MAX_NUM)];
    HasParts(cells, p, DeviceNumbers(dev) + DeviceTexts(dev), ConfigsCells(configs));
    HasParts(cells, p, DeviceNumbers(dev), DeviceTexts(dev));
    DeviceNumbersReadBack(cells, p, dev);
    DeviceTextsReadBack(cells, p + 13, dev);
    ConfigsReadBack(cells, p + 19, configs);
  }

  /// The round trips

  lemma HasMiddle(before: seq<Cell>, part: seq<Cell>, tail: seq<Cell>)
    ensures var cells := before + part + tail;
            Has(cells, |before|, part) && cells[|before| + |part|..] == tail
  {
  }

  // A written device, whatever surrounds it in the parcel, reads back cut to the caps and leaves exactly the tail.
  lemma {:induction false} DeviceRoundTrip(before: seq<Cell>, dev: Device, tail: seq<Cell>)
    ensures var cells := before + DeviceCells(dev) + tail;
            var read := DeviceAt(cells, |before|);
            read.value == CutDevice(dev) && read.end <= |cells| && cells[read.end..] == tail
  {
    HasMiddle(before, DeviceCells(dev), tail);
    DeviceReadsBack(before + DeviceCells(dev) + tail, |before|, dev);
  }

  predicate FitsInterface(intf: Interface)
  {
    |intf.endpoints| <= USB_ENDPOINT_MAX_NUM && intf.authorized
  }

  predicate FitsConfig(config: Config)
  {
    && |config.interfaces| <= USB_INTERFACE_MAX_NUM
    && forall i :: 0 <= i < |config.interfaces| ==>
         FitsInterface(config.interfaces[i])
  }

  // Nothing to cut, and nothing but the defaults in what is not written.
  predicate Fits(dev: Device)
  {
    && |dev.configs| <= USB_CONFIG_MAX_NUM
    && (forall i :: 0 <= i < |dev.configs| ==> FitsConfig(dev.configs[i]))
    && dev.descConfigCount == UINT8_MAX && dev.status == Enabled
  }

  lemma VisitedAll(size: nat, cap: uint32)
    ensures Visited(size, cap) == size <==> size <= cap
  {
  }

  lemma CutInterfaceSame(intf: Interface)
    ensures CutInterface(intf) == intf <==> FitsInterface(intf)
  {
    VisitedAll(|intf.endpoints|, USB_ENDPOINT_MAX_NUM);
    assert |CutInterface(intf).endpoints| == Visited(|intf.endpoints|, USB_ENDPOINT_MAX_NUM);
  }

  lemma {:induction false} CutInterfacesSame(intfs: seq<Interface>)
    ensures |CutInterfaces(intfs)| == |intfs|
    ensures CutInterfaces(intfs) == intfs <==> forall i :: 0 <= i < |intfs| ==> FitsInterface(intfs[i])
  {
    if intfs != [] {
      var before, last := intfs[..|intfs| - 1], intfs[|intfs| - 1];
      CutInterfacesSame(before);
      CutInterfaceSame(last);
      SameWithLast(CutInterfaces(before), before, CutInterface(last), last);
      assert before + [last] == intfs;
    }
  }

  lemma SameWithLast<T>(a: seq<T>, b: seq<T>, x: T, y: T)
    requires |a| == |b|
    ensures a + [x] == b + [y] <==> a == b && x == y
  {
    if a + [x] == b + [y] {
      assert (a + [x])[..|a|] == a && (b + [y])[..|b|] == b;
      assert (a + [x])[|a|] == x && (b + [y])[|b|] == y;
    }
  }

  lemma CutConfigSame(config: Config)
    ensures CutConfig(config) == config <==> FitsConfig(config)
  {
    var n := Visited(|config.interfaces|, USB_INTERFACE_MAX_NUM);
    VisitedAll(|config.interfaces|, USB_INTERFACE_MAX_NUM);
    CutInterfacesSame(config.interfaces[..n]);
    if |config.interfaces| <= USB_INTERFACE_MAX_NUM {
      assert config.interfaces[..n] == config.interfaces;
    }
  }

  lemma {:induction false} CutConfigsSame(configs: seq<Config>)
    ensures |CutConfigs(configs)| == |configs|
    ensures CutConfigs(configs) == configs <==> forall i :: 0 <= i < |configs| ==> FitsConfig(configs[i])
  {
    if configs != [] {
      var before, last := configs[..|configs| - 1], configs[|configs| - 1];
      CutConfigsSame(before);
      CutConfigSame(last);
      SameWithLast(CutConfigs(before), before, CutConfig(last), last);
      assert before + [last] == configs;
    }
  }

  // So a device survives the parcel unchanged exactly when it fits.
  lemma SurvivesExactly(dev: Device)
    ensures DeviceAt(DeviceCells(dev), 0).value == dev <==> Fits(dev)
  {
    assert Has(DeviceCells(dev), 0, DeviceCells(dev));
    DeviceReadsBack(DeviceCells(dev), 0, dev);
    var n := Visited(|dev.configs|, USB_CONFIG_MAX_NUM);
    VisitedAll(|dev.configs|, USB_CONFIG_MAX_NUM);
    CutConfigsSame(dev.configs[..n]);
    if |dev.configs| <= USB_CONFIG_MAX_NUM {
      assert dev.configs[..n] == dev.configs;
    }
  }

  /// The isochronous packet list

  lemma IsoReadsBack(cells: seq<Cell>, p: nat, info: IsoInfo)
    requires Has(cells, p, IsoCells(info))
    ensures IsoAt(cells, p) == Some(Read(info, p + 4))
  {
    var part := IsoCells(info);
    HasCells(cells, p, part);
    assert part[0] == Word(1) && part[1] == Word(ToWord(info.isoLength));
    assert part[2] == Word(ToWord(info.isoActualLength)) && part[3] == Word(ToWord(info.isoStatus));
  }

  lemma IsosOneMore(cells: seq<Cell>, p: nat, before: seq<IsoInfo>, last: IsoInfo, at: nat)
    requires IsosAt(cells, p, |before|) == Some(Read(before, at)) && IsoAt(cells, at) == Some(Read(last, at + 4))
    ensures IsosAt(cells, p, |before| + 1) == Some(Read(before + [last], at + 4))
  {
  }

  lemma HasIsos(cells: seq<Cell>, p: nat, before: seq<IsoInfo>, last: IsoInfo)
    requires Has(cells, p, IsosCells(before + [last]))
    ensures var at := p + |IsosCells(before)|;
            && Has(cells, p, IsosCells(before)) && Has(cells, at, IsoCells(last))
            && p + |IsosCells(before + [last])| == at + 4
  {
    assert (before + [last])[..|before|] == before;
    HasParts(cells, p, IsosCells(before), IsoCells(last));
  }

  lemma {:induction false} IsosReadBack(cells: seq<Cell>, p: nat, infos: seq<IsoInfo>)
    requires Has(cells, p, IsosCells(infos))
    ensures IsosAt(cells, p, |infos|) == Some(Read(infos, p + |IsosCells(infos)|))
  {
    if infos != [] {
      var before, last := infos[..|infos| - 1], infos[|infos| - 1];
      assert before + [last] == infos;
      HasIsos(cells, p, before, last);
      IsosReadBack(cells, p, before);
      IsoReadsBack(cells, p + |IsosCells(before)|, last);
      IsosOneMore(cells, p, before, last, p + |IsosCells(before)|);
    }
  }

  lemma IsoVecReadsBack(cells: seq<Cell>, p: nat, infos: seq<IsoInfo>)
    requires Has(cells, p, IsoVecCells(infos))
    ensures var count, read := |infos| % UINT32_MODULUS, IsoVecAt(cells, p);
            if count <= MAX_NUM_OF_ISO_PACKAGE then read == Some(Read(infos[..count], p + |IsoVecCells(infos)|))
            else read == None
  {
    var count: uint32 := |infos| % UINT32_MODULUS;
    HasParts(cells, p, [Word(count)], IsosCells(infos[..count]));
    HasCell(cells, p, [Word(count)], 0);
    IsosReadBack(cells, p + 1, infos[..count]);
  }

  // The list reads back, leaving the tail, exactly when it has at most 15000 entries; a longer one, unless its size
  // wraps, is refused.
  lemma {:induction false} IsoVecRoundTrip(before: seq<Cell>, infos: seq<IsoInfo>, tail: seq<Cell>)
    ensures var cells := before + IsoVecCells(infos) + tail;
            var read := IsoVecAt(cells, |before|);
            && ((read.Some? && read.value.value == infos) <==> |infos| <= MAX_NUM_OF_ISO_PACKAGE)
            && (read.Some? ==> read.value.end <= |cells| && cells[read.value.end..] == tail)
            && (MAX_NUM_OF_ISO_PACKAGE < |infos| < UINT32_MODULUS ==> read.None?)
  {
    HasMiddle(before, IsoVecCells(infos), tail);
    IsoVecReadsBack(before + IsoVecCells(infos) + tail, |before|, infos);
    if |infos| < UINT32_MODULUS {
      assert infos[..|infos|] == infos;
    } else {
      assert |infos[..|infos| % UINT32_MODULUS]| < |infos|;
    }
  }
}
