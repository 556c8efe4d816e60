/** What comes back of a written device child by child, what any parcel reads as, and where each cell lies. */
module ParcelLaws {
  import opened ParcelRoundTrip
  import opened Parcels
  import opened UsbModel

  /// Child by child

  // How many of n children are carried: a 32-bit count, and at most 128.
  function Carried(n: nat): nat
  {
    if n % 0x1_0000_0000 < 128 then n % 0x1_0000_0000 else 128
  }

  predicate InterfaceComesBack(read: Interface, written: Interface)
  {
    var n := Carried(|written.endpoints|);
    && read == written.(authorized := true, endpoints := read.endpoints) && |read.endpoints| == n
    && forall e :: 0 <= e < n ==> read.endpoints[e] == written.endpoints[e]
  }

  predicate ConfigComesBack(read: Config, written: Config)
  {
    var n := Carried(|written.interfaces|);
    && read == written.(interfaces := read.interfaces) && |read.interfaces| == n
    && forall i :: 0 <= i < n ==> InterfaceComesBack(read.interfaces[i], written.interfaces[i])
  }

  predicate DeviceComesBack(read: Device, written: Device)
  {
    var n := Carried(|written.configs|);
    && read == written.(descConfigCount := 255, status := Enabled, configs := read.configs) && |read.configs| == n
    && forall c :: 0 <= c < n ==> ConfigComesBack(read.configs[c], written.configs[c])
  }

  lemma {:induction false} CutInterfacesAt(intfs: seq<Interface>, i: nat)
    requires i < |intfs|
    ensures |CutInterfaces(intfs)| == |intfs| && CutInterfaces(intfs)[i] == CutInterface(intfs[i])
  {
    if i < |intfs| - 1 {
      CutInterfacesAt(intfs[..|intfs| - 1], i);
    } else if i > 0 {
      CutInterfacesAt(intfs[..|intfs| - 1], 0);
    }
  }

  lemma {:induction false} CutConfigsAt(configs: seq<Config>, c: nat)
    requires c < |configs|
    ensures |CutConfigs(configs)| == |configs| && CutConfigs(configs)[c] == CutConfig(configs[c])
  {
    if c < |configs| - 1 {
      CutConfigsAt(configs[..|configs| - 1], c);
    } else if c > 0 {
      CutConfigsAt(configs[..|configs| - 1], 0);
    }
  }

  lemma CutConfigComesBack(config: Config)
    ensures ConfigComesBack(CutConfig(config), config)
  {
    var n := Carried(|config.interfaces|);
    var first := config.interfaces[..n];
    if n > 0 {
      CutInterfacesAt(first, 0);
    }
    forall i | 0 <= i < n ensures InterfaceComesBack(CutInterfaces(first)[i], config.interfaces[i]) {
      CutInterfacesAt(first, i);
    }
  }

  lemma CutDeviceComesBack(dev: Device)
    ensures DeviceComesBack(CutDevice(dev), dev)
  {
    var n := Carried(|dev.configs|);
    var first := dev.configs[..n];
    if n > 0 {
      CutConfigsAt(first, 0);
    }
    forall c | 0 <= c < n ensures ConfigComesBack(CutConfigs(first)[c], dev.configs[c]) {
      CutConfigsAt(first, c);
      CutConfigComesBack(dev.configs[c]);
    }
  }

  // Whatever surrounds it in the parcel, a device comes back with exactly the first 128 children at each level, each with
  // all its fields; only what is not written has its default.
  lemma {:induction false} DeviceComesBackExactly(before: seq<Cell>, dev: Device, tail: seq<Cell>)
    ensures DeviceComesBack(DeviceAt(before + DeviceCells(dev) + tail, |before|).value, dev)
  {
    DeviceRoundTrip(before, dev, tail);
    CutDeviceComesBack(dev);
  }

  /// Any parcel

  // Reading endpoints off any cells at all: five cells for each.
  lemma {:induction false} EndpointsReadAt(cells: seq<Cell>, p: nat, n: nat, k: nat)
    requires k < n
    ensures var read := EndpointsAt(cells, p, n);
            && |read.value| == n && read.end == p + 5 * n
            && read.value[k] ==
               Endpoint(WordAt(cells, p + 5 * k), WordAt(cells, p + 5 * k + 1), Int32At(cells, p + 5 * k + 2),
                        Int32At(cells, p + 5 * k + 3), ByteAt(cells, p + 5 * k + 4))
  {
    if n > 1 {
      EndpointsReadAt(cells, p, n - 1, if k < n - 1 then k else 0);
    }
  }

  // Past its end a parcel reads as a device of zeros and empty strings, with no configurations.
  lemma {:induction false} NothingReadsAsZeros(cells: seq<Cell>, p: nat)
    requires p >= |cells|
    ensures DeviceAt(cells, p).value ==
            Device(0, 0, 0, 0, 0, 0, 0, 0, 0, 0, 0, 0, 0, "", "", "", "", "", [], 255, Enabled)
  {
    assert WordAt(cells, p + 18) == 0;
  }

  predicate AllPresent(cells: seq<Cell>, p: nat, n: nat)
  {
    forall k :: 0 <= k < n ==> WordAt(cells, p + 4 * k) != 0
  }

  lemma {:induction false} IsosReadExactly(cells: seq<Cell>, p: nat, n: nat)
    ensures IsosAt(cells, p, n).Some? <==> AllPresent(cells, p, n)
    ensures IsosAt(cells, p, n).Some? ==>
              var read := IsosAt(cells, p, n).value;
              && |read.value| == n && read.end == p + 4 * n
              && forall k {:trigger read.value[k]} :: 0 <= k < n ==>
                   read.value[k] ==
                   IsoInfo(Int32At(cells, p + 4 * k + 1), Int32At(cells, p + 4 * k + 2), Int32At(cells, p + 4 * k + 3))
  {
    if n > 0 {
      IsosReadExactly(cells, p, n - 1);
      assert AllPresent(cells, p, n) <==> AllPresent(cells, p, n - 1) && WordAt(cells, p + 4 * (n - 1)) != 0;
    }
  }

  // A packet list is read off any cells exactly when there is a count, it is at most 15000, and every packet is marked as
  // present; then packet k lies in the three cells behind its mark.
  lemma {:induction false} IsoVecReadsExactly(cells: seq<Cell>, p: nat)
    ensures IsoVecAt(cells, p).Some? <==>
            p < |cells| && cells[p].Word? && cells[p].value <= 15000 && AllPresent(cells, p + 1, cells[p].value)
    ensures IsoVecAt(cells, p).Some? ==>
              var read, n := IsoVecAt(cells, p).value, cells[p].value;
              && |read.value| == n && read.end == p + 1 + 4 * n
              && forall k {:trigger read.value[k]} :: 0 <= k < n ==>
                   read.value[k] ==
                   IsoInfo(Int32At(cells, p + 4 * k + 2), Int32At(cells, p + 4 * k + 3), Int32At(cells, p + 4 * k + 4))
  {
    if p < |cells| && cells[p].Word? && cells[p].value <= 15000 {
      IsosReadExactly(cells, p + 1, cells[p].value);
    }
  }

  /// Where the cells lie

  function Signed(n: int32): Cell
  {
    Word(if n < 0 then n + 0x1_0000_0000 else n)
  }

  // The cells before the children, in the order of the fields below; the last is the number of children.
  lemma DeviceHeadLies(dev: Device)
    ensures DeviceCells(dev)[..7] ==
            [Word(dev.busNum), Word(dev.devAddr), Signed(dev.vendorId), Signed(dev.productId), Signed(dev.baseClass),
             Signed(dev.subClass), Signed(dev.protocol)]
    ensures DeviceCells(dev)[7..13] ==
            [Word(dev.iManufacturer), Word(dev.iProduct), Word(dev.iSerialNumber), Word(dev.maxPacketSize0),
             Word(dev.bcdUSB), Word(dev.bcdDevice)]
    ensures DeviceCells(dev)[13..19] ==
            [Text(dev.name), Text(dev.manufacturerName), Text(dev.productName), Text(dev.version), Text(dev.serial),
             Word(|dev.configs| % 0x1_0000_0000)]
  {
    HeadOf(DeviceNumbers(dev), DeviceTexts(dev), DeviceCells(dev));
    assert DeviceCells(dev)[..7] == DeviceNumbers(dev)[..7];
    assert DeviceCells(dev)[7..13] == DeviceNumbers(dev)[7..13];
  }

  lemma HeadOf(a: seq<Cell>, b: seq<Cell>, all: seq<Cell>)
    requires a + b <= all
    ensures all[..|a|] == a && all[|a|..|a| + |b|] == b
  {
    assert all[..|a + b|] == a + b;
    assert (a + b)[..|a|] == a && (a + b)[|a|..] == b;
  }

  lemma ConfigHeadLies(config: Config)
    ensures ConfigCells(config)[..6] ==
            [Signed(config.id), Word(config.attributes), Signed(config.maxPower), Word(config.iConfiguration),
             Text(config.name), Word(|config.interfaces| % 0x1_0000_0000)]
  {
    assert ConfigCells(config)[..6] == ConfigHead(config);
  }

  lemma InterfaceHeadLies(intf: Interface)
    ensures InterfaceCells(intf)[..8] ==
            [Signed(intf.id), Signed(intf.protocol), Signed(intf.klass), Signed(intf.subClass),
             Signed(intf.alternateSetting), Text(intf.name), Word(intf.iInterface),
             Word(|intf.endpoints| % 0x1_0000_0000)]
  {
    assert InterfaceCells(intf)[..8] == InterfaceHead(intf);
  }

  lemma {:induction false} EndpointLiesAt(eps: seq<Endpoint>, k: nat)
    requires k < |eps|
    ensures |EndpointsCells(eps)| == 5 * |eps|
    ensures EndpointsCells(eps)[5 * k..5 * k + 5] ==
            [Word(eps[k].address), Word(eps[k].attributes), Signed(eps[k].interval), Signed(eps[k].maxPacketSize),
             Word(eps[k].interfaceId)]
  {
    var before := eps[..|eps| - 1];
    var front := EndpointsCells(before);
    if |eps| > 1 {
      EndpointLiesAt(before, if k < |eps| - 1 then k else 0);
    }
    if k < |eps| - 1 {
      assert EndpointsCells(eps)[5 * k..5 * k + 5] == front[5 * k..5 * k + 5];
    } else {
      assert EndpointsCells(eps)[5 * k..5 * k + 5] == EndpointCells(eps[k]);
    }
  }

  lemma {:induction false} IsoLiesAt(infos: seq<IsoInfo>, k: nat)
    requires k < |infos|
    ensures |IsosCells(infos)| == 4 * |infos|
    ensures IsosCells(infos)[4 * k..4 * k + 4] ==
            [Word(1), Signed(infos[k].isoLength), Signed(infos[k].isoActualLength), Signed(infos[k].isoStatus)]
  {
    var before := infos[..|infos| - 1];
    var front := IsosCells(before);
    if |infos| > 1 {
      IsoLiesAt(before, if k < |infos| - 1 then k else 0);
    }
    if k < |infos| - 1 {
      assert IsosCells(infos)[4 * k..4 * k + 4] == front[4 * k..4 * k + 4];
    } else {
      assert IsosCells(infos)[4 * k..4 * k + 4] == IsoCells(infos[k]);
    }
  }
}
