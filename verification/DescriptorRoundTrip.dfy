/** A printer for configuration descriptors, and the proof that the parser undoes it.
    A document is a tree plus everything the parser is free to ignore: the count and total-length
    fields, the two extra bytes of an audio endpoint, and unrecognised descriptors after any element. */
module DescriptorRoundTrip {
  import opened UsbModel
  import opened Descriptors
  import opened DescriptorLaws
  import opened DeviceDescriptor
  import opened DeviceNames

  predicate IsNoise(frame: seq<byte>)
  {
    WellFramed(frame) && frame[1] != 2 && frame[1] != 4 && frame[1] != 5
  }

  type Noise = frames: seq<seq<byte>> | forall i :: 0 <= i < |frames| ==> IsNoise(frames[i])

  type AudioTail = bytes: seq<byte> | |bytes| == 0 || |bytes| == 2

  datatype EndpointDoc = EndpointDoc(
    bEndpointAddress: byte, bmAttributes: byte, wMaxPacketSize: uint16, bInterval: byte,
    audioTail: AudioTail, noise: Noise)

  datatype InterfaceDoc = InterfaceDoc(
    bInterfaceNumber: byte, bAlternateSetting: byte, bNumEndpoints: byte, bInterfaceClass: byte,
    bInterfaceSubClass: byte, bInterfaceProtocol: byte, iInterface: byte,
    noise: Noise, endpoints: seq<EndpointDoc>)

  datatype ConfigDoc = ConfigDoc(
    wTotalLength: uint16, bNumInterfaces: byte, bConfigurationValue: byte, iConfiguration: byte,
    bmAttributes: byte, bMaxPower: byte, noise: Noise, interfaces: seq<InterfaceDoc>)

  /// Printing, in the layouts of USB 2.0 sections 9.6.3, 9.6.5 and 9.6.6

  function Low(n: uint16): byte { n % 0x100 }

  function High(n: uint16): byte { n / 0x100 }

  function PrintEndpoint(d: EndpointDoc): seq<seq<byte>>
  {
    var size: byte := 7 + |d.audioTail|;
    [[size, 5, d.bEndpointAddress, d.bmAttributes, Low(d.wMaxPacketSize), High(d.wMaxPacketSize), d.bInterval]
     + d.audioTail]
    + d.noise
  }

  function PrintEndpoints(ds: seq<EndpointDoc>): seq<seq<byte>>
  {
    if ds == [] then [] else PrintEndpoint(ds[0]) + PrintEndpoints(ds[1..])
  }

  function InterfaceHeader(d: InterfaceDoc): seq<byte>
  {
    [9, 4, d.bInterfaceNumber, d.bAlternateSetting, d.bNumEndpoints, d.bInterfaceClass,
     d.bInterfaceSubClass, d.bInterfaceProtocol, d.iInterface]
  }

  function PrintInterface(d: InterfaceDoc): seq<seq<byte>>
  {
    [InterfaceHeader(d)] + d.noise + PrintEndpoints(d.endpoints)
  }

  function PrintInterfaces(ds: seq<InterfaceDoc>): seq<seq<byte>>
  {
    if ds == [] then [] else PrintInterface(ds[0]) + PrintInterfaces(ds[1..])
  }

  function ConfigHeader(d: ConfigDoc): seq<byte>
  {
    [9, 2, Low(d.wTotalLength), High(d.wTotalLength), d.bNumInterfaces, d.bConfigurationValue,
     d.iConfiguration, d.bmAttributes, d.bMaxPower]
  }

  function PrintConfig(d: ConfigDoc): seq<seq<byte>>
  {
    [ConfigHeader(d)] + d.noise + PrintInterfaces(d.interfaces)
  }

  function PrintConfigs(ds: seq<ConfigDoc>): seq<seq<byte>>
  {
    if ds == [] then [] else PrintConfig(ds[0]) + PrintConfigs(ds[1..])
  }

  /// The tree a document stands for

  function EndpointOf(d: EndpointDoc, owner: byte): Endpoint
  {
    Endpoint(d.bEndpointAddress, d.bmAttributes, d.bInterval, d.wMaxPacketSize, owner)
  }

  function EndpointsOf(ds: seq<EndpointDoc>, owner: byte): (endpoints: seq<Endpoint>)
    ensures |endpoints| == |ds|
  {
    seq(|ds|, i requires 0 <= i < |ds| => EndpointOf(ds[i], owner))
  }

  function InterfaceOf(d: InterfaceDoc): Interface
  {
    Interface(d.bInterfaceNumber, d.bInterfaceProtocol, d.bInterfaceClass, d.bInterfaceSubClass, d.bAlternateSetting, "",
              d.iInterface, EndpointsOf(d.endpoints, d.bInterfaceNumber), true)
  }

  function InterfacesOf(ds: seq<InterfaceDoc>): (interfaces: seq<Interface>)
    ensures |interfaces| == |ds|
  {
    seq(|ds|, i requires 0 <= i < |ds| => InterfaceOf(ds[i]))
  }

  function ConfigOf(d: ConfigDoc): Config
  {
    Config(d.bConfigurationValue, d.bmAttributes, d.bMaxPower, d.iConfiguration, "",
           InterfacesOf(d.interfaces))
  }

  function TreeOf(ds: seq<ConfigDoc>): (configs: seq<Config>)
    ensures |configs| == |ds|
  {
    seq(|ds|, i requires 0 <= i < |ds| => ConfigOf(ds[i]))
  }

  /// Printed frames are whole, recognised where they should be, and list the tree depth first

  predicate Clean(frames: seq<seq<byte>>)
  {
    forall i :: 0 <= i < |frames| ==> WellFramed(frames[i]) && Decode(frames[i]) != WrongLength
  }

  lemma {:induction false} ItemsOfJoin(a: seq<seq<byte>>, b: seq<seq<byte>>)
    requires AllWellFramed(a) && AllWellFramed(b)
    ensures RecognisedItems(a + b) == RecognisedItems(a) + RecognisedItems(b)
  {
    if a == [] {
      assert a + b == b;
    } else {
      assert (a + b)[1..] == a[1..] + b;
      ItemsOfJoin(a[1..], b);
    }
  }

  lemma {:induction false} NoiseIsSilent(noise: Noise)
    ensures Clean(noise) && RecognisedItems(noise) == []
  {
    if noise != [] {
      assert IsNoise(noise[0]);
      NoiseIsSilent(noise[1..]);
    }
  }

  lemma FrameThenNoise(frame: seq<byte>, noise: Noise)
    requires WellFramed(frame) && Decode(frame).Recognised?
    ensures Clean([frame] + noise) && RecognisedItems([frame] + noise) == [Decode(frame).item]
  {
    NoiseIsSilent(noise);
    assert ([frame] + noise)[1..] == noise;
  }

  lemma EndpointPrinted(d: EndpointDoc, owner: byte)
    ensures Clean(PrintEndpoint(d))
    ensures RecognisedItems(PrintEndpoint(d)) == FlattenEndpoints([EndpointOf(d, owner)])
  {
    var frame := PrintEndpoint(d)[0];
    assert WellFramed(frame);
    FrameThenNoise(frame, d.noise);
  }

  lemma {:induction false} EndpointsPrinted(ds: seq<EndpointDoc>, owner: byte)
    ensures Clean(PrintEndpoints(ds))
    ensures RecognisedItems(PrintEndpoints(ds)) == FlattenEndpoints(EndpointsOf(ds, owner))
  {
    if ds != [] {
      EndpointPrinted(ds[0], owner);
      EndpointsPrinted(ds[1..], owner);
      ItemsOfJoin(PrintEndpoint(ds[0]), PrintEndpoints(ds[1..]));
    }
  }

  lemma InterfacePrinted(d: InterfaceDoc)
    ensures Clean(PrintInterface(d))
    ensures RecognisedItems(PrintInterface(d)) ==
            [HeadOfInterface(InterfaceOf(d))] + FlattenEndpoints(InterfaceOf(d).endpoints)
  {
    FrameThenNoise(InterfaceHeader(d), d.noise);
    EndpointsPrinted(d.endpoints, d.bInterfaceNumber);
    ItemsOfJoin([InterfaceHeader(d)] + d.noise, PrintEndpoints(d.endpoints));
  }

  // FlattenInterfaces and Flatten take the last element off; these take the first.
  lemma {:induction false} FlattenInterfacesHead(interfaces: seq<Interface>)
    requires interfaces != []
    ensures FlattenInterfaces(interfaces) ==
            [HeadOfInterface(interfaces[0])] + FlattenEndpoints(interfaces[0].endpoints) + FlattenInterfaces(interfaces[1..])
  {
    if |interfaces| > 1 {
      var front := interfaces[..|interfaces| - 1];
      FlattenInterfacesHead(front);
      assert front[1..] == interfaces[1..][..|interfaces| - 2];
    } else {
      assert interfaces[..0] == [] == interfaces[1..];
    }
  }

  lemma {:induction false} FlattenHead(configs: seq<Config>)
    requires configs != []
    ensures Flatten(configs) ==
            [HeadOfConfig(configs[0])] + FlattenInterfaces(configs[0].interfaces) + Flatten(configs[1..])
  {
    if |configs| > 1 {
      var front := configs[..|configs| - 1];
      FlattenHead(front);
      assert front[1..] == configs[1..][..|configs| - 2];
    } else {
      assert configs[..0] == [] == configs[1..];
    }
  }

  lemma FlattenInterfacesOf(ds: seq<InterfaceDoc>)
    requires ds != []
    ensures FlattenInterfaces(InterfacesOf(ds)) ==
            [HeadOfInterface(InterfaceOf(ds[0]))] + FlattenEndpoints(InterfaceOf(ds[0]).endpoints) +
            FlattenInterfaces(InterfacesOf(ds[1..]))
  {
    FlattenInterfacesHead(InterfacesOf(ds));
    assert InterfacesOf(ds)[1..] == InterfacesOf(ds[1..]);
  }

  lemma {:induction false} InterfacesPrinted(ds: seq<InterfaceDoc>)
    ensures Clean(PrintInterfaces(ds))
    ensures RecognisedItems(PrintInterfaces(ds)) == FlattenInterfaces(InterfacesOf(ds))
  {
    if ds != [] {
      InterfacePrinted(ds[0]);
      InterfacesPrinted(ds[1..]);
      ItemsOfJoin(PrintInterface(ds[0]), PrintInterfaces(ds[1..]));
      FlattenInterfacesOf(ds);
    }
  }

  lemma ConfigPrinted(d: ConfigDoc)
    ensures Clean(PrintConfig(d))
    ensures RecognisedItems(PrintConfig(d)) == [HeadOfConfig(ConfigOf(d))] + FlattenInterfaces(ConfigOf(d).interfaces)
  {
    FrameThenNoise(ConfigHeader(d), d.noise);
    InterfacesPrinted(d.interfaces);
    ItemsOfJoin([ConfigHeader(d)] + d.noise, PrintInterfaces(d.interfaces));
  }

  lemma FlattenTreeOf(ds: seq<ConfigDoc>)
    requires ds != []
    ensures Flatten(TreeOf(ds)) ==
            [HeadOfConfig(ConfigOf(ds[0]))] + FlattenInterfaces(ConfigOf(ds[0]).interfaces) + Flatten(TreeOf(ds[1..]))
  {
    FlattenHead(TreeOf(ds));
    assert TreeOf(ds)[1..] == TreeOf(ds[1..]);
  }

  lemma {:induction false} ConfigsPrinted(ds: seq<ConfigDoc>)
    ensures Clean(PrintConfigs(ds))
    ensures RecognisedItems(PrintConfigs(ds)) == Flatten(TreeOf(ds))
  {
    if ds != [] {
      ConfigPrinted(ds[0]);
      ConfigsPrinted(ds[1..]);
      ItemsOfJoin(PrintConfig(ds[0]), PrintConfigs(ds[1..]));
      FlattenTreeOf(ds);
    }
  }

  lemma TreeOfIsParsed(ds: seq<ConfigDoc>)
    ensures ParsedTree(TreeOf(ds))
  {
    forall c | 0 <= c < |ds| ensures ParsedConfig(TreeOf(ds)[c]) {
      var d := ds[c];
      forall i | 0 <= i < |d.interfaces| ensures ParsedInterface(ConfigOf(d).interfaces[i]) {
      }
    }
  }

  /// The round trip

  function Print(leading: Noise, ds: seq<ConfigDoc>): seq<byte>
  {
    Concat(leading + PrintConfigs(ds))
  }

  lemma PrintedFrames(leading: Noise, ds: seq<ConfigDoc>)
    ensures Clean(leading + PrintConfigs(ds))
    ensures RecognisedItems(leading + PrintConfigs(ds)) == Flatten(TreeOf(ds))
  {
    NoiseIsSilent(leading);
    ConfigsPrinted(ds);
    ItemsOfJoin(leading, PrintConfigs(ds));
  }

  // Parsing a printed document, after any leading noise and before any bytes that do not frame, gives its tree.
  lemma {:induction false} ParseUndoesPrint(leading: Noise, ds: seq<ConfigDoc>, junk: seq<byte>)
    requires Frames(junk) == []
    ensures Parse(Print(leading, ds) + junk, []) == Outcome(Ok, TreeOf(ds))
  {
    PrintedFrames(leading, ds);
    var frames := leading + PrintConfigs(ds);
    FramesOfConcat(frames, junk);
    assert Frames(Print(leading, ds) + junk) == frames;
    FoldIsPlaceAll(frames, []);
    TreeOfIsParsed(ds);
    RebuildTree(TreeOf(ds));
  }

  /// The whole raw descriptor of a device

  datatype DeviceDoc = DeviceDoc(
    bDescriptorType: byte, bcdUSB: uint16, bDeviceClass: byte, bDeviceSubClass: byte, bDeviceProtocol: byte,
    bMaxPacketSize0: byte, idVendor: uint16, idProduct: uint16, bcdDevice: uint16,
    iManufacturer: byte, iProduct: byte, iSerialNumber: byte, bNumConfigurations: byte)

  // The layout of USB 2.0 section 9.6.1.
  function PrintDevice(d: DeviceDoc): seq<byte>
  {
    [18, d.bDescriptorType, Low(d.bcdUSB), High(d.bcdUSB), d.bDeviceClass, d.bDeviceSubClass,
     d.bDeviceProtocol, d.bMaxPacketSize0, Low(d.idVendor), High(d.idVendor), Low(d.idProduct), High(d.idProduct),
     Low(d.bcdDevice), High(d.bcdDevice), d.iManufacturer, d.iProduct, d.iSerialNumber, d.bNumConfigurations]
  }

  lemma {:induction false} DeviceUndoesPrint(d: DeviceDoc, rest: seq<byte>, dev: Device)
    ensures ParsedDevice(PrintDevice(d) + rest, dev) ==
            (Ok, dev.(bcdUSB := d.bcdUSB, baseClass := d.bDeviceClass, subClass := d.bDeviceSubClass,
                      protocol := d.bDeviceProtocol, maxPacketSize0 := d.bMaxPacketSize0, vendorId := d.idVendor,
                      productId := d.idProduct, bcdDevice := d.bcdDevice, iManufacturer := d.iManufacturer,
                      iProduct := d.iProduct, iSerialNumber := d.iSerialNumber, descConfigCount := d.bNumConfigurations))
  {
    assert forall i :: 0 <= i < DEVICE_SIZE ==> (PrintDevice(d) + rest)[i] == PrintDevice(d)[i];
  }

  lemma BehindDevice(d: DeviceDoc, rest: seq<byte>)
    requires |PrintDevice(d) + rest| < UINT32_MODULUS
    ensures var raw := PrintDevice(d) + rest; raw[..|raw|] == raw && Window(raw, CURSOR_INIT) == rest
  {
    var raw := PrintDevice(d) + rest;
    assert raw[..|raw|] == raw;
    assert raw[18..] == rest;
  }

  // Reading a printed device and its printed configurations gives exactly that device, with its address and name and
  // with exactly that tree.
  lemma {:induction false} DescriptorsUndoPrint(d: DeviceDoc, leading: Noise, ds: seq<ConfigDoc>, busNum: byte,
                                                devAddr: byte, dev: Device)
    requires |PrintDevice(d) + Print(leading, ds)| < UINT32_MODULUS
    ensures DescriptorsRead(PrintDevice(d) + Print(leading, ds), busNum, devAddr, dev) ==
            (Ok, dev.(busNum := busNum, devAddr := devAddr, name := NameOf(busNum, devAddr), bcdUSB := d.bcdUSB,
                      baseClass := d.bDeviceClass, subClass := d.bDeviceSubClass, protocol := d.bDeviceProtocol,
                      maxPacketSize0 := d.bMaxPacketSize0, vendorId := d.idVendor, productId := d.idProduct,
                      bcdDevice := d.bcdDevice, iManufacturer := d.iManufacturer, iProduct := d.iProduct,
                      iSerialNumber := d.iSerialNumber, descConfigCount := d.bNumConfigurations, configs := TreeOf(ds)))
  {
    BehindDevice(d, Print(leading, ds));
    DeviceUndoesPrint(d, Print(leading, ds), Addressed(dev, busNum, devAddr));
    assert Print(leading, ds) + [] == Print(leading, ds);
    ParseUndoesPrint(leading, ds, []);
  }
}
