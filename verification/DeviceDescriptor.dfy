/** Reading the raw descriptor of a device: the device descriptor, then the configurations behind it, and exactly when
    that succeeds and what it leaves of the device when it fails. */
module DeviceDescriptor {
  import opened DescriptorLaws
  import opened Descriptors
  import opened DeviceNames
  import opened UsbModel

  /// The device descriptor (USB 2.0 section 9.6.1)

  const DEVICE_SIZE := 18

  // The device with the fields of an 18-byte device descriptor; its type byte is not looked at.
  function WithDeviceDescriptor(dev: Device, d: seq<byte>): Device
    requires |d| >= DEVICE_SIZE
  {
    dev.(
      bcdUSB := LittleEndian16(d[2], d[3]), baseClass := d[4], subClass := d[5], protocol := d[6],
      maxPacketSize0 := d[7], vendorId := LittleEndian16(d[8], d[9]), productId := LittleEndian16(d[10], d[11]),
      bcdDevice := LittleEndian16(d[12], d[13]), iManufacturer := d[14], iProduct := d[15], iSerialNumber := d[16],
      descConfigCount := d[17])
  }

  function ParsedDevice(buffer: seq<byte>, dev: Device): (Status, Device)
  {
    if |buffer| >= DEVICE_SIZE && buffer[0] == DEVICE_SIZE then (Ok, WithDeviceDescriptor(dev, buffer))
    else (InvalidValue, dev)
  }

  method ParseDeviceDescriptor(buffer: seq<byte>, length: uint32, dev: Device) returns (ret: Status, parsed: Device)
    requires length <= |buffer|
    ensures (ret, parsed) == ParsedDevice(buffer[..length], dev)
  {
    parsed := dev;
    if length == 0 {
      return InvalidValue, parsed;
    }
    if length < DEVICE_SIZE {
      return InvalidValue, parsed;
    }
    if buffer[0] != DEVICE_SIZE {
      return InvalidValue, parsed;
    }
    parsed := parsed.(vendorId := LittleEndian16(buffer[8], buffer[9]));
    parsed := parsed.(productId := LittleEndian16(buffer[10], buffer[11]));
    parsed := parsed.(baseClass := buffer[4], subClass := buffer[5], protocol := buffer[6]);
    parsed := parsed.(descConfigCount := buffer[17]);
    parsed := parsed.(maxPacketSize0 := buffer[7]);
    parsed := parsed.(bcdDevice := LittleEndian16(buffer[12], buffer[13]));
    parsed := parsed.(bcdUSB := LittleEndian16(buffer[2], buffer[3]));
    parsed := parsed.(iManufacturer := buffer[14], iProduct := buffer[15], iSerialNumber := buffer[16]);
    return Ok, parsed;
  }

  // Offset of the first configuration descriptor in a raw descriptor: CURSOR_INIT.
  const CURSOR_INIT: uint32 := 18

  // The device at an address: its address and name are set before its descriptor is looked at.
  function Addressed(dev: Device, busNum: byte, devAddr: byte): Device
  {
    dev.(busNum := busNum, devAddr := devAddr, name := NameOf(busNum, devAddr))
  }

  function DescriptorsRead(descriptor: seq<byte>, busNum: byte, devAddr: byte, dev: Device): (Status, Device)
  {
    var buffer := descriptor[..|descriptor| % UINT32_MODULUS];
    if buffer == [] then (InvalidValue, dev)
    else
      var (status, device) := ParsedDevice(buffer, Addressed(dev, busNum, devAddr));
      if status != Ok then (status, device)
      else
        var tree := Parse(Window(descriptor, CURSOR_INIT), []);
        (tree.status, if tree.status == Ok then device.(configs := tree.configs) else device)
  }

  /// When reading succeeds

  // The bytes that the 32-bit length of a raw descriptor covers.
  function Raw(descriptor: seq<byte>): seq<byte>
  {
    descriptor[..|descriptor| % UINT32_MODULUS]
  }

  predicate HasDeviceHeader(raw: seq<byte>)
  {
    |raw| >= 18 && raw[0] == 18
  }

  ghost predicate NothingMisplaced(buf: seq<byte>)
  {
    FramesAreWellFramed(buf);
    forall i :: 0 <= i < |Frames(buf)| ==> !Misplaced(Frames(buf), i, [])
  }

  function ItemsOf(buf: seq<byte>): seq<Item>
  {
    FramesAreWellFramed(buf);
    RecognisedItems(Frames(buf))
  }

  lemma {:induction false} TreeReadsExactly(buf: seq<byte>)
    ensures Parse(buf, []).status == Ok <==> NothingMisplaced(buf)
    ensures Parse(buf, []).status == Ok ==>
              ParsedTree(Parse(buf, []).configs) && Flatten(Parse(buf, []).configs) == ItemsOf(buf)
  {
    FramesAreWellFramed(buf);
    FailsExactly(Frames(buf), []);
    FoldKeepsParsedTree(Frames(buf), []);
    if Parse(buf, []).status == Ok {
      FlattenFold(Frames(buf), []);
      assert [] + ItemsOf(buf) == ItemsOf(buf);
    }
  }

  lemma WindowBehindHeader(descriptor: seq<byte>)
    requires HasDeviceHeader(Raw(descriptor))
    ensures Window(descriptor, CURSOR_INIT) == Raw(descriptor)[18..]
  {
  }

  // Both parsers, as the host manager runs them on the raw descriptor of the device at an address. Reading succeeds
  // exactly with a device descriptor of 18 bytes and no misplaced descriptor behind it. An empty buffer changes nothing,
  // and no failure changes the tree.
  method ReadDescriptors(descriptor: seq<byte>, busNum: byte, devAddr: byte, dev: Device)
    returns (ret: Status, parsed: Device)
    ensures (ret, parsed) == DescriptorsRead(descriptor, busNum, devAddr, dev)
    ensures ret == Ok <==> HasDeviceHeader(Raw(descriptor)) && NothingMisplaced(Raw(descriptor)[18..])
    ensures ret != Ok ==> parsed.configs == dev.configs
    ensures ret == Ok ==> ParsedTree(parsed.configs) && Flatten(parsed.configs) == ItemsOf(Raw(descriptor)[18..])
    ensures var d: seq<int> := Raw(descriptor);
            parsed ==
            if d == [] then dev
            else if !HasDeviceHeader(d) then dev.(busNum := busNum, devAddr := devAddr, name := NameOf(busNum, devAddr))
            else dev.(
              busNum := busNum, devAddr := devAddr, name := NameOf(busNum, devAddr),
              bcdUSB := d[2] + 256 * d[3], baseClass := d[4], subClass := d[5], protocol := d[6], maxPacketSize0 := d[7],
              vendorId := d[8] + 256 * d[9], productId := d[10] + 256 * d[11], bcdDevice := d[12] + 256 * d[13],
              iManufacturer := d[14], iProduct := d[15], iSerialNumber := d[16], descConfigCount := d[17],
              configs := parsed.configs)
  {
    var length := |descriptor| % UINT32_MODULUS;
    if length == 0 {
      return InvalidValue, dev;
    }
    parsed := dev.(busNum := busNum);
    parsed := parsed.(devAddr := devAddr);
    parsed := parsed.(name := NameOf(busNum, devAddr));
    ret, parsed := ParseDeviceDescriptor(descriptor, length, parsed);
    if ret != Ok {
      return;
    }
    WindowBehindHeader(descriptor);
    TreeReadsExactly(Raw(descriptor)[18..]);
    var tree := new ConfigVector();
    ret := ParseConfigDescriptors(descriptor, CURSOR_INIT, tree);
    if ret == Ok {
      parsed := parsed.(configs := tree.configs);
    }
  }
}
