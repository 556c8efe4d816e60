/** Parsing a buffer of USB configuration descriptors (USB 2.0 sections 9.6.3, 9.6.5 and 9.6.6)
    into a config / interface / endpoint tree. The loop is proved equal to "frame the bytes,
    then place every recognised descriptor in turn". */
module Descriptors {
  import opened UsbModel

  // UEC_OK and UEC_SERVICE_INVALID_VALUE
  datatype Status = Ok | InvalidValue

  datatype Outcome = Outcome(status: Status, configs: seq<Config>)

  const TYPE_CONFIG: byte := 2
  const TYPE_INTERFACE: byte := 4
  const TYPE_ENDPOINT: byte := 5
  const HEADER_SIZE := 2
  const CONFIG_SIZE := 9
  const INTERFACE_SIZE := 9
  const ENDPOINT_SIZE := 7
  const AUDIO_ENDPOINT_SIZE := 9

  /// The specification: framing

  // Cuts the bytes into descriptors by their length byte, up to the first one that does not fit.
  function Frames(buf: seq<byte>): seq<seq<byte>>
  {
    if |buf| < HEADER_SIZE || buf[0] < HEADER_SIZE || buf[0] > |buf| then []
    else [buf[..buf[0]]] + Frames(buf[buf[0]..])
  }

  predicate WellFramed(frame: seq<byte>)
  {
    HEADER_SIZE <= |frame| && frame[0] == |frame|
  }

  function Concat(frames: seq<seq<byte>>): seq<byte>
  {
    if frames == [] then [] else frames[0] + Concat(frames[1..])
  }

  predicate FullyFramed(buf: seq<byte>)
  {
    Concat(Frames(buf)) == buf
  }

  /// The specification: decoding one frame and placing it in the tree

  // What one recognised descriptor contributes, with the values in the types the tree stores.
  datatype Item =
    | ConfigItem(id: int32, attributes: uint32, maxPower: int32, iConfiguration: byte)
    | InterfaceItem(number: int32, protocol: int32, alternate: int32, klass: int32, subClass: int32, iInterface: byte)
    | EndpointItem(address: uint32, epAttributes: uint32, interval: int32, maxPacketSize: int32)

  datatype Decoded = Unrecognised | WrongLength | Recognised(item: Item)

  function LittleEndian16(lo: byte, hi: byte): uint16 { lo + 0x100 * hi }

  function ReadConfigItem(d: seq<byte>): Item
    requires |d| == CONFIG_SIZE
  {
    ConfigItem(d[5], d[7], d[8], d[6])
  }

  function ReadInterfaceItem(d: seq<byte>): Item
    requires |d| == INTERFACE_SIZE
  {
    InterfaceItem(d[2], d[7], d[3], d[5], d[6], d[8])
  }

  function ReadEndpointItem(d: seq<byte>): Item
    requires |d| >= ENDPOINT_SIZE
  {
    EndpointItem(d[2], d[3], d[6], LittleEndian16(d[4], d[5]))
  }

  function Decode(frame: seq<byte>): Decoded
    requires WellFramed(frame)
  {
    if frame[1] == TYPE_CONFIG then
      if |frame| == CONFIG_SIZE then Recognised(ReadConfigItem(frame)) else WrongLength
    else if frame[1] == TYPE_INTERFACE then
      if |frame| == INTERFACE_SIZE then Recognised(ReadInterfaceItem(frame)) else WrongLength
    else if frame[1] == TYPE_ENDPOINT then
      if |frame| == ENDPOINT_SIZE || |frame| == AUDIO_ENDPOINT_SIZE then Recognised(ReadEndpointItem(frame)) else WrongLength
    else Unrecognised
  }

  function NewConfig(item: Item): Config
    requires item.ConfigItem?
  {
    Config(item.id, item.attributes, item.maxPower, item.iConfiguration, "", [])
  }

  function NewInterface(item: Item): Interface
    requires item.InterfaceItem?
  {
    Interface(item.number, item.protocol, item.klass, item.subClass, item.alternate, "", item.iInterface, [], true)
  }

  function NewEndpoint(item: Item, owner: Interface): Endpoint
    requires item.EndpointItem?
  {
    Endpoint(item.address, item.epAttributes, item.interval, item.maxPacketSize, owner.id % 0x100)
  }

  function WithLast<T>(s: seq<T>, x: T): seq<T>
    requires s != []
  {
    s[|s| - 1 := x]
  }

  function Last<T>(s: seq<T>): T
    requires s != []
  {
    s[|s| - 1]
  }

  function Place(configs: seq<Config>, item: Item): Outcome
  {
    match item
    case ConfigItem(_, _, _, _) => Outcome(Ok, configs + [NewConfig(item)])
    case InterfaceItem(_, _, _, _, _, _) =>
      if configs == [] then Outcome(InvalidValue, configs)
      else
        var config := Last(configs);
        Outcome(Ok, WithLast(configs, config.(interfaces := config.interfaces + [NewInterface(item)])))
    case EndpointItem(_, _, _, _) =>
      if configs == [] || Last(configs).interfaces == [] then Outcome(InvalidValue, configs)
      else
        var config := Last(configs);
        var intf := Last(config.interfaces);
        var grown := intf.(endpoints := intf.endpoints + [NewEndpoint(item, intf)]);
        Outcome(Ok, WithLast(configs, config.(interfaces := WithLast(config.interfaces, grown))))
  }

  function Step(frame: seq<byte>, configs: seq<Config>): Outcome
    requires WellFramed(frame)
  {
    match Decode(frame)
    case Unrecognised => Outcome(Ok, configs)
    case WrongLength => Outcome(InvalidValue, configs)
    case Recognised(item) => Place(configs, item)
  }

  predicate AllWellFramed(frames: seq<seq<byte>>)
  {
    forall i :: 0 <= i < |frames| ==> WellFramed(frames[i])
  }

  function Fold(frames: seq<seq<byte>>, configs: seq<Config>): Outcome
    requires AllWellFramed(frames)
  {
    if frames == [] then Outcome(Ok, configs)
    else
      var next := Step(frames[0], configs);
      if next.status == Ok then Fold(frames[1..], next.configs) else next
  }

  // The bytes the parser looks at: its length is a 32-bit truncation of the vector's size.
  function Window(descriptor: seq<byte>, offset: uint32): seq<byte>
  {
    From(descriptor[..|descriptor| % UINT32_MODULUS], offset)
  }

  function From(buf: seq<byte>, offset: uint32): seq<byte>
  {
    if offset < |buf| then buf[offset..] else []
  }

  lemma FramesAreWellFramed(buf: seq<byte>)
    ensures AllWellFramed(Frames(buf))
  {
  }

  function Parse(buf: seq<byte>, configs: seq<Config>): Outcome
  {
    FramesAreWellFramed(buf);
    Fold(Frames(buf), configs)
  }

  // Whether a whole descriptor starts at cursor, as the two checks of the loop decide.
  predicate Framed(buf: seq<byte>, cursor: uint32)
  {
    cursor + HEADER_SIZE <= |buf| && HEADER_SIZE <= buf[cursor] <= |buf| - cursor
  }

  lemma {:induction false} ParseFirstFrame(buf: seq<byte>, configs: seq<Config>)
    requires |buf| >= HEADER_SIZE && HEADER_SIZE <= buf[0] <= |buf|
    ensures Parse(buf, configs) ==
            var next := Step(buf[..buf[0]], configs);
            if next.status == Ok then Parse(buf[buf[0]..], next.configs) else next
  {
    assert Frames(buf)[1..] == Frames(buf[buf[0]..]);
  }

  // One turn of the loop: the first frame is placed, and the rest is parsed onto the result.
  lemma {:induction false} ParseAtCursor(buf: seq<byte>, cursor: uint32, configs: seq<Config>)
    requires |buf| < UINT32_MODULUS
    ensures !Framed(buf, cursor) ==> Parse(From(buf, cursor), configs) == Outcome(Ok, configs)
    ensures Framed(buf, cursor) ==>
              var next := Step(buf[cursor..cursor + buf[cursor]], configs);
              Parse(From(buf, cursor), configs) ==
              if next.status == Ok then Parse(From(buf, cursor + buf[cursor]), next.configs) else next
  {
    if Framed(buf, cursor) {
      FromSplits(buf, cursor);
      ParseFirstFrame(From(buf, cursor), configs);
    }
  }

  lemma FromSplits(buf: seq<byte>, cursor: uint32)
    requires |buf| < UINT32_MODULUS && Framed(buf, cursor)
    ensures var rest, bLength := From(buf, cursor), buf[cursor];
            && |rest| == |buf| - cursor && rest[0] == bLength
            && rest[..bLength] == buf[cursor..cursor + bLength]
            && rest[bLength..] == From(buf, cursor + bLength)
  {
  }

  /// The parser itself

  // The std::vector<USBConfig> that the parser appends to in place.
  class ConfigVector {
    var configs: seq<Config>

    constructor ()
      ensures configs == []
    {
      configs := [];
    }

    method AddConfig(d: seq<byte>) returns (ret: Status)
      requires |d| == CONFIG_SIZE
      modifies this
      ensures Outcome(ret, configs) == Place(old(configs), ReadConfigItem(d))
    {
      var config := Config(d[5], d[7], d[8], d[6], "", []);
      configs := configs + [config];
      return Ok;
    }

    method AddInterface(d: seq<byte>) returns (ret: Status)
      requires |d| == INTERFACE_SIZE
      modifies this
      ensures Outcome(ret, configs) == Place(old(configs), ReadInterfaceItem(d))
    {
      if configs == [] {
        return InvalidValue;
      }
      var intf := Interface(d[2], d[7], d[5], d[6], d[3], "", d[8], [], true);
      var back := configs[|configs| - 1];
      configs := configs[|configs| - 1 := back.(interfaces := back.interfaces + [intf])];
      return Ok;
    }

    method AddEndpoint(d: seq<byte>) returns (ret: Status)
      requires |d| >= ENDPOINT_SIZE
      modifies this
      ensures Outcome(ret, configs) == Place(old(configs), ReadEndpointItem(d))
    {
      if configs == [] || configs[|configs| - 1].interfaces == [] {
        return InvalidValue;
      }
      var back := configs[|configs| - 1];
      var intf := back.interfaces[|back.interfaces| - 1];
      var endpoint := Endpoint(d[2], d[3], d[6], LittleEndian16(d[4], d[5]), intf.id % 0x100);
      var interfaces := back.interfaces[|back.interfaces| - 1 := intf.(endpoints := intf.endpoints + [endpoint])];
      configs := configs[|configs| - 1 := back.(interfaces := interfaces)];
      return Ok;
    }

    // The switch on the descriptor type in the body of the parser's loop.
    method AddDescriptor(d: seq<byte>) returns (ret: Status)
      requires WellFramed(d)
      modifies this
      ensures Outcome(ret, configs) == Step(d, old(configs))
    {
      ret := Ok;
      match d[1] {
        case 2 =>
          if |d| != CONFIG_SIZE {
            return InvalidValue;
          }
          ret := AddConfig(d);
        case 4 =>
          if |d| != INTERFACE_SIZE {
            return InvalidValue;
          }
          ret := AddInterface(d);
        case 5 =>
          if |d| != ENDPOINT_SIZE && |d| != AUDIO_ENDPOINT_SIZE {
            return InvalidValue;
          }
          ret := AddEndpoint(d);
        case _ =>
      }
    }
  }

  // The bytes that the turn of the loop at cursor takes, if it does not end the loop.
  predicate TurnTakes(descriptor: seq<byte>, length: uint32, cursor: uint32, bLength: byte)
    requires cursor < length <= |descriptor|
  {
    HEADER_SIZE <= length - cursor && bLength == descriptor[cursor] && HEADER_SIZE <= bLength <= length - cursor
  }

  lemma LastTurn(descriptor: seq<byte>, length: uint32, cursor: uint32, configs: seq<Config>)
    requires cursor < length <= |descriptor| && !TurnTakes(descriptor, length, cursor, descriptor[cursor])
    ensures Parse(From(descriptor[..length], cursor), configs) == Outcome(Ok, configs)
  {
    ParseAtCursor(descriptor[..length], cursor, configs);
  }

  lemma SameFrame(descriptor: seq<byte>, length: uint32, cursor: uint32, bLength: byte)
    requires cursor < length <= |descriptor| && TurnTakes(descriptor, length, cursor, bLength)
    ensures Framed(descriptor[..length], cursor) && descriptor[..length][cursor] == bLength
    ensures descriptor[..length][cursor..cursor + bLength] == descriptor[cursor..cursor + bLength]
  {
  }

  lemma ParseTurn(descriptor: seq<byte>, length: uint32, cursor: uint32, frame: seq<byte>, configs: seq<Config>)
    requires cursor < length <= |descriptor| && TurnTakes(descriptor, length, cursor, descriptor[cursor])
    requires frame == descriptor[cursor..cursor + descriptor[cursor]]
    ensures WellFramed(frame) && |frame| == descriptor[cursor]
    ensures var next := Step(frame, configs);
            Parse(From(descriptor[..length], cursor), configs) ==
            if next.status == Ok then Parse(From(descriptor[..length], cursor + |frame|), next.configs) else next
  {
    SameFrame(descriptor, length, cursor, descriptor[cursor]);
    ParseAtCursor(descriptor[..length], cursor, configs);
  }

  lemma NothingAtEnd(buf: seq<byte>, cursor: uint32, configs: seq<Config>)
    requires |buf| <= cursor
    ensures Parse(From(buf, cursor), configs) == Outcome(Ok, configs)
  {
  }

  // One turn of the loop that takes a descriptor.
  method ParseNext(descriptor: seq<byte>, length: uint32, cursor: uint32, bLength: byte, tree: ConfigVector)
    returns (ret: Status, next: uint32)
    requires cursor < length <= |descriptor| && TurnTakes(descriptor, length, cursor, bLength)
    modifies tree
    ensures next == cursor + bLength
    ensures Parse(From(descriptor[..length], cursor), old(tree.configs)) ==
            if ret == Ok then Parse(From(descriptor[..length], next), tree.configs) else Outcome(ret, tree.configs)
  {
    var frame := descriptor[cursor..cursor + bLength];
    ParseTurn(descriptor, length, cursor, frame, tree.configs);
    ret := tree.AddDescriptor(frame);
    next := Add32(cursor, bLength);
  }

  // Every read of descriptor below is within bounds, and the 32-bit addition to cursor never wraps:
  // the loop keeps cursor + bLength <= length.
  method ParseUpTo(descriptor: seq<byte>, length: uint32, offset: uint32, tree: ConfigVector) returns (ret: Status)
    requires length <= |descriptor|
    modifies tree
    ensures Outcome(ret, tree.configs) == Parse(From(descriptor[..length], offset), old(tree.configs))
  {
    var cursor: uint32 := offset;
    ghost var buf := descriptor[..length];
    ghost var expected := Parse(From(buf, offset), tree.configs);
    while cursor < length
      invariant Parse(From(buf, cursor), tree.configs) == expected
    {
      if length - cursor < HEADER_SIZE {
        LastTurn(descriptor, length, cursor, tree.configs);
        return Ok;
      }
      var bLength := descriptor[cursor];
      if bLength < HEADER_SIZE || bLength > length - cursor {
        LastTurn(descriptor, length, cursor, tree.configs);
        return Ok;
      }
      ret, cursor := ParseNext(descriptor, length, cursor, bLength, tree);
      if ret != Ok {
        return ret;
      }
    }
    NothingAtEnd(buf, cursor, tree.configs);
    return Ok;
  }

  method ParseConfigDescriptors(descriptor: seq<byte>, offset: uint32, tree: ConfigVector) returns (ret: Status)
    modifies tree
    ensures Outcome(ret, tree.configs) == Parse(Window(descriptor, offset), old(tree.configs))
    ensures var seen := descriptor[..|descriptor| % UINT32_MODULUS];
            Window(descriptor, offset) == if offset < |seen| then seen[offset..] else []
  {
    var length: uint32 := |descriptor| % UINT32_MODULUS;
    ret := ParseUpTo(descriptor, length, offset, tree);
  }
}
