/** What the parser's result means: which frames it reads, how the tree relates to them,
    exactly when it fails, and how it behaves on cut and joined buffers. */
module DescriptorLaws {
  import opened UsbModel
  import opened Descriptors
  import opened Sequences

  /// Framing

  lemma FramesOfFirst(first: seq<byte>, rest: seq<byte>)
    requires WellFramed(first)
    ensures Frames(first + rest) == [first] + Frames(rest)
  {
    assert (first + rest)[..|first|] == first && (first + rest)[|first|..] == rest;
  }

  lemma ConcatFirst(frames: seq<seq<byte>>, tail: seq<byte>)
    requires frames != []
    ensures Concat(frames) + tail == frames[0] + (Concat(frames[1..]) + tail)
  {
    AppendAssociates(frames[0], Concat(frames[1..]), tail);
  }

  lemma {:induction false} FramesOfConcat(frames: seq<seq<byte>>, tail: seq<byte>)
    requires AllWellFramed(frames)
    ensures Frames(Concat(frames) + tail) == frames + Frames(tail)
  {
    if frames == [] {
      assert Concat(frames) + tail == tail;
    } else {
      FramesOfConcat(frames[1..], tail);
      FramesOfFirst(frames[0], Concat(frames[1..]) + tail);
      ConcatFirst(frames, tail);
      FirstThenRest(frames, Frames(tail));
    }
  }

  // The frames are disjoint, in order, start at the front of the buffer, and are at least two bytes each:
  // the cursor grows by two or more on every turn.
  lemma {:induction false} FramesArePrefix(buf: seq<byte>)
    ensures Concat(Frames(buf)) <= buf
    ensures HEADER_SIZE * |Frames(buf)| <= |Concat(Frames(buf))|
  {
    if Frames(buf) != [] {
      var rest := buf[buf[0]..];
      FramesArePrefix(rest);
      assert Frames(buf)[1..] == Frames(rest);
      assert buf == buf[..buf[0]] + rest;
    }
  }

  // Framing a joined buffer, when the first part is made of whole descriptors.
  lemma FramesOfJoin(x: seq<byte>, y: seq<byte>)
    requires FullyFramed(x)
    ensures Frames(x + y) == Frames(x) + Frames(y)
  {
    FramesAreWellFramed(x);
    FramesOfConcat(Frames(x), y);
  }

  // Cutting a buffer keeps exactly the leading descriptors that still fit.
  lemma {:induction false} FramesOfCut(buf: seq<byte>, k: nat)
    requires k <= |buf|
    ensures Frames(buf[..k]) <= Frames(buf)
    ensures |Concat(Frames(buf[..k]))| <= k
    ensures var n := |Frames(buf[..k])|;
            n < |Frames(buf)| ==> |Concat(Frames(buf[..k]))| + |Frames(buf)[n]| > k
  {
    var cut := buf[..k];
    FramesArePrefix(cut);
    if Frames(cut) != [] {
      var rest := buf[buf[0]..];
      assert cut[..buf[0]] == buf[..buf[0]] && cut[buf[0]..] == rest[..k - buf[0]];
      FramesOfCut(rest, k - buf[0]);
      assert Frames(buf) == [buf[..buf[0]]] + Frames(rest);
      assert Frames(cut) == [buf[..buf[0]]] + Frames(rest[..k - buf[0]]);
    }
  }

  // The longest run of leading frames that take at most k bytes.
  function Fitting(frames: seq<seq<byte>>, k: nat): seq<seq<byte>>
  {
    if frames == [] || |frames[0]| > k then [] else [frames[0]] + Fitting(frames[1..], k - |frames[0]|)
  }

  lemma {:induction false} CutIsFitting(buf: seq<byte>, k: nat)
    requires k <= |buf|
    ensures Frames(buf[..k]) == Fitting(Frames(buf), k)
  {
    var cut := buf[..k];
    if Frames(buf) != [] && buf[0] <= k {
      var rest := buf[buf[0]..];
      assert cut[..buf[0]] == buf[..buf[0]] && cut[buf[0]..] == rest[..k - buf[0]];
      CutIsFitting(rest, k - buf[0]);
      assert Frames(buf) == [buf[..buf[0]]] + Frames(rest);
      assert Frames(cut) == [buf[..buf[0]]] + Frames(rest[..k - buf[0]]);
      assert Frames(buf)[1..] == Frames(rest);
    }
  }

  /// Folding

  lemma {:induction false} FoldJoin(a: seq<seq<byte>>, b: seq<seq<byte>>, configs: seq<Config>)
    requires AllWellFramed(a) && AllWellFramed(b)
    ensures var first := Fold(a, configs);
            Fold(a + b, configs) == if first.status == Ok then Fold(b, first.configs) else first
  {
    if a == [] {
      assert a + b == b;
    } else {
      assert (a + b)[0] == a[0] && (a + b)[1..] == a[1..] + b;
      FoldJoin(a[1..], b, Step(a[0], configs).configs);
    }
  }

  // Parsing a joined buffer is parsing the second part onto the tree of the first.
  lemma ParseJoin(x: seq<byte>, y: seq<byte>, configs: seq<Config>)
    requires FullyFramed(x)
    ensures var first := Parse(x, configs);
            Parse(x + y, configs) == if first.status == Ok then Parse(y, first.configs) else first
  {
    FramesOfJoin(x, y);
    FramesAreWellFramed(x);
    FramesAreWellFramed(y);
    FoldJoin(Frames(x), Frames(y), configs);
  }

  /// The tree as the list of its descriptors

  function FlattenEndpoints(endpoints: seq<Endpoint>): seq<Item>
  {
    seq(|endpoints|, i requires 0 <= i < |endpoints| =>
      EndpointItem(endpoints[i].address, endpoints[i].attributes, endpoints[i].interval, endpoints[i].maxPacketSize))
  }

  function HeadOfInterface(intf: Interface): Item
  {
    InterfaceItem(intf.id, intf.protocol, intf.alternateSetting, intf.klass, intf.subClass, intf.iInterface)
  }

  function FlattenInterfaces(interfaces: seq<Interface>): seq<Item>
  {
    if interfaces == [] then []
    else
      FlattenInterfaces(interfaces[..|interfaces| - 1])
      + [HeadOfInterface(Last(interfaces))] + FlattenEndpoints(Last(interfaces).endpoints)
  }

  function HeadOfConfig(config: Config): Item
  {
    ConfigItem(config.id, config.attributes, config.maxPower, config.iConfiguration)
  }

  // The depth-first list of everything in the tree.
  function Flatten(configs: seq<Config>): seq<Item>
  {
    if configs == [] then []
    else
      Flatten(configs[..|configs| - 1]) + [HeadOfConfig(Last(configs))] + FlattenInterfaces(Last(configs).interfaces)
  }

  // The recognised descriptors among the frames, in order.
  function RecognisedItems(frames: seq<seq<byte>>): seq<Item>
    requires AllWellFramed(frames)
  {
    if frames == [] then []
    else
      (match Decode(frames[0])
       case Recognised(item) => [item]
       case _ => [])
      + RecognisedItems(frames[1..])
  }

  lemma FlattenPlace(configs: seq<Config>, item: Item)
    requires Place(configs, item).status == Ok
    ensures Flatten(Place(configs, item).configs) == Flatten(configs) + [item]
  {
    var placed := Place(configs, item).configs;
    if item.ConfigItem? {
      assert placed[..|placed| - 1] == configs;
    } else {
      var front := configs[..|configs| - 1];
      var old_, new_ := Last(configs).interfaces, Last(placed).interfaces;
      assert placed[..|placed| - 1] == front;
      assert FlattenInterfaces(new_) == FlattenInterfaces(old_) + [item] by {
        if item.InterfaceItem? {
          assert new_[..|new_| - 1] == old_;
        } else {
          assert new_[..|new_| - 1] == old_[..|old_| - 1];
          assert FlattenEndpoints(Last(new_).endpoints) == FlattenEndpoints(Last(old_).endpoints) + [item];
        }
      }
    }
  }

  // On success the depth-first list of the tree grows by exactly the recognised descriptors, in order.
  lemma {:induction false} FlattenFold(frames: seq<seq<byte>>, configs: seq<Config>)
    requires AllWellFramed(frames)
    requires Fold(frames, configs).status == Ok
    ensures Flatten(Fold(frames, configs).configs) == Flatten(configs) + RecognisedItems(frames)
  {
    if frames != [] {
      var next := Step(frames[0], configs).configs;
      match Decode(frames[0]) {
        case Recognised(item) => FlattenPlace(configs, item);
        case _ =>
      }
      FlattenFold(frames[1..], next);
    }
  }

  /// Trees the parser can build: every endpoint carries its interface's id, and the fields no descriptor sets are at
  /// their defaults

  predicate ParsedInterface(intf: Interface)
  {
    && intf.name == "" && intf.authorized && 0 <= intf.id < 0x100
    && forall e :: 0 <= e < |intf.endpoints| ==> intf.endpoints[e].interfaceId == intf.id
  }

  predicate ParsedConfig(config: Config)
  {
    && config.name == ""
    && forall i :: 0 <= i < |config.interfaces| ==> ParsedInterface(config.interfaces[i])
  }

  predicate ParsedTree(configs: seq<Config>)
  {
    forall c :: 0 <= c < |configs| ==> ParsedConfig(configs[c])
  }

  lemma PlaceKeepsParsedTree(configs: seq<Config>, item: Item)
    requires ParsedTree(configs)
    requires item.InterfaceItem? ==> 0 <= item.number < 0x100
    ensures ParsedTree(Place(configs, item).configs)
  {
    var placed := Place(configs, item).configs;
    if placed != configs && !item.ConfigItem? {
      assert ParsedConfig(Last(configs));
      assert ParsedConfig(Last(placed));
    }
  }

  lemma {:induction false} FoldKeepsParsedTree(frames: seq<seq<byte>>, configs: seq<Config>)
    requires AllWellFramed(frames) && ParsedTree(configs)
    ensures ParsedTree(Fold(frames, configs).configs)
  {
    if frames != [] {
      match Decode(frames[0]) {
        case Recognised(item) => PlaceKeepsParsedTree(configs, item);
        case _ =>
      }
      FoldKeepsParsedTree(frames[1..], Step(frames[0], configs).configs);
    }
  }

  /// A parsed tree is rebuilt from its depth-first list

  function PlaceAll(items: seq<Item>, configs: seq<Config>): Outcome
  {
    if items == [] then Outcome(Ok, configs)
    else
      var next := Place(configs, items[0]);
      if next.status == Ok then PlaceAll(items[1..], next.configs) else next
  }

  lemma {:induction false} PlaceAllSnoc(items: seq<Item>, item: Item, configs: seq<Config>)
    requires PlaceAll(items, configs).status == Ok
    ensures PlaceAll(items + [item], configs) == Place(PlaceAll(items, configs).configs, item)
  {
    if items == [] {
      assert [item][1..] == [];
    } else {
      assert (items + [item])[1..] == items[1..] + [item];
      PlaceAllSnoc(items[1..], item, Place(configs, items[0]).configs);
    }
  }

  lemma {:induction false} FoldIsPlaceAll(frames: seq<seq<byte>>, configs: seq<Config>)
    requires AllWellFramed(frames)
    requires forall i :: 0 <= i < |frames| ==> Decode(frames[i]) != WrongLength
    ensures Fold(frames, configs) == PlaceAll(RecognisedItems(frames), configs)
  {
    if frames != [] {
      FoldIsPlaceAll(frames[1..], Step(frames[0], configs).configs);
      var tail := RecognisedItems(frames[1..]);
      if Decode(frames[0]).Recognised? {
        assert ([Decode(frames[0]).item] + tail)[1..] == tail;
      } else {
        assert RecognisedItems(frames) == tail;
      }
    }
  }

  // The tree before its last descriptor was placed, and that descriptor.
  function Unplace(configs: seq<Config>): (seq<Config>, Item)
    requires configs != []
  {
    var config := Last(configs);
    if config.interfaces == [] then (configs[..|configs| - 1], HeadOfConfig(config))
    else
      var intf := Last(config.interfaces);
      var front := config.interfaces[..|config.interfaces| - 1];
      if intf.endpoints == [] then
        (WithLast(configs, config.(interfaces := front)), HeadOfInterface(intf))
      else
        var shorter := intf.(endpoints := intf.endpoints[..|intf.endpoints| - 1]);
        (WithLast(configs, config.(interfaces := front + [shorter])), Last(FlattenEndpoints(intf.endpoints)))
  }

  lemma PlaceUnplace(configs: seq<Config>)
    requires configs != [] && ParsedTree(configs)
    ensures var (before, item) := Unplace(configs);
            ParsedTree(before) && Place(before, item) == Outcome(Ok, configs)
  {
    var (before, item) := Unplace(configs);
    var config := Last(configs);
    assert ParsedConfig(config);
    if config.interfaces == [] {
      assert NewConfig(item) == config;
      assert configs == before + [config];
    } else {
      var intf := Last(config.interfaces);
      assert ParsedInterface(intf);
      var smaller := Last(before);
      if intf.endpoints == [] {
        assert NewInterface(item) == intf;
        assert smaller.interfaces + [intf] == config.interfaces;
      } else {
        var shorter := Last(smaller.interfaces);
        assert NewEndpoint(item, shorter) == Last(intf.endpoints);
        assert shorter.endpoints + [Last(intf.endpoints)] == intf.endpoints;
        assert WithLast(smaller.interfaces, intf) == config.interfaces;
        assert ParsedInterface(shorter);
      }
      assert ParsedConfig(smaller);
      assert WithLast(before, config) == configs;
    }
  }

  lemma {:induction false} RebuildTree(configs: seq<Config>)
    requires ParsedTree(configs)
    ensures PlaceAll(Flatten(configs), []) == Outcome(Ok, configs)
    decreases |Flatten(configs)|
  {
    if configs != [] {
      var (before, item) := Unplace(configs);
      PlaceUnplace(configs);
      FlattenPlace(before, item);
      RebuildTree(before);
      PlaceAllSnoc(Flatten(before), item, []);
    }
  }

  /// When the parser fails

  predicate IsConfig(frame: seq<byte>) requires WellFramed(frame) { frame[1] == 2 }

  predicate IsInterface(frame: seq<byte>) requires WellFramed(frame) { frame[1] == 4 }

  predicate IsEndpoint(frame: seq<byte>) requires WellFramed(frame) { frame[1] == 5 }

  predicate ConfigBefore(frames: seq<seq<byte>>, i: nat, configs: seq<Config>)
    requires AllWellFramed(frames) && i <= |frames|
  {
    configs != [] || exists j :: 0 <= j < i && IsConfig(frames[j])
  }

  predicate NoConfigIn(frames: seq<seq<byte>>, lo: nat, hi: nat)
    requires AllWellFramed(frames) && hi <= |frames|
  {
    forall k :: lo <= k < hi ==> !IsConfig(frames[k])
  }

  // The latest config before frame i has an interface.
  predicate InterfaceBefore(frames: seq<seq<byte>>, i: nat, configs: seq<Config>)
    requires AllWellFramed(frames) && i <= |frames|
  {
    || (exists j :: 0 <= j < i && IsInterface(frames[j]) && NoConfigIn(frames, j + 1, i))
    || (configs != [] && Last(configs).interfaces != [] && NoConfigIn(frames, 0, i))
  }

  // Frame i breaks the rules: a wrong length for its type, an interface before any config, or an endpoint
  // with no interface in the latest config.
  predicate Misplaced(frames: seq<seq<byte>>, i: nat, configs: seq<Config>)
    requires AllWellFramed(frames) && i < |frames|
  {
    || (IsConfig(frames[i]) && |frames[i]| != 9)
    || (IsInterface(frames[i]) && (|frames[i]| != 9 || !ConfigBefore(frames, i, configs)))
    || (IsEndpoint(frames[i]) &&
        ((|frames[i]| != 7 && |frames[i]| != 9) || !InterfaceBefore(frames, i, configs)))
  }

  lemma ConfigBeforeShift(frames: seq<seq<byte>>, i: nat, configs: seq<Config>)
    requires AllWellFramed(frames) && i + 1 < |frames| && Step(frames[0], configs).status == Ok
    ensures ConfigBefore(frames, i + 1, configs) <==> ConfigBefore(frames[1..], i, Step(frames[0], configs).configs)
  {
    var tail, next := frames[1..], Step(frames[0], configs).configs;
    assert next != [] <==> configs != [] || IsConfig(frames[0]);
    if j :| 0 <= j < i + 1 && IsConfig(frames[j]) {
      assert j > 0 ==> IsConfig(tail[j - 1]);
    }
    if j :| 0 <= j < i && IsConfig(tail[j]) {
      assert IsConfig(frames[j + 1]);
    }
  }

  lemma NoConfigShift(frames: seq<seq<byte>>, lo: nat, hi: nat)
    requires AllWellFramed(frames) && hi + 1 <= |frames|
    ensures NoConfigIn(frames, lo + 1, hi + 1) <==> NoConfigIn(frames[1..], lo, hi)
  {
    var tail := frames[1..];
    if NoConfigIn(frames, lo + 1, hi + 1) {
      forall k | lo <= k < hi ensures !IsConfig(tail[k]) {
        assert tail[k] == frames[k + 1];
      }
    }
    if NoConfigIn(tail, lo, hi) {
      forall k | lo + 1 <= k < hi + 1 ensures !IsConfig(frames[k]) {
        assert frames[k] == tail[k - 1];
      }
    }
  }

  lemma InterfaceBeforeShift(frames: seq<seq<byte>>, i: nat, configs: seq<Config>)
    requires AllWellFramed(frames) && i + 1 < |frames| && Step(frames[0], configs).status == Ok
    ensures InterfaceBefore(frames, i + 1, configs) <==>
            InterfaceBefore(frames[1..], i, Step(frames[0], configs).configs)
  {
    var tail, next := frames[1..], Step(frames[0], configs).configs;
    assert next != [] && Last(next).interfaces != [] <==>
           !IsConfig(frames[0]) && (IsInterface(frames[0]) || (configs != [] && Last(configs).interfaces != []));
    NoConfigShift(frames, 0, i);
    assert NoConfigIn(frames, 0, i + 1) <==> !IsConfig(frames[0]) && NoConfigIn(frames, 1, i + 1);
    if j :| 0 <= j < i + 1 && IsInterface(frames[j]) && NoConfigIn(frames, j + 1, i + 1) {
      if j > 0 {
        NoConfigShift(frames, j, i);
        assert IsInterface(tail[j - 1]);
      }
    }
    if j :| 0 <= j < i && IsInterface(tail[j]) && NoConfigIn(tail, j + 1, i) {
      NoConfigShift(frames, j + 1, i);
      assert IsInterface(frames[j + 1]);
    }
  }

  lemma MisplacedShift(frames: seq<seq<byte>>, i: nat, configs: seq<Config>)
    requires AllWellFramed(frames) && i + 1 < |frames| && Step(frames[0], configs).status == Ok
    ensures Misplaced(frames, i + 1, configs) <==> Misplaced(frames[1..], i, Step(frames[0], configs).configs)
  {
    ConfigBeforeShift(frames, i, configs);
    InterfaceBeforeShift(frames, i, configs);
  }

  // The parser fails exactly when some frame is misplaced.
  lemma {:induction false} FailsExactly(frames: seq<seq<byte>>, configs: seq<Config>)
    requires AllWellFramed(frames)
    ensures Fold(frames, configs).status == InvalidValue <==>
            exists i :: 0 <= i < |frames| && Misplaced(frames, i, configs)
  {
    if frames != [] {
      var next := Step(frames[0], configs);
      assert next.status == InvalidValue <==> Misplaced(frames, 0, configs);
      if next.status == Ok {
        FailsExactly(frames[1..], next.configs);
        forall i | 0 <= i && i + 1 < |frames|
          ensures Misplaced(frames, i + 1, configs) <==> Misplaced(frames[1..], i, next.configs)
        {
          MisplacedShift(frames, i, configs);
        }
        if i :| 0 <= i < |frames| && Misplaced(frames, i, configs) {
          assert Misplaced(frames[1..], i - 1, next.configs);
        }
        if i :| 0 <= i < |frames| - 1 && Misplaced(frames[1..], i, next.configs) {
          assert Misplaced(frames, i + 1, configs);
        }
      }
    }
  }

  // And then it stops at a misplaced frame, with the tree of the frames before it.
  lemma {:induction false} StopsAtMisplaced(frames: seq<seq<byte>>, configs: seq<Config>) returns (i: nat)
    requires AllWellFramed(frames) && Fold(frames, configs).status == InvalidValue
    ensures i < |frames| && Misplaced(frames, i, configs)
    ensures Fold(frames[..i], configs) == Outcome(Ok, Fold(frames, configs).configs)
  {
    var next := Step(frames[0], configs);
    if next.status == InvalidValue {
      i := 0;
    } else {
      var j := StopsAtMisplaced(frames[1..], next.configs);
      i := j + 1;
      MisplacedShift(frames, j, configs);
      assert frames[..i][1..] == frames[1..][..j];
    }
  }
}
