/** The buffers the parser accepts are exactly the printed documents, and cutting one keeps its leading part. */
module DescriptorGrammar {
  import opened UsbModel
  import opened Descriptors
  import opened DescriptorLaws
  import opened DescriptorRoundTrip
  import opened Sequences

  datatype Document = Document(leading: Noise, configs: seq<ConfigDoc>)

  function FramesOf(doc: Document): seq<seq<byte>>
  {
    doc.leading + PrintConfigs(doc.configs)
  }

  function NoiseAfterEndpoint(d: EndpointDoc, f: seq<byte>): EndpointDoc
    requires IsNoise(f)
  {
    d.(noise := d.noise + [f])
  }

  function NoiseAfterInterface(d: InterfaceDoc, f: seq<byte>): InterfaceDoc
    requires IsNoise(f)
  {
    if d.endpoints == [] then d.(noise := d.noise + [f])
    else d.(endpoints := WithLast(d.endpoints, NoiseAfterEndpoint(Last(d.endpoints), f)))
  }

  function NoiseAfterConfig(d: ConfigDoc, f: seq<byte>): ConfigDoc
    requires IsNoise(f)
  {
    if d.interfaces == [] then d.(noise := d.noise + [f])
    else d.(interfaces := WithLast(d.interfaces, NoiseAfterInterface(Last(d.interfaces), f)))
  }

  function ConfigDocOf(f: seq<byte>): ConfigDoc
    requires |f| == CONFIG_SIZE
  {
    ConfigDoc(LittleEndian16(f[2], f[3]), f[4], f[5], f[6], f[7], f[8], [], [])
  }

  function InterfaceDocOf(f: seq<byte>): InterfaceDoc
    requires |f| == INTERFACE_SIZE
  {
    InterfaceDoc(f[2], f[3], f[4], f[5], f[6], f[7], f[8], [], [])
  }

  function EndpointDocOf(f: seq<byte>): EndpointDoc
    requires |f| == ENDPOINT_SIZE || |f| == AUDIO_ENDPOINT_SIZE
  {
    EndpointDoc(f[2], f[3], LittleEndian16(f[4], f[5]), f[6], f[ENDPOINT_SIZE..], [])
  }

  // Each printer puts the last child last.
  lemma {:induction false} PrintEndpointsLast(ds: seq<EndpointDoc>)
    requires ds != []
    ensures PrintEndpoints(ds) == PrintEndpoints(ds[..|ds| - 1]) + PrintEndpoint(Last(ds))
  {
    if |ds| > 1 {
      PrintEndpointsLast(ds[1..]);
      assert ds[1..][..|ds| - 2] == ds[..|ds| - 1][1..];
      AppendAssociates(PrintEndpoint(ds[0]), PrintEndpoints(ds[1..|ds| - 1]), PrintEndpoint(Last(ds)));
    }
  }

  lemma {:induction false} PrintInterfacesLast(ds: seq<InterfaceDoc>)
    requires ds != []
    ensures PrintInterfaces(ds) == PrintInterfaces(ds[..|ds| - 1]) + PrintInterface(Last(ds))
  {
    if |ds| > 1 {
      PrintInterfacesLast(ds[1..]);
      assert ds[1..][..|ds| - 2] == ds[..|ds| - 1][1..];
      AppendAssociates(PrintInterface(ds[0]), PrintInterfaces(ds[1..|ds| - 1]), PrintInterface(Last(ds)));
    }
  }

  lemma {:induction false} PrintConfigsLast(ds: seq<ConfigDoc>)
    requires ds != []
    ensures PrintConfigs(ds) == PrintConfigs(ds[..|ds| - 1]) + PrintConfig(Last(ds))
  {
    if |ds| > 1 {
      PrintConfigsLast(ds[1..]);
      assert ds[1..][..|ds| - 2] == ds[..|ds| - 1][1..];
      AppendAssociates(PrintConfig(ds[0]), PrintConfigs(ds[1..|ds| - 1]), PrintConfig(Last(ds)));
    }
  }

  // Replacing the last child by one that prints one more frame prints that frame last.
  lemma EndpointsGrow(ds: seq<EndpointDoc>, d: EndpointDoc, f: seq<byte>)
    requires ds != [] && PrintEndpoint(d) == PrintEndpoint(Last(ds)) + [f]
    ensures PrintEndpoints(WithLast(ds, d)) == PrintEndpoints(ds) + [f]
  {
    PrintEndpointsLast(ds);
    PrintEndpointsLast(WithLast(ds, d));
    assert WithLast(ds, d)[..|ds| - 1] == ds[..|ds| - 1];
  }

  lemma InterfacesGrow(ds: seq<InterfaceDoc>, d: InterfaceDoc, f: seq<byte>)
    requires ds != [] && PrintInterface(d) == PrintInterface(Last(ds)) + [f]
    ensures PrintInterfaces(WithLast(ds, d)) == PrintInterfaces(ds) + [f]
  {
    PrintInterfacesLast(ds);
    PrintInterfacesLast(WithLast(ds, d));
    assert WithLast(ds, d)[..|ds| - 1] == ds[..|ds| - 1];
  }

  lemma ConfigsGrow(ds: seq<ConfigDoc>, d: ConfigDoc, f: seq<byte>)
    requires ds != [] && PrintConfig(d) == PrintConfig(Last(ds)) + [f]
    ensures PrintConfigs(WithLast(ds, d)) == PrintConfigs(ds) + [f]
  {
    PrintConfigsLast(ds);
    PrintConfigsLast(WithLast(ds, d));
    assert WithLast(ds, d)[..|ds| - 1] == ds[..|ds| - 1];
  }

  lemma NoiseAfterInterfacePrints(d: InterfaceDoc, f: seq<byte>)
    requires IsNoise(f)
    ensures PrintInterface(NoiseAfterInterface(d, f)) == PrintInterface(d) + [f]
  {
    if d.endpoints != [] {
      EndpointsGrow(d.endpoints, NoiseAfterEndpoint(Last(d.endpoints), f), f);
    }
  }

  lemma NoiseAfterConfigPrints(d: ConfigDoc, f: seq<byte>)
    requires IsNoise(f)
    ensures PrintConfig(NoiseAfterConfig(d, f)) == PrintConfig(d) + [f]
  {
    if d.interfaces != [] {
      NoiseAfterInterfacePrints(Last(d.interfaces), f);
      InterfacesGrow(d.interfaces, NoiseAfterInterface(Last(d.interfaces), f), f);
    }
  }

  lemma ConfigReprints(f: seq<byte>)
    requires |f| == CONFIG_SIZE == f[0] && f[1] == TYPE_CONFIG
    ensures PrintConfig(ConfigDocOf(f)) == [f]
  {
    assert ConfigHeader(ConfigDocOf(f)) == f;
  }

  lemma InterfaceReprints(f: seq<byte>)
    requires |f| == INTERFACE_SIZE == f[0] && f[1] == TYPE_INTERFACE
    ensures PrintInterface(InterfaceDocOf(f)) == [f]
  {
    assert InterfaceHeader(InterfaceDocOf(f)) == f;
  }

  lemma EndpointReprints(f: seq<byte>)
    requires (|f| == ENDPOINT_SIZE || |f| == AUDIO_ENDPOINT_SIZE) && |f| == f[0] && f[1] == TYPE_ENDPOINT
    ensures PrintEndpoint(EndpointDocOf(f)) == [f]
  {
    assert PrintEndpoint(EndpointDocOf(f))[0] == f;
  }

  lemma HeadersReprint(f: seq<byte>)
    requires WellFramed(f)
    ensures f[1] == TYPE_CONFIG && |f| == CONFIG_SIZE ==> PrintConfig(ConfigDocOf(f)) == [f]
    ensures f[1] == TYPE_INTERFACE && |f| == INTERFACE_SIZE ==> PrintInterface(InterfaceDocOf(f)) == [f]
    ensures f[1] == TYPE_ENDPOINT && (|f| == ENDPOINT_SIZE || |f| == AUDIO_ENDPOINT_SIZE) ==>
              PrintEndpoint(EndpointDocOf(f)) == [f]
  {
    if f[1] == TYPE_CONFIG && |f| == CONFIG_SIZE {
      ConfigReprints(f);
    } else if f[1] == TYPE_INTERFACE && |f| == INTERFACE_SIZE {
      InterfaceReprints(f);
    } else if f[1] == TYPE_ENDPOINT && (|f| == ENDPOINT_SIZE || |f| == AUDIO_ENDPOINT_SIZE) {
      EndpointReprints(f);
    }
  }

  lemma InterfaceAppended(d: ConfigDoc, i: InterfaceDoc, f: seq<byte>)
    requires PrintInterface(i) == [f]
    ensures PrintConfig(d.(interfaces := d.interfaces + [i])) == PrintConfig(d) + [f]
  {
    PrintInterfacesLast(d.interfaces + [i]);
    assert (d.interfaces + [i])[..|d.interfaces|] == d.interfaces;
  }

  lemma EndpointAppended(i: InterfaceDoc, e: EndpointDoc, f: seq<byte>)
    requires PrintEndpoint(e) == [f]
    ensures PrintInterface(i.(endpoints := i.endpoints + [e])) == PrintInterface(i) + [f]
  {
    PrintEndpointsLast(i.endpoints + [e]);
    assert (i.endpoints + [e])[..|i.endpoints|] == i.endpoints;
  }

  // What the tree of the document must hold for a frame to be placed.
  lemma ExtendNeeds(doc: Document, f: seq<byte>)
    requires WellFramed(f) && Step(f, TreeOf(doc.configs)).status == Ok
    ensures f[1] == TYPE_CONFIG ==> |f| == CONFIG_SIZE
    ensures f[1] == TYPE_INTERFACE ==> |f| == INTERFACE_SIZE && doc.configs != []
    ensures f[1] == TYPE_ENDPOINT ==>
              && (|f| == ENDPOINT_SIZE || |f| == AUDIO_ENDPOINT_SIZE)
              && doc.configs != [] && Last(doc.configs).interfaces != []
  {
  }

  // The last config of the document with one more frame in it.
  function ExtendLast(d: ConfigDoc, f: seq<byte>): ConfigDoc
    requires WellFramed(f) && f[1] != TYPE_CONFIG
    requires f[1] == TYPE_INTERFACE ==> |f| == INTERFACE_SIZE
    requires f[1] == TYPE_ENDPOINT ==> (|f| == ENDPOINT_SIZE || |f| == AUDIO_ENDPOINT_SIZE) && d.interfaces != []
  {
    if f[1] == TYPE_INTERFACE then d.(interfaces := d.interfaces + [InterfaceDocOf(f)])
    else if f[1] == TYPE_ENDPOINT then
      var i := Last(d.interfaces);
      d.(interfaces := WithLast(d.interfaces, i.(endpoints := i.endpoints + [EndpointDocOf(f)])))
    else NoiseAfterConfig(d, f)
  }

  lemma ExtendLastPrints(d: ConfigDoc, f: seq<byte>)
    requires WellFramed(f) && f[1] != TYPE_CONFIG
    requires f[1] == TYPE_INTERFACE ==> |f| == INTERFACE_SIZE
    requires f[1] == TYPE_ENDPOINT ==> (|f| == ENDPOINT_SIZE || |f| == AUDIO_ENDPOINT_SIZE) && d.interfaces != []
    ensures PrintConfig(ExtendLast(d, f)) == PrintConfig(d) + [f]
  {
    HeadersReprint(f);
    if f[1] == TYPE_INTERFACE {
      InterfaceAppended(d, InterfaceDocOf(f), f);
    } else if f[1] == TYPE_ENDPOINT {
      var i := Last(d.interfaces);
      EndpointAppended(i, EndpointDocOf(f), f);
      InterfacesGrow(d.interfaces, i.(endpoints := i.endpoints + [EndpointDocOf(f)]), f);
    } else {
      NoiseAfterConfigPrints(d, f);
    }
  }

  // The document with one more frame at its end.
  function Extend(doc: Document, f: seq<byte>): Document
    requires WellFramed(f) && Step(f, TreeOf(doc.configs)).status == Ok
  {
    ExtendNeeds(doc, f);
    if f[1] == TYPE_CONFIG then doc.(configs := doc.configs + [ConfigDocOf(f)])
    else if doc.configs == [] then doc.(leading := doc.leading + [f])
    else doc.(configs := WithLast(doc.configs, ExtendLast(Last(doc.configs), f)))
  }

  lemma ConfigAppended(ds: seq<ConfigDoc>, d: ConfigDoc, f: seq<byte>)
    requires PrintConfig(d) == [f]
    ensures PrintConfigs(ds + [d]) == PrintConfigs(ds) + [f]
  {
    PrintConfigsLast(ds + [d]);
    assert (ds + [d])[..|ds|] == ds;
  }

  // The configurations of the extended document print the new frame last.
  lemma ExtendedConfigsPrint(doc: Document, f: seq<byte>)
    requires WellFramed(f) && Step(f, TreeOf(doc.configs)).status == Ok && (f[1] == TYPE_CONFIG || doc.configs != [])
    ensures Extend(doc, f).leading == doc.leading
    ensures PrintConfigs(Extend(doc, f).configs) == PrintConfigs(doc.configs) + [f]
  {
    var ds := doc.configs;
    ExtendNeeds(doc, f);
    if f[1] == TYPE_CONFIG {
      ConfigReprints(f);
      ConfigAppended(ds, ConfigDocOf(f), f);
    } else {
      ExtendLastPrints(Last(ds), f);
      ConfigsGrow(ds, ExtendLast(Last(ds), f), f);
    }
  }

  lemma ExtendPrints(doc: Document, f: seq<byte>)
    requires WellFramed(f) && Step(f, TreeOf(doc.configs)).status == Ok
    ensures FramesOf(Extend(doc, f)) == FramesOf(doc) + [f]
  {
    if f[1] == TYPE_CONFIG || doc.configs != [] {
      ExtendedConfigsPrint(doc, f);
      AppendAssociates(doc.leading, PrintConfigs(doc.configs), [f]);
    } else {
      assert doc.leading + [f] + [] == doc.leading + [] + [f];
    }
  }

  // Frames that fold without an error are the frames of a document.
  lemma {:induction false} FoldedFramesAreDocument(frames: seq<seq<byte>>) returns (doc: Document)
    requires AllWellFramed(frames) && Fold(frames, []).status == Ok
    ensures FramesOf(doc) == frames
  {
    if frames == [] {
      doc := Document([], []);
    } else {
      var front, f := frames[..|frames| - 1], Last(frames);
      assert frames == front + [f];
      FoldJoin(front, [f], []);
      doc := FoldedFramesAreDocument(front);
      DocumentFolds(doc);
      ExtendPrints(doc, f);
      doc := Extend(doc, f);
    }
  }

  lemma DocumentFolds(doc: Document)
    ensures AllWellFramed(FramesOf(doc)) && Fold(FramesOf(doc), []) == Outcome(Ok, TreeOf(doc.configs))
  {
    PrintedFrames(doc.leading, doc.configs);
    FoldIsPlaceAll(FramesOf(doc), []);
    TreeOfIsParsed(doc.configs);
    RebuildTree(TreeOf(doc.configs));
  }

  // The buffers of whole descriptors that parse are exactly the printed documents.
  lemma AcceptedExactlyDocuments(buf: seq<byte>)
    ensures FullyFramed(buf) && Parse(buf, []).status == Ok <==>
            exists doc: Document :: buf == Print(doc.leading, doc.configs)
  {
    if FullyFramed(buf) && Parse(buf, []).status == Ok {
      FramesAreWellFramed(buf);
      var doc := FoldedFramesAreDocument(Frames(buf));
      assert buf == Print(doc.leading, doc.configs);
    }
    if doc: Document :| buf == Print(doc.leading, doc.configs) {
      DocumentFolds(doc);
      FramesOfConcat(FramesOf(doc), []);
      assert buf + [] == buf && Frames(buf) == FramesOf(doc);
    }
  }

  // A printed document cut anywhere still parses, to the tree of exactly the leading descriptors that are whole.
  lemma CutDocumentParses(doc: Document, k: nat)
    requires k <= |Print(doc.leading, doc.configs)|
    ensures var cut := Parse(Print(doc.leading, doc.configs)[..k], []);
            && cut.status == Ok
            && AllWellFramed(Fitting(FramesOf(doc), k))
            && Flatten(cut.configs) == RecognisedItems(Fitting(FramesOf(doc), k))
            && Flatten(cut.configs) <= Flatten(TreeOf(doc.configs))
            && ParsedTree(cut.configs)
  {
    var buf := Print(doc.leading, doc.configs);
    AcceptedExactlyDocuments(buf);
    CutParses(buf, k);
    DocumentFolds(doc);
    FramesOfConcat(FramesOf(doc), []);
    assert buf + [] == buf && Frames(buf) == FramesOf(doc);
    ParseUndoesPrint(doc.leading, doc.configs, []);
  }

  lemma CutParses(buf: seq<byte>, k: nat)
    requires k <= |buf| && Parse(buf, []).status == Ok
    ensures var cut := Parse(buf[..k], []);
            && cut.status == Ok
            && AllWellFramed(Fitting(Frames(buf), k))
            && Flatten(cut.configs) == RecognisedItems(Fitting(Frames(buf), k))
            && Flatten(cut.configs) <= Flatten(Parse(buf, []).configs)
            && ParsedTree(cut.configs)
  {
    var whole, part := Frames(buf), Frames(buf[..k]);
    FramesAreWellFramed(buf);
    FramesAreWellFramed(buf[..k]);
    FramesOfCut(buf, k);
    CutIsFitting(buf, k);
    var rest := whole[|part|..];
    assert whole == part + rest;
    FoldJoin(part, rest, []);
    FlattenFold(part, []);
    FlattenFold(whole, []);
    ItemsOfJoin(part, rest);
    FoldKeepsParsedTree(part, []);
  }
}
