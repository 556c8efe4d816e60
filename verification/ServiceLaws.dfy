/** When the service's names agree with the registry. */
module ServiceLaws {
  import opened DeviceNames
  import opened HostModel
  import opened HostRuns
  import opened UsbModel
  import opened UsbService

  /// The service's names and the registry

  // Devices with vendor and product numbers, as descriptors give them, have one name exactly when these and their
  // serials are the same.
  lemma UniqueNameTells(a: Device, b: Device)
    requires a.vendorId >= 0 && a.productId >= 0 && b.vendorId >= 0 && b.productId >= 0
    ensures UniqueName(a) == UniqueName(b) <==>
            a.vendorId == b.vendorId && a.productId == b.productId && a.serial == b.serial
  {
    DecimalHasNoDash(a.vendorId);
    DecimalHasNoDash(b.vendorId);
    DecimalHasNoDash(a.productId);
    DecimalHasNoDash(b.productId);
    if UniqueName(a) == UniqueName(b) {
      UniqueNameFrom(a);
      UniqueNameFrom(b);
      SplitAtDash(Decimal(a.vendorId), Decimal(a.productId) + "-" + a.serial,
                  Decimal(b.vendorId), Decimal(b.productId) + "-" + b.serial);
      SplitAtDash(Decimal(a.productId), a.serial, Decimal(b.productId), b.serial);
      DecimalInjective(a.vendorId, b.vendorId);
      DecimalInjective(a.productId, b.productId);
    }
  }

  // The vendor comes first, then the product, then the serial.
  lemma UniqueNameFrom(dev: Device)
    requires dev.vendorId >= 0 && dev.productId >= 0
    ensures UniqueName(dev) == Decimal(dev.vendorId) + "-" + (Decimal(dev.productId) + "-" + dev.serial)
  {
  }

  datatype ServiceState = ServiceState(names: map<string, string>, host: HostState)

  // Attaching and detaching are two locked steps each, the service's and the registry's, and anything, another
  // attachment included, may come between them.
  datatype ServiceOp =
    | EnterName(dev: Device)
    | Register(dev: Device, ports: Option<seq<BusAddr>>)
    | DropName(busNum: byte, devAddr: byte)
    | Unregister(busNum: byte, devAddr: byte)
    | Other(op: HostRuns.Op)

  ghost predicate ServiceStep(a: ServiceState, op: ServiceOp, b: ServiceState)
  {
    match op
    case EnterName(dev) =>
      b == a.(names := InsertIfAbsent(a.names, NameOf(dev.busNum, dev.devAddr), UniqueName(dev)))
    case Register(dev, ports) => b == a.(host := Inserted(a.host, dev, ports))
    case DropName(busNum, devAddr) => b == a.(names := a.names - {NameOf(busNum, devAddr)})
    case Unregister(busNum, devAddr) => b == a.(host := Deleted(a.host, busNum, devAddr))
    case Other(hostOp) =>
      b.names == a.names && !hostOp.Insert? && !hostOp.Delete? && Step(a.host, hostOp, b.host)
  }

  const SERVICE_START := ServiceState(map[], START)

  ghost predicate IsServiceRun(states: seq<ServiceState>, ops: seq<ServiceOp>)
  {
    && |states| == |ops| + 1
    && states[0] == SERVICE_START
    && forall i :: 0 <= i < |ops| ==> ServiceStep(states[i], ops[i], states[i + 1])
  }

  // The name a step of attaching or detaching is about.
  function NameIn(op: ServiceOp): Option<string>
  {
    match op
    case EnterName(dev) => Some(NameOf(dev.busNum, dev.devAddr))
    case Register(dev, _) => Some(NameOf(dev.busNum, dev.devAddr))
    case DropName(busNum, devAddr) => Some(NameOf(busNum, devAddr))
    case Unregister(busNum, devAddr) => Some(NameOf(busNum, devAddr))
    case Other(_) => None
  }

  /// Two registers for a name

  // What the service holds: the first entry since the name was last dropped.
  function NameHeld(ops: seq<ServiceOp>, n: string): Option<string>
  {
    if ops == [] then None
    else
      var held, last := NameHeld(ops[..|ops| - 1], n), ops[|ops| - 1];
      if NameIn(last) != Some(n) then held
      else if last.EnterName? then (if held.Some? then held else Some(UniqueName(last.dev)))
      else if last.DropName? then None
      else held
  }

  // What the registry holds: the last registered device, until it is unregistered.
  function DeviceHeld(ops: seq<ServiceOp>, n: string): Option<string>
  {
    if ops == [] then None
    else
      var held, last := DeviceHeld(ops[..|ops| - 1], n), ops[|ops| - 1];
      if NameIn(last) != Some(n) then held
      else if last.Register? then Some(UniqueName(last.dev))
      else if last.Unregister? then None
      else held
  }

  function ServiceName(s: ServiceState, n: string): Option<string>
  {
    if n in s.names then Some(s.names[n]) else None
  }

  function RegistryName(s: ServiceState, n: string): Option<string>
  {
    if n in s.host.devices then Some(UniqueName(s.host.devices[n])) else None
  }

  lemma HostStepKeepsIdentity(a: HostState, op: HostRuns.Op, b: HostState, n: string)
    requires Step(a, op, b) && !op.Insert? && !op.Delete?
    ensures n in b.devices <==> n in a.devices
    ensures n in a.devices ==> UniqueName(b.devices[n]) == UniqueName(a.devices[n])
  {
    match op
    case Publish(name) =>
    case Manage(hits, hdi) => assert n in b.devices <==> n in a.devices;
    case MarkInterfaces(mark, hdi) => assert n in b.devices <==> n in a.devices;
  }

  // What one step makes of a name that the two registers hold.
  lemma StepIsHeld(a: ServiceState, op: ServiceOp, b: ServiceState, n: string)
    requires ServiceStep(a, op, b)
    ensures ServiceName(b, n) ==
            if NameIn(op) != Some(n) then ServiceName(a, n)
            else if op.EnterName? && ServiceName(a, n).None? then Some(UniqueName(op.dev))
            else if op.DropName? then None else ServiceName(a, n)
    ensures RegistryName(b, n) ==
            if NameIn(op) != Some(n) then RegistryName(a, n)
            else if op.Register? then Some(UniqueName(op.dev))
            else if op.Unregister? then None else RegistryName(a, n)
  {
    if op.Other? {
      HostStepKeepsIdentity(a.host, op.op, b.host, n);
    }
  }

  // In every run, whatever the interleaving, both maps hold for each name exactly what its registers hold.
  lemma {:induction false} RunIsHeld(states: seq<ServiceState>, ops: seq<ServiceOp>, n: string)
    requires IsServiceRun(states, ops)
    ensures ServiceName(states[|ops|], n) == NameHeld(ops, n)
    ensures RegistryName(states[|ops|], n) == DeviceHeld(ops, n)
  {
    if ops != [] {
      var last := |ops| - 1;
      RunIsHeld(states[..|ops|], ops[..last], n);
      StepIsHeld(states[last], ops[last], states[|ops|], n);
    }
  }

  // So the two agree on a name, and on its device's vendor, product and serial, exactly when the registers are equal.
  lemma {:induction false} AgreeExactly(states: seq<ServiceState>, ops: seq<ServiceOp>, n: string)
    requires IsServiceRun(states, ops)
    ensures ServiceName(states[|ops|], n) == RegistryName(states[|ops|], n) <==> NameHeld(ops, n) == DeviceHeld(ops, n)
  {
    RunIsHeld(states, ops, n);
  }

  // The last step of a name on the service's side, and on the registry's.
  function LastNameStep(ops: seq<ServiceOp>, n: string): Option<ServiceOp>
  {
    if ops == [] then None
    else
      var last := ops[|ops| - 1];
      if NameIn(last) == Some(n) && (last.EnterName? || last.DropName?) then Some(last)
      else LastNameStep(ops[..|ops| - 1], n)
  }

  function LastDeviceStep(ops: seq<ServiceOp>, n: string): Option<ServiceOp>
  {
    if ops == [] then None
    else
      var last := ops[|ops| - 1];
      if NameIn(last) == Some(n) && (last.Register? || last.Unregister?) then Some(last)
      else LastDeviceStep(ops[..|ops| - 1], n)
  }

  predicate Attaches(step: Option<ServiceOp>)
  {
    step.Some? && (step.value.EnterName? || step.value.Register?)
  }

  lemma {:induction false} HeldByLastStep(ops: seq<ServiceOp>, n: string)
    ensures NameHeld(ops, n).Some? <==> Attaches(LastNameStep(ops, n))
    ensures DeviceHeld(ops, n).Some? <==> Attaches(LastDeviceStep(ops, n))
  {
    if ops != [] {
      HeldByLastStep(ops[..|ops| - 1], n);
    }
  }

  // In every run, overlaps or not: both know a name or neither does exactly when the last step of the name is an
  // attachment on both sides or on neither.
  lemma {:induction false} SameNamesExactly(states: seq<ServiceState>, ops: seq<ServiceOp>, n: string)
    requires IsServiceRun(states, ops)
    ensures (n in states[|ops|].names <==> n in states[|ops|].host.devices) <==>
            (Attaches(LastNameStep(ops, n)) <==> Attaches(LastDeviceStep(ops, n)))
  {
    RunIsHeld(states, ops, n);
    HeldByLastStep(ops, n);
  }

  lemma {:induction false} OtherNamesKeepHeld(ops: seq<ServiceOp>, between: seq<ServiceOp>, n: string)
    requires forall op :: op in between ==> NameIn(op) != Some(n)
    ensures NameHeld(ops + between, n) == NameHeld(ops, n)
    ensures DeviceHeld(ops + between, n) == DeviceHeld(ops, n)
  {
    if between == [] {
      assert ops + between == ops;
    } else {
      var all := ops + between;
      assert all[..|all| - 1] == ops + between[..|between| - 1];
      assert between[|between| - 1] in between;
      OtherNamesKeepHeld(ops, between[..|between| - 1], n);
    }
  }

  // After any run at all, a whole attachment with steps on other names in between ends in agreement on the name exactly
  // when the service did not hold the name before, or held it for a device of the same vendor, product and serial.
  lemma {:induction false} AttachmentAgreesExactly(
    ops: seq<ServiceOp>, dev: Device, between: seq<ServiceOp>, ports: Option<seq<BusAddr>>)
    requires forall op :: op in between ==> NameIn(op) != Some(NameOf(dev.busNum, dev.devAddr))
    ensures var n := NameOf(dev.busNum, dev.devAddr);
            var after := ops + [EnterName(dev)] + between + [Register(dev, ports)];
            NameHeld(after, n) == DeviceHeld(after, n) <==>
            NameHeld(ops, n) == None || NameHeld(ops, n) == Some(UniqueName(dev))
  {
    var n := NameOf(dev.busNum, dev.devAddr);
    var entered := ops + [EnterName(dev)];
    var after := entered + between + [Register(dev, ports)];
    assert entered[..|entered| - 1] == ops;
    OtherNamesKeepHeld(entered, between, n);
    assert after[..|after| - 1] == entered + between;
  }

  // And a whole detachment always does: neither knows the name any more, whatever overlapped before.
  lemma {:induction false} DetachmentAgrees(ops: seq<ServiceOp>, busNum: byte, devAddr: byte, between: seq<ServiceOp>)
    requires forall op :: op in between ==> NameIn(op) != Some(NameOf(busNum, devAddr))
    ensures var n := NameOf(busNum, devAddr);
            var after := ops + [DropName(busNum, devAddr)] + between + [Unregister(busNum, devAddr)];
            NameHeld(after, n) == None && DeviceHeld(after, n) == None
  {
    var n := NameOf(busNum, devAddr);
    var dropped := ops + [DropName(busNum, devAddr)];
    var after := dropped + between + [Unregister(busNum, devAddr)];
    assert dropped[..|dropped| - 1] == ops;
    OtherNamesKeepHeld(dropped, between, n);
    assert after[..|after| - 1] == dropped + between;
  }

  // A run with such an attachment: the service keeps the first device's name, the registry has the second's.
  lemma RenamingRun(dev: Device)
    ensures var n, other := NameOf(dev.busNum, dev.devAddr), dev.(serial := dev.serial + "'");
            var entered := ServiceState(map[n := UniqueName(dev)], START);
            var attached := entered.(host := Inserted(START, dev, None));
            var end := attached.(host := Inserted(attached.host, other, None));
            && IsServiceRun([SERVICE_START, entered, attached, attached, end],
                            [EnterName(dev), Register(dev, None), EnterName(other), Register(other, None)])
            && ServiceName(end, n) != RegistryName(end, n)
  {
    var other := dev.(serial := dev.serial + "'");
    assert |UniqueName(other)| == |UniqueName(dev)| + 1;
  }

  // A run whose windows overlap: a detachment that runs while an attachment is half done finds no device to remove, and
  // the registry ends up with a device whose name the service does not know.
  lemma OverlappingRun(dev: Device)
    ensures var n := NameOf(dev.busNum, dev.devAddr);
            var entered := SERVICE_START.(names := map[n := UniqueName(dev)]);
            var end := SERVICE_START.(host := Inserted(START, dev, None));
            && IsServiceRun([SERVICE_START, entered, SERVICE_START, SERVICE_START, end],
                            [EnterName(dev), DropName(dev.busNum, dev.devAddr), Unregister(dev.busNum, dev.devAddr),
                             Register(dev, None)])
            && n !in end.names && n in end.host.devices
  {
    var n := NameOf(dev.busNum, dev.devAddr);
    assert map[n := UniqueName(dev)] - {n} == map[];
  }
}
