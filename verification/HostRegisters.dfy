/** Every run of the host manager, read off its steps alone: what is registered for a name, its status, what was
    broadcast for it, and which devices are known to be serial. */
module HostRegisters {
  import opened DeviceNames
  import opened HostModel
  import opened HostRuns
  import opened UsbModel

  // The name that an insertion or a deletion is about.
  function Comes(op: Op): Option<string>
  {
    if op.Insert? then Some(NameOf(op.dev.busNum, op.dev.devAddr)) else None
  }

  function Goes(op: Op): Option<string>
  {
    if op.Delete? then Some(NameOf(op.busNum, op.devNum)) else None
  }

  /// Status and broadcasts

  // The change that a policy step makes to a device of some status, if any: to enabled (true) or disabled (false).
  function Change(op: Op, n: string, status: AuthorizeStatus): Option<bool>
  {
    if op.Manage? && n in op.hits && (op.hits[n] <==> status == Disabled) && op.hdi.authorize(n, op.hits[n])
    then Some(op.hits[n]) else None
  }

  // A device arrives, is enabled when it is published and no policy has disabled it since, and changes between enabled
  // and disabled with every accepted request for the other.
  function StatusHeld(ops: seq<Op>, n: string): Option<AuthorizeStatus>
  {
    if ops == [] then None
    else
      var before, last := StatusHeld(ops[..|ops| - 1], n), ops[|ops| - 1];
      if Comes(last) == Some(n) then Some(NewArrived)
      else if Goes(last) == Some(n) then None
      else if before == None then None
      else if last == Publish(n) then (if before == Some(Disabled) then before else Some(Enabled))
      else
        match Change(last, n, before.value)
        case None => before
        case Some(enabled) => Some(if enabled then Enabled else Disabled)
  }

  // ATTACHED is sent by each publication of a device that is not disabled and by each change of an announced one to
  // enabled; DETACHED by each change of an announced one to disabled and by the deletion of an enabled one.
  function History(ops: seq<Op>, n: string): seq<bool>
  {
    if ops == [] then []
    else
      var told, last := History(ops[..|ops| - 1], n), ops[|ops| - 1];
      var status := StatusHeld(ops[..|ops| - 1], n);
      if status == None then told
      else if last == Publish(n) && status != Some(Disabled) then told + [true]
      else if Goes(last) == Some(n) && status == Some(Enabled) then told + [false]
      else if status == Some(NewArrived) || Change(last, n, status.value) == None then told
      else told + [Change(last, n, status.value).value]
  }

  lemma MoveIsHeld(ops: seq<Op>, n: string)
    requires ops != []
    ensures var before, last := ops[..|ops| - 1], ops[|ops| - 1];
            Next(View(StatusHeld(before, n), History(before, n)), MoveOf(last, n)) ==
            View(StatusHeld(ops, n), History(ops, n))
  {
  }

  // In every run, whatever the interleaving, each name's status and broadcasts are exactly these.
  lemma {:induction false} RunIsHistory(states: seq<HostState>, ops: seq<Op>, n: string)
    requires IsRun(states, ops)
    ensures var s := states[|ops|];
            && StatusHeld(ops, n) == (if n in s.devices then Some(s.devices[n].status) else None)
            && History(ops, n) == BroadcastsOf(s.broadcasts, n)
  {
    if ops != [] {
      var last := |ops| - 1;
      RunIsHistory(states[..|ops|], ops[..last], n);
      StepIsMove(states[last], ops[last], states[|ops|], n);
      MoveIsHeld(ops, n);
    }
  }

  /// The registered devices

  // The device inserted last under a name, until the name is deleted.
  function Registered(ops: seq<Op>, n: string): Option<Device>
  {
    if ops == [] then None
    else
      var last := ops[|ops| - 1];
      if Comes(last) == Some(n) then Some(last.dev)
      else if Goes(last) == Some(n) then None
      else Registered(ops[..|ops| - 1], n)
  }

  // The same device, with perhaps other flags on its interfaces and another status.
  predicate SameConfig(a: Config, b: Config)
  {
    && a == b.(interfaces := a.interfaces) && |a.interfaces| == |b.interfaces|
    && forall i :: 0 <= i < |a.interfaces| ==> a.interfaces[i] == b.interfaces[i].(authorized := a.interfaces[i].authorized)
  }

  predicate SameConfigs(a: seq<Config>, b: seq<Config>)
  {
    |a| == |b| && forall j :: 0 <= j < |a| ==> SameConfig(a[j], b[j])
  }

  predicate SameDevice(a: Device, b: Device)
  {
    a == b.(status := a.status, configs := a.configs) && SameConfigs(a.configs, b.configs)
  }

  lemma MarkedIsSame(dev: Device, n: string, mark: Mark, hdi: Hdi, original: Device)
    requires SetsOnlyFlags(mark) && SameDevice(dev, original)
    ensures SameDevice(MarkedDevice(dev, n, mark, hdi), original)
  {
    var after := MarkedDevice(dev, n, mark, hdi);
    forall j | 0 <= j < |after.configs| ensures SameConfig(after.configs[j], original.configs[j]) {
      assert SameConfig(dev.configs[j], original.configs[j]);
    }
  }

  lemma StepKeepsDevice(a: HostState, op: Op, b: HostState, n: string, original: Device)
    requires Step(a, op, b) && n in a.devices && SameDevice(a.devices[n], original)
    requires Comes(op) != Some(n) && Goes(op) != Some(n)
    ensures n in b.devices && SameDevice(b.devices[n], original)
  {
    match op
    case Insert(dev, ports) =>
    case Publish(name) =>
    case Delete(busNum, devNum) =>
    case Manage(hits, hdi) => assert n in b.devices;
    case MarkInterfaces(mark, hdi) =>
      assert n in b.devices;
      MarkedIsSame(a.devices[n], n, mark, hdi, original);
  }

  lemma StepAddsNoDevice(a: HostState, op: Op, b: HostState, n: string)
    requires Step(a, op, b) && n !in a.devices && Comes(op) != Some(n)
    ensures n !in b.devices
  {
    match op
    case Insert(dev, ports) =>
    case Publish(name) =>
    case Delete(busNum, devNum) =>
    case Manage(hits, hdi) => assert n in a.devices <==> n in b.devices;
    case MarkInterfaces(mark, hdi) => assert n in a.devices <==> n in b.devices;
  }

  // In every run a name's device is the one inserted last under it, up to its status and its interfaces' flags.
  lemma {:induction false} RunIsRegistered(states: seq<HostState>, ops: seq<Op>, n: string)
    requires IsRun(states, ops)
    ensures n in states[|ops|].devices <==> Registered(ops, n).Some?
    ensures n in states[|ops|].devices ==> SameDevice(states[|ops|].devices[n], Registered(ops, n).value)
  {
    if ops != [] {
      var last := |ops| - 1;
      var a, op, b := states[last], ops[last], states[|ops|];
      RunIsRegistered(states[..|ops|], ops[..last], n);
      if Comes(op) != Some(n) && Goes(op) != Some(n) {
        if n in a.devices {
          StepKeepsDevice(a, op, b, n, Registered(ops[..last], n).value);
        } else {
          StepAddsNoDevice(a, op, b, n);
        }
      }
    }
  }

  /// Serial devices

  // Whether some insertion at the address found its port since the device there was last deleted.
  predicate SerialHeld(ops: seq<Op>, a: BusAddr)
  {
    if ops == [] then false
    else
      var last := ops[|ops| - 1];
      if last.Insert? && BusAddr(last.dev.busNum, last.dev.devAddr) == a && last.ports.Some? && a in last.ports.value
      then true
      else if last.Delete? && BusAddr(last.busNum, last.devNum) == a then false
      else SerialHeld(ops[..|ops| - 1], a)
  }

  lemma StepIsSerial(s: HostState, op: Op, t: HostState, a: BusAddr)
    requires RegistryOk(s) && Step(s, op, t)
    ensures a in t.serialDevices <==>
            if op.Insert? && BusAddr(op.dev.busNum, op.dev.devAddr) == a && op.ports.Some? && a in op.ports.value then true
            else if op.Delete? && BusAddr(op.busNum, op.devNum) == a then false
            else a in s.serialDevices
  {
    if op.Delete? {
      WithoutFirstMembers(s.serialDevices, BusAddr(op.busNum, op.devNum));
      NameInjective(op.busNum, op.devNum, a.busNum, a.devAddr);
    }
  }

  // In every run the serial devices are exactly these.
  lemma {:induction false} RunIsSerial(states: seq<HostState>, ops: seq<Op>, a: BusAddr)
    requires IsRun(states, ops)
    ensures a in states[|ops|].serialDevices <==> SerialHeld(ops, a)
  {
    if ops != [] {
      var last := |ops| - 1;
      RunIsSerial(states[..|ops|], ops[..last], a);
      RunKeepsRegistry(states[..|ops|], ops[..last]);
      StepIsSerial(states[last], ops[last], states[|ops|], a);
    }
  }
}
