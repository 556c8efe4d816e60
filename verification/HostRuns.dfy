/** What holds in every reachable state of the host manager: the registry agrees with itself, and the broadcasts for a
    name tell its history truthfully. */
module HostRuns {
  import opened DeviceNames
  import opened HostModel
  import opened TypeTables
  import opened UsbModel

  /// Runs

  // One step. A policy runs between an insertion and its publication, and at any other time; it is any pass.
  datatype Op =
    | Insert(dev: Device, ports: Option<seq<BusAddr>>)
    | Publish(name: string)
    | Delete(busNum: byte, devNum: byte)
    | Manage(hits: Hits, hdi: Hdi)
    | MarkInterfaces(mark: Mark, hdi: Hdi)

  ghost predicate Step(a: HostState, op: Op, b: HostState)
  {
    match op
    case Insert(dev, ports) => b == Inserted(a, dev, ports)
    case Publish(name) => b == Published(a, name)
    case Delete(busNum, devNum) => b == Deleted(a, busNum, devNum)
    case Manage(hits, hdi) => Managed(a, b, hits, hdi)
    case MarkInterfaces(mark, hdi) => SetsOnlyFlags(mark) && Marking(a, b, mark, hdi)
  }

  const START := HostState(map[], [], map[])

  ghost predicate IsRun(states: seq<HostState>, ops: seq<Op>)
  {
    && |states| == |ops| + 1
    && states[0] == START
    && forall i :: 0 <= i < |ops| ==> Step(states[i], ops[i], states[i + 1])
  }

  /// The registry

  lemma StepKeepsRegistry(a: HostState, op: Op, b: HostState)
    requires RegistryOk(a) && Step(a, op, b)
    ensures RegistryOk(b)
  {
    match op
    case Insert(dev, ports) => InsertedKeepsRegistry(a, dev, ports);
    case Publish(name) =>
    case Delete(busNum, devNum) => DeletedKeepsRegistry(a, busNum, devNum);
    case Manage(hits, hdi) => ManagedKeepsRegistry(a, b, hits, hdi);
    case MarkInterfaces(mark, hdi) => assert forall n :: n in b.devices ==> n in a.devices;
  }

  // In every reachable state a device's key is its printed address, and serial devices are distinct and registered.
  lemma {:induction false} RunKeepsRegistry(states: seq<HostState>, ops: seq<Op>)
    requires IsRun(states, ops)
    ensures RegistryOk(states[|ops|])
  {
    if ops != [] {
      var last := |ops| - 1;
      RunKeepsRegistry(states[..|ops|], ops[..last]);
      StepKeepsRegistry(states[last], ops[last], states[|ops|]);
    }
  }

  /// One name's view of a run

  // The device's status, if it is attached, and the broadcasts for its name.
  datatype View = View(status: Option<AuthorizeStatus>, broadcasts: seq<bool>)

  function ViewOf(s: HostState, n: string): View
  {
    View(if n in s.devices then Some(s.devices[n].status) else None, BroadcastsOf(s.broadcasts, n))
  }

  datatype Move = Stay | Arrive | Announce | Leave | Authorize(authorized: bool, ok: bool)

  function MoveOf(op: Op, n: string): Move
  {
    match op
    case Insert(dev, _) => if NameOf(dev.busNum, dev.devAddr) == n then Arrive else Stay
    case Publish(name) => if name == n then Announce else Stay
    case Delete(busNum, devNum) => if NameOf(busNum, devNum) == n then Leave else Stay
    case Manage(hits, hdi) => if n in hits then Authorize(hits[n], hdi.authorize(n, hits[n])) else Stay
    case MarkInterfaces(_, _) => Stay
  }

  function Next(v: View, m: Move): View
  {
    if m == Arrive then v.(status := Some(NewArrived))
    else if m == Stay || v.status == None then v
    else
      match m
      case Announce => if v.status == Some(Disabled) then v else View(Some(Enabled), Told(v.broadcasts, Some(true)))
      case Authorize(authorized, ok) =>
        View(Some(StatusAfter(v.status.value, authorized, ok)),
             Told(v.broadcasts, Announced(v.status.value, authorized, ok)))
      case _ => View(None, Told(v.broadcasts, if v.status == Some(Enabled) then Some(false) else None))
  }

  lemma InsertIsMove(a: HostState, dev: Device, ports: Option<seq<BusAddr>>, n: string)
    ensures ViewOf(Inserted(a, dev, ports), n) == Next(ViewOf(a, n), MoveOf(Insert(dev, ports), n))
  {
  }

  lemma PublishIsMove(a: HostState, name: string, n: string)
    ensures ViewOf(Published(a, name), n) == Next(ViewOf(a, n), MoveOf(Publish(name), n))
  {
  }

  lemma DeleteIsMove(a: HostState, busNum: byte, devNum: byte, n: string)
    ensures ViewOf(Deleted(a, busNum, devNum), n) == Next(ViewOf(a, n), MoveOf(Delete(busNum, devNum), n))
  {
  }

  lemma MarkIsMove(a: HostState, b: HostState, mark: Mark, hdi: Hdi, n: string)
    requires Marking(a, b, mark, hdi)
    ensures ViewOf(b, n) == ViewOf(a, n)
  {
    assert n in a.devices <==> n in b.devices;
  }

  lemma ManageIsMove(a: HostState, b: HostState, hits: Hits, hdi: Hdi, n: string)
    requires Managed(a, b, hits, hdi)
    ensures ViewOf(b, n) == Next(ViewOf(a, n), MoveOf(Manage(hits, hdi), n))
  {
    assert n in a.devices <==> n in b.devices;
  }

  // Every step of the manager moves each name's view by its own small machine.
  lemma StepIsMove(a: HostState, op: Op, b: HostState, n: string)
    requires Step(a, op, b)
    ensures ViewOf(b, n) == Next(ViewOf(a, n), MoveOf(op, n))
  {
    match op
    case Insert(dev, ports) => InsertIsMove(a, dev, ports, n);
    case Publish(name) => PublishIsMove(a, name, n);
    case Delete(busNum, devNum) => DeleteIsMove(a, busNum, devNum, n);
    case Manage(hits, hdi) => ManageIsMove(a, b, hits, hdi, n);
    case MarkInterfaces(mark, hdi) => MarkIsMove(a, b, mark, hdi, n);
  }

  /// Truthful broadcasts

  predicate LastIsAttached(broadcasts: seq<bool>)
  {
    broadcasts != [] && broadcasts[|broadcasts| - 1]
  }

  // An enabled device was announced last, and each DETACHED directly follows an ATTACHED.
  predicate IsTruthful(v: View)
  {
    && (v.status == Some(Enabled) ==> LastIsAttached(v.broadcasts))
    && forall i :: 0 <= i < |v.broadcasts| && !v.broadcasts[i] ==> i > 0 && v.broadcasts[i - 1]
  }

  lemma MoveKeepsTruth(v: View, m: Move)
    requires IsTruthful(v)
    ensures IsTruthful(Next(v, m))
  {
  }

  // In every reachable state, for every name, whatever the interleaving.
  lemma {:induction false} RunIsTruthful(states: seq<HostState>, ops: seq<Op>, n: string)
    requires IsRun(states, ops)
    ensures IsTruthful(ViewOf(states[|ops|], n))
  {
    if ops != [] {
      var last := |ops| - 1;
      RunIsTruthful(states[..|ops|], ops[..last], n);
      StepIsMove(states[last], ops[last], states[|ops|], n);
      MoveKeepsTruth(ViewOf(states[last], n), MoveOf(ops[last], n));
    }
  }

  // While a device is not enabled, it is not announced: a stretch of a run in which a name is never enabled
  // broadcasts nothing for it.
  lemma {:induction false} SilentWhileNotEnabled(states: seq<HostState>, ops: seq<Op>, n: string, lo: nat, hi: nat)
    requires IsRun(states, ops) && lo <= hi <= |ops|
    requires forall i :: lo <= i <= hi ==> ViewOf(states[i], n).status != Some(Enabled)
    ensures BroadcastsOf(states[hi].broadcasts, n) == BroadcastsOf(states[lo].broadcasts, n)
    decreases hi
  {
    if lo < hi {
      SilentWhileNotEnabled(states, ops, n, lo, hi - 1);
      StepIsMove(states[hi - 1], ops[hi - 1], states[hi], n);
      assert ViewOf(states[hi - 1], n).status != Some(Enabled) && ViewOf(states[hi], n).status != Some(Enabled);
    }
  }

  /// Announced means attached and enabled

  predicate IsExact(v: View)
  {
    LastIsAttached(v.broadcasts) <==> v.status == Some(Enabled)
  }

  lemma MoveKeepsExactness(v: View, m: Move)
    requires IsTruthful(v) && IsExact(v)
    ensures IsExact(Next(v, m)) <==> !(m == Arrive && v.status == Some(Enabled))
  {
  }

  // A step keeps the latest broadcast exact, for every name, unless it inserts a device over an enabled one.
  lemma StepKeepsExactness(a: HostState, op: Op, b: HostState, n: string)
    requires Step(a, op, b) && IsTruthful(ViewOf(a, n)) && IsExact(ViewOf(a, n))
    ensures IsExact(ViewOf(b, n)) <==>
            !(op.Insert? && NameOf(op.dev.busNum, op.dev.devAddr) == n && ViewOf(a, n).status == Some(Enabled))
  {
    StepIsMove(a, op, b, n);
    MoveKeepsExactness(ViewOf(a, n), MoveOf(op, n));
  }

  // So the latest broadcast for a name is ATTACHED exactly while its device is enabled, in every run that never inserts
  // a device over an enabled one of the same name.
  lemma {:induction false} RunIsExact(states: seq<HostState>, ops: seq<Op>, n: string)
    requires IsRun(states, ops)
    requires forall i :: 0 <= i < |ops| && MoveOf(ops[i], n) == Arrive ==> ViewOf(states[i], n).status != Some(Enabled)
    ensures IsExact(ViewOf(states[|ops|], n))
  {
    if ops != [] {
      var last := |ops| - 1;
      RunIsExact(states[..|ops|], ops[..last], n);
      RunIsTruthful(states[..|ops|], ops[..last], n);
      StepKeepsExactness(states[last], ops[last], states[|ops|], n);
    }
  }

  // A device that replaces an enabled one and is then disabled is still announced: disabling it sends no DETACHED.
  lemma ReplacedThenDisabledStaysAnnounced(s: HostState, dev: Device, ports: Option<seq<BusAddr>>, hdi: Hdi)
    requires var n := NameOf(dev.busNum, dev.devAddr);
             n in s.devices && s.devices[n].status == Enabled && IsTruthful(ViewOf(s, n)) && hdi.authorize(n, false)
    ensures var n := NameOf(dev.busNum, dev.devAddr);
            var after := ViewOf(Authorized(Inserted(s, dev, ports), n, false, hdi), n);
            after.status == Some(Disabled) && LastIsAttached(after.broadcasts)
  {
  }

  // A run that gets there, for any device: attached and announced, attached again, disabled.
  lemma ReplacedRun(dev: Device, hdi: Hdi)
    requires hdi.authorize(NameOf(dev.busNum, dev.devAddr), false)
    ensures var n := NameOf(dev.busNum, dev.devAddr);
            var arrived := Inserted(START, dev, None);
            var announced := Published(arrived, n);
            var replaced := Inserted(announced, dev, None);
            var end := Authorized(replaced, n, false, hdi);
            && IsRun([START, arrived, announced, replaced, end],
                     [Insert(dev, None), Publish(n), Insert(dev, None), Manage(map[n := false], hdi)])
            && ViewOf(end, n) == View(Some(Disabled), [true]) && !IsExact(ViewOf(end, n))
  {
    var n := NameOf(dev.busNum, dev.devAddr);
    var announced := Published(Inserted(START, dev, None), n);
    assert ViewOf(announced, n) == View(Some(Enabled), [true]);
    AuthorizedIsManaged(Inserted(announced, dev, None), n, false, hdi);
  }
}
