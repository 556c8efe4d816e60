/** Every run of device mode, read off its steps alone: the connection, the pending task with its delay, the current
    functions, and what is asked of the driver. */
module DeviceRegisters {
  import opened BitMask
  import opened DeviceManager
  import opened DeviceRuns
  import opened UsbModel

  /// The connection and the pending task

  predicate PluggedHeld(ops: seq<Op>)
  {
    if ops == [] then false
    else
      var before, last := ops[..|ops| - 1], ops[|ops| - 1];
      if last.TaskFires? && TaskHeld(before).Some? then TaskHeld(before).value.Connect? else PluggedHeld(before)
  }

  // Whether the last report of the physical connection said that it is there.
  predicate PhyHeld(ops: seq<Op>)
  {
    if ops == [] then false
    else if ops[|ops| - 1].SetPhy? then ops[|ops| - 1].phyConnect
    else PhyHeld(ops[..|ops| - 1])
  }

  // A device event that says otherwise than the connection starts a task anew: connecting after one second,
  // disconnecting after 1.4, or 2.8 while the physical connection is there. One that says the same cancels it.
  function TaskHeld(ops: seq<Op>): Option<Task>
  {
    if ops == [] then None
    else
      var before, last := ops[..|ops| - 1], ops[|ops| - 1];
      if last.TaskFires? then None
      else if !last.Notify? then TaskHeld(before)
      else if last.event == ACT_UPDEVICE then (if PluggedHeld(before) then None else Some(Connect(1000)))
      else if !PluggedHeld(before) then None
      else Some(Disconnect(if PhyHeld(before) then 2800 else 1400))
  }

  // In every run the connection and the pending task are exactly these.
  lemma {:induction false} RunIsTask(ops: seq<Op>)
    ensures var s := Run(ops);
            s.connected == PluggedHeld(ops) && s.pending == TaskHeld(ops) && s.phyConnect == PhyHeld(ops)
  {
    if ops != [] {
      RunIsTask(ops[..|ops| - 1]);
      StepIsTask(Run(ops[..|ops| - 1]), ops[|ops| - 1]);
    }
  }

  lemma StepIsTask(s: DevState, op: Op)
    ensures var after := Step(s, op);
            && after.phyConnect == (if op.SetPhy? then op.phyConnect else s.phyConnect)
            && after.connected == (if op.TaskFires? && s.pending.Some? then s.pending.value.Connect? else s.connected)
            && after.pending ==
               if op.TaskFires? then None
               else if !op.Notify? then s.pending
               else if op.event == ACT_UPDEVICE then (if s.connected then None else Some(Connect(1000)))
               else if !s.connected then None
               else Some(Disconnect(if s.phyConnect then 2800 else 1400))
  {
    TasksAfter(s, op);
    PhyAfter(s, op);
  }

  lemma PhyAfter(s: DevState, op: Op)
    ensures Step(s, op).phyConnect == if op.SetPhy? then op.phyConnect else s.phyConnect
  {
  }

  /// The current functions

  predicate HasMedia(func: uint32)
  {
    Bit(func, 3) || Bit(func, 4)
  }

  // The functions without bits 3 and 4 (MTP and PTP), or storage when there are no others.
  function MediaCut(func: uint32): uint32
  {
    var rest := func - (if Bit(func, 3) then 8 else 0) - (if Bit(func, 4) then 16 else 0);
    if rest <= 0 then 0x200 else rest
  }

  // What a disconnected device is left with: bit 12 is devmode_auth.
  function Unplugged(func: uint32): uint32
  {
    if HasMedia(func) then MediaCut(func) else if Bit(func, 12) then 0x200 else func
  }

  lemma MediaIsCut(func: uint32)
    ensures WithoutMedia(func) == func - (if Bit(func, 3) then 8 else 0) - (if Bit(func, 4) then 16 else 0)
    ensures StorageIfNone(WithoutMedia(func)) == MediaCut(func)
  {
    assert Pow2(3) == 8 && Pow2(4) == 16;
    OneBit(func, 3);
    OneBit(Clear(func, 3), 4);
    BitOfClear(func, 3, 4);
  }

  lemma UnplugIsUnplugged(func: uint32)
    ensures AfterUnplug(func) == Unplugged(func)
    ensures ResetsOnUnplug(func) <==> Bit(func, 3) || Bit(func, 4) || Bit(func, 12)
  {
    MediaIsCut(func);
  }

  // The step takes a connected device's task to disconnect, and a user's wish to leave MTP or PTP that is accepted.
  predicate Disconnects(before: seq<Op>, op: Op)
  {
    op.TaskFires? && TaskHeld(before).Some? && TaskHeld(before).value.Disconnect?
  }

  // HDC at first; then what was passed last, what the driver told at the last connection, or what was left over by a
  // disconnection or an accepted user's wish.
  function FunctionsHeld(ops: seq<Op>): uint32
  {
    if ops == [] then 0x4
    else
      var before, last := ops[..|ops| - 1], ops[|ops| - 1];
      var func := FunctionsHeld(before);
      match last
      case Notify(_) => func
      case TaskFires(read) =>
        if Disconnects(before, last) then Unplugged(func)
        else if TaskHeld(before).Some? && read.Some? then read.value else func
      case Update(passed) => passed
      case UserChange(setOk) => if HasMedia(func) && setOk then MediaCut(func) else func
      case SetPhy(_) => func
  }

  // The driver is asked exactly when a disconnection finds one of the bits 3, 4 and 12, or a user's wish one of 3 and 4,
  // and then for what is left.
  function AskedHeld(ops: seq<Op>): seq<uint32>
  {
    if ops == [] then []
    else
      var before, last := ops[..|ops| - 1], ops[|ops| - 1];
      var func := FunctionsHeld(before);
      if Disconnects(before, last) && (HasMedia(func) || Bit(func, 12)) then AskedHeld(before) + [Unplugged(func)]
      else if last.UserChange? && HasMedia(func) then AskedHeld(before) + [MediaCut(func)]
      else AskedHeld(before)
  }

  // In every run the current functions and the requests are exactly these.
  lemma {:induction false} RunIsFunctions(ops: seq<Op>)
    ensures Run(ops).currentFunctions == FunctionsHeld(ops) && Run(ops).requests == AskedHeld(ops)
  {
    if ops != [] {
      var before, last := ops[..|ops| - 1], ops[|ops| - 1];
      RunIsFunctions(before);
      RunIsTask(before);
      StepIsFunctions(Run(before), last);
    }
  }

  lemma DisconnectedIs(s: DevState)
    ensures var after, func := Disconnected(s), s.currentFunctions;
            && after.currentFunctions == Unplugged(func)
            && after.requests == if HasMedia(func) || Bit(func, 12) then s.requests + [Unplugged(func)] else s.requests
  {
    UnplugIsUnplugged(s.currentFunctions);
  }

  lemma UserChangedIs(s: DevState, setOk: bool)
    ensures var after, func := UserChanged(s, setOk), s.currentFunctions;
            && after.currentFunctions == (if HasMedia(func) && setOk then MediaCut(func) else func)
            && after.requests == if HasMedia(func) then s.requests + [MediaCut(func)] else s.requests
  {
    MediaIsCut(s.currentFunctions);
  }

  lemma StepIsFunctions(s: DevState, op: Op)
    ensures var after, func := Step(s, op), s.currentFunctions;
            && after.currentFunctions ==
               (match op
                case Notify(_) => func
                case TaskFires(read) =>
                  if s.pending.Some? && s.pending.value.Disconnect? then Unplugged(func)
                  else if s.pending.Some? && read.Some? then read.value else func
                case Update(passed) => passed
                case UserChange(setOk) => if HasMedia(func) && setOk then MediaCut(func) else func
                case SetPhy(_) => func)
            && after.requests ==
               if op.TaskFires? && s.pending.Some? && s.pending.value.Disconnect? && (HasMedia(func) || Bit(func, 12))
               then s.requests + [Unplugged(func)]
               else if op.UserChange? && HasMedia(func) then s.requests + [MediaCut(func)]
               else s.requests
  {
    match op
    case Notify(event) =>
    case TaskFires(read) => DisconnectedIs(s);
    case Update(func) =>
    case UserChange(setOk) => UserChangedIs(s, setOk);
    case SetPhy(phyConnect) =>
  }

  /// Bit by bit

  ghost predicate OnlyMedia(func: uint32)
  {
    forall k: nat :: Bit(func, k) ==> k == 3 || k == 4
  }

  // A disconnection, in any run and for every bit: without MTP, PTP and devmode_auth every bit stays and nothing is
  // asked; with devmode_auth alone of the three, exactly storage is left; with MTP or PTP exactly the other bits, or
  // storage when there are none. What is left is asked for exactly when one of the three was there.
  lemma {:induction false} DisconnectionKeepsExactly(ops: seq<Op>, read: Option<uint32>, j: nat)
    requires Disconnects(ops, TaskFires(read))
    ensures var s, after := Run(ops), Run(ops + [TaskFires(read)]);
            var f := s.currentFunctions;
            && (if Bit(f, 3) || Bit(f, 4) then
                  if OnlyMedia(f) then after.currentFunctions == 0x200
                  else Bit(after.currentFunctions, j) <==> Bit(f, j) && j != 3 && j != 4
                else if Bit(f, 12) then after.currentFunctions == 0x200
                else after.currentFunctions == f)
            && after.requests ==
               if Bit(f, 3) || Bit(f, 4) || Bit(f, 12) then s.requests + [after.currentFunctions] else s.requests
  {
    var f := Run(ops).currentFunctions;
    assert (ops + [TaskFires(read)])[..|ops|] == ops;
    RunIsTask(ops);
    StepIsFunctions(Run(ops), TaskFires(read));
    if HasMedia(f) {
      MediaBits(f, j);
    }
  }

  lemma MediaBits(func: uint32, j: nat)
    requires HasMedia(func)
    ensures if OnlyMedia(func) then MediaCut(func) == 0x200
            else Bit(MediaCut(func), j) <==> Bit(func, j) && j != 3 && j != 4
  {
    MediaIsCut(func);
    var rest := WithoutMedia(func);
    BitOfClear(func, 3, j);
    BitOfClear(Clear(func, 3), 4, j);
    if rest == 0 {
      forall k: nat | Bit(func, k) ensures k == 3 || k == 4 {
        BitOfClear(func, 3, k);
        BitOfClear(Clear(func, 3), 4, k);
        ZeroHasNoBit(k);
      }
    } else {
      var k := SomeBit(rest);
      BitOfClear(func, 3, k);
      BitOfClear(Clear(func, 3), 4, k);
    }
  }
}
