/** What holds in every run of the accessory machine, and when stopping it fails. */
module AccessoryRuns {
  import opened AccessoryManager
  import opened BitMask
  import opened UsbModel

  predicate IsPaired(broadcasts: seq<bool>)
  {
    forall i :: 0 <= i < |broadcasts| && !broadcasts[i] ==> i > 0 && broadcasts[i - 1]
  }

  // The fallback timer runs only while an accessory is being configured or data is being sent; the saved functions
  // never include the accessory; the anti-shake timer holds a plugging event; and each DETACHED directly follows an
  // ATTACHED.
  predicate IsOk(s: AccState)
  {
    && (s.fallbackPending ==> s.accStatus == ACC_CONFIGURING || s.accStatus == ACC_SEND)
    && !HasAccessory(s.lastDeviceFunc)
    && (s.antiShakePending ==> IsPlugging(s.eventStatus))
    && (s.accStatus == ACC_START ==> s.broadcasts != [] && s.broadcasts[|s.broadcasts| - 1])
    && IsPaired(s.broadcasts)
  }

  lemma StartedKeepsOk(s: AccState, curFunc: uint32, target: AccStatus, hdi: Hdi)
    requires IsOk(s) && !s.fallbackPending
    ensures IsOk(Started(s, curFunc, target, hdi))
  {
  }

  lemma StoppedKeepsOk(s: AccState)
    requires IsOk(s)
    ensures IsOk(Stopped(s))
  {
  }

  lemma HandledKeepsOk(s: AccState, event: Event, delayProcess: bool, hdi: Hdi)
    requires IsOk(s) && (delayProcess || !s.antiShakePending)
    ensures IsOk(Handled(s, event, delayProcess, hdi))
  {
    var target := Target(s.accStatus, event);
    var noted := s.(eventStatus := event, antiShakePending := false);
    if hdi.present && !(IsPlugging(event) && delayProcess) {
      if (target == ACC_CONFIGURING || target == ACC_START) && hdi.current.Some? {
        StartedKeepsOk(noted.(fallbackPending := false, curDeviceFunc := hdi.current.value), hdi.current.value, target,
                       hdi);
      } else if target == ACC_STOP {
        StoppedKeepsOk(noted);
      }
    }
  }

  lemma StepKeepsOk(s: AccState, op: Op)
    requires IsOk(s)
    ensures IsOk(Step(s, op))
  {
    match op
    case Notify(event, hdi) => HandledKeepsOk(s, event, true, hdi);
    case AntiShakeFires(hdi) => HandledKeepsOk(s.(antiShakePending := false), s.eventStatus, false, hdi);
    case FallbackFires(hdi) =>
  }

  // In every reachable state; so the fallback timer never tears a started accessory down.
  lemma {:induction false} RunIsOk(ops: seq<Op>)
    ensures IsOk(Run(START, ops))
    ensures Run(START, ops).accStatus == ACC_START ==> !Run(START, ops).fallbackPending
  {
    if ops != [] {
      RunIsOk(ops[..|ops| - 1]);
      StepKeepsOk(Run(START, ops[..|ops| - 1]), ops[|ops| - 1]);
    }
  }

  /// The anti-shake timer

  // A burst of plugging events, all delayed.
  predicate IsBurst(ops: seq<Op>)
  {
    forall i :: 0 <= i < |ops| ==> ops[i].Notify? && IsPlugging(ops[i].event) && ops[i].hdi.present
  }

  lemma {:induction false} BurstOnlyRemembers(s: AccState, ops: seq<Op>)
    requires ops != [] && IsBurst(ops)
    ensures Run(s, ops) == s.(eventStatus := ops[|ops| - 1].event, antiShakePending := true)
  {
    if |ops| == 1 {
      assert Run(s, ops[..0]) == s;
    } else {
      BurstOnlyRemembers(s, ops[..|ops| - 1]);
    }
  }

  // However many plugging events come before the timer runs out, only the last one has any effect.
  lemma {:induction false} BurstActsAsLast(s: AccState, ops: seq<Op>, hdi: Hdi)
    requires ops != [] && IsBurst(ops)
    ensures Step(Run(s, ops), AntiShakeFires(hdi)) == Step(Step(s, ops[|ops| - 1]), AntiShakeFires(hdi))
  {
    BurstOnlyRemembers(s, ops);
  }

  /// Stopping

  predicate IsStop(s: AccState, op: Op)
  {
    || (op.Notify? && op.hdi.present && op.event == ACT_ACCESSORYDOWN)
    || (op.AntiShakeFires? && op.hdi.present && s.antiShakePending && s.eventStatus == ACT_DOWNDEVICE)
  }

  // Started, and the functions read last include the accessory.
  predicate IsStoppable(s: AccState)
  {
    s.accStatus == ACC_START && HasAccessory(s.curDeviceFunc)
  }

  // In every reachable state, whatever its status, an unplugging or accessory-down event ends a stoppable accessory,
  // announces that and asks for the saved functions; in every other state, SEND and CONFIGURING included, it does
  // nothing but note the event.
  lemma {:induction false} StopEndsExactly(ops: seq<Op>, op: Op)
    requires IsStop(Run(START, ops), op)
    ensures var s, after := Run(START, ops), Step(Run(START, ops), op);
            if IsStoppable(s)
            then && after.accStatus == ACC_STOP && after.broadcasts == s.broadcasts + [false]
                 && after.requests == s.requests + [s.lastDeviceFunc] && !HasAccessory(after.curDeviceFunc)
            else after == s.(eventStatus := if op.Notify? then op.event else s.eventStatus, antiShakePending := false)
  {
    RunIsOk(ops);
  }

  // Sending data, or an accessory-up event that reads functions without the accessory.
  predicate IsLoss(op: Op)
  {
    && op.Notify? && op.hdi.present
    && (|| op.event == ACT_ACCESSORYSEND
        || (op.event == ACT_ACCESSORYUP && op.hdi.current.Some? && !HasAccessory(op.hdi.current.value)))
  }

  // A stoppable accessory stops being so without a DETACHED in exactly these steps.
  lemma {:induction false} UnstoppableExactly(ops: seq<Op>, op: Op)
    requires IsStoppable(Run(START, ops))
    ensures var s, after := Run(START, ops), Step(Run(START, ops), op);
            !IsStoppable(after) && after.broadcasts != s.broadcasts + [false] <==> IsLoss(op)
  {
    RunIsOk(ops);
    var s := Run(START, ops);
    assert (s.broadcasts + [true])[|s.broadcasts|] && !(s.broadcasts + [false])[|s.broadcasts|];
  }

  // The driver reads functions that include the accessory, as when an accessory starts.
  predicate ReadsAccessory(op: Op)
  {
    !op.FallbackFires? && op.hdi.current.Some? && HasAccessory(op.hdi.current.value)
  }

  // A stretch after ops in which no stop event is handled and the accessory is not read again.
  predicate IsUndisturbed(ops: seq<Op>, more: seq<Op>)
  {
    more != [] ==>
      var before, last := more[..|more| - 1], more[|more| - 1];
      IsUndisturbed(ops, before) && !IsStop(Run(START, ops + before), last) && !ReadsAccessory(last)
  }

  predicate NoLoss(ops: seq<Op>)
  {
    forall op :: op in ops ==> !IsLoss(op)
  }

  lemma NoLossLast(ops: seq<Op>, op: Op)
    ensures NoLoss(ops + [op]) <==> NoLoss(ops) && !IsLoss(op)
  {
    assert op in ops + [op];
  }

  // Over such a stretch a stoppable accessory stays stoppable exactly when there was no loss. So the next stop event
  // announces its end exactly then.
  lemma {:induction false} StaysStoppableExactly(ops: seq<Op>, more: seq<Op>)
    requires IsStoppable(Run(START, ops)) && IsUndisturbed(ops, more)
    ensures IsStoppable(Run(START, ops + more)) <==> NoLoss(more)
  {
    if more == [] {
      assert ops + more == ops;
    } else {
      var before, last := more[..|more| - 1], more[|more| - 1];
      StaysStoppableExactly(ops, before);
      RunIsOk(ops + before);
      StoppableNext(Run(START, ops + before), last);
      NoLossLast(before, last);
      RunLast(START, ops + before, last);
      assert before + [last] == more && ops + before + [last] == ops + more;
    }
  }

  lemma StoppableNext(s: AccState, op: Op)
    requires IsOk(s) && !IsStop(s, op) && !ReadsAccessory(op)
    ensures IsStoppable(Step(s, op)) <==> IsStoppable(s) && !IsLoss(op)
  {
  }

  lemma RunLast(s: AccState, ops: seq<Op>, op: Op)
    ensures Run(s, ops + [op]) == Step(Run(s, ops), op)
  {
    assert (ops + [op])[..|ops|] == ops;
  }

  lemma RunThree(a: Op, b: Op, c: Op)
    ensures Run(START, [a, b, c]) == Step(Step(Step(START, a), b), c)
  {
    RunLast(START, [], a);
    RunLast(START, [] + [a], b);
    RunLast(START, [] + [a] + [b], c);
    assert [a, b, c] == [] + [a] + [b] + [c];
  }

  lemma AccessoryBits()
    ensures HasAccessory(FUN_ACCESSORY) && !HasAccessory(FUNCTION_NONE) && !HasAccessory(4)
  {
    assert Bit(8, 3) && Bit(16, 4) && Bit(32, 5) && Bit(64, 6);
    assert Bit(256, 8) && Bit(512, 9) && Bit(1024, 10);
    ZeroHasNoBit(ACCESSORY_BIT);
    ZeroHasNoBit(8);
    assert !Bit(1, 9) && !Bit(2, 10);
  }

  // Start, send, accessory down: announced twice, never as gone, and no functions are asked for.
  lemma SendRun()
    ensures var up := Hdi(true, Some(FUN_ACCESSORY), true, true);
            var end := Run(START, [Notify(ACT_ACCESSORYUP, up), Notify(ACT_ACCESSORYSEND, up),
                                   Notify(ACT_ACCESSORYDOWN, up)]);
            end.accStatus == ACC_SEND && end.broadcasts == [true, true] && end.requests == []
  {
    var up := Hdi(true, Some(FUN_ACCESSORY), true, true);
    AccessoryBits();
    RunThree(Notify(ACT_ACCESSORYUP, up), Notify(ACT_ACCESSORYSEND, up), Notify(ACT_ACCESSORYDOWN, up));
  }

  // Start, configure again with functions that lack the accessory, accessory down: the accessory stays started when the
  // driver refuses the new functions and is being configured when it accepts them, and is never announced as gone.
  lemma ReconfigureRun(setOk: bool)
    ensures var up := Hdi(true, Some(FUN_ACCESSORY), true, true);
            var end := Run(START, [Notify(ACT_ACCESSORYUP, up), Notify(ACT_ACCESSORYUP, Hdi(true, Some(4), setOk, true)),
                                   Notify(ACT_ACCESSORYDOWN, up)]);
            end.accStatus == (if setOk then ACC_CONFIGURING else ACC_START) && end.broadcasts == [true]
  {
    var up := Hdi(true, Some(FUN_ACCESSORY), true, true);
    AccessoryBits();
    RunThree(Notify(ACT_ACCESSORYUP, up), Notify(ACT_ACCESSORYUP, Hdi(true, Some(4), setOk, true)),
             Notify(ACT_ACCESSORYDOWN, up));
  }

  /// The functions asked for

  // An accessory-up event that asks for the accessory.
  predicate AsksForAccessory(op: Op)
  {
    IsLoss(op) && op.event == ACT_ACCESSORYUP
  }

  // The functions read by the last such event that the driver accepted.
  function Saved(ops: seq<Op>): uint32
  {
    if ops == [] then FUNCTION_NONE
    else
      var last := ops[|ops| - 1];
      if AsksForAccessory(last) && last.hdi.setOk then last.hdi.current.value else Saved(ops[..|ops| - 1])
  }

  lemma StepSaves(s: AccState, op: Op)
    requires IsOk(s)
    ensures Step(s, op).lastDeviceFunc ==
            if AsksForAccessory(op) && op.hdi.setOk then op.hdi.current.value else s.lastDeviceFunc
  {
  }

  lemma StepAsks(s: AccState, op: Op)
    requires IsOk(s)
    ensures Step(s, op).requests == s.requests +
              (if AsksForAccessory(op) then [FUN_ACCESSORY]
               else if (op.FallbackFires? && s.fallbackPending) || (IsStop(s, op) && IsStoppable(s))
               then [s.lastDeviceFunc]
               else [])
  {
    assert s.requests + [] == s.requests;
  }

  lemma {:induction false} SavesTheReplaced(ops: seq<Op>)
    ensures Run(START, ops).lastDeviceFunc == Saved(ops)
  {
    if ops != [] {
      RunIsOk(ops[..|ops| - 1]);
      SavesTheReplaced(ops[..|ops| - 1]);
      StepSaves(Run(START, ops[..|ops| - 1]), ops[|ops| - 1]);
    }
  }

  // In every run the driver is asked for the accessory exactly by these events, and for the functions that the last
  // accepted one replaced exactly by the fallback timer and by the stop of a stoppable accessory; never otherwise.
  lemma {:induction false} AsksExactly(ops: seq<Op>, op: Op)
    ensures var s := Run(START, ops);
            Step(s, op).requests == s.requests +
              (if AsksForAccessory(op) then [FUN_ACCESSORY]
               else if (op.FallbackFires? && s.fallbackPending) || (IsStop(s, op) && IsStoppable(s)) then [Saved(ops)]
               else [])
  {
    SavesTheReplaced(ops);
    RunIsOk(ops);
    StepAsks(Run(START, ops), op);
  }

  /// The fallback timer

  // An unplugging, delayed or not, or an accessory-down event.
  predicate IsUnplugging(s: AccState, op: Op)
  {
    IsStop(s, op) || (op.Notify? && op.event == ACT_DOWNDEVICE)
  }

  predicate AllUnplug(s: AccState, ops: seq<Op>)
  {
    ops != [] ==> AllUnplug(s, ops[..|ops| - 1]) && IsUnplugging(Run(s, ops[..|ops| - 1]), ops[|ops| - 1])
  }

  // While an accessory is being configured, every stop event is ignored.
  lemma ConfiguringIgnoresStops(s: AccState, op: Op)
    requires s.accStatus == ACC_CONFIGURING && IsUnplugging(s, op)
    ensures var after := Step(s, op);
            after == s.(eventStatus := after.eventStatus, antiShakePending := after.antiShakePending)
  {
  }

  lemma {:induction false} ConfiguringIgnoresUnplugging(s: AccState, ops: seq<Op>)
    requires s.accStatus == ACC_CONFIGURING && AllUnplug(s, ops)
    ensures var after := Run(s, ops);
            after == s.(eventStatus := after.eventStatus, antiShakePending := after.antiShakePending)
  {
    if ops != [] {
      ConfiguringIgnoresUnplugging(s, ops[..|ops| - 1]);
      ConfiguringIgnoresStops(Run(s, ops[..|ops| - 1]), ops[|ops| - 1]);
    }
  }

  // When the host never configures the accessory and no up event comes: from any state, an accepted accessory-up event, then any number of
  // unpluggings, then the fallback timer asks for the accessory and then for the functions found before, and announces
  // nothing.
  lemma {:induction false} FallbackGivesBack(s: AccState, func: uint32, hdi: Hdi, ops: seq<Op>)
    requires hdi.present && hdi.setOk && hdi.current == Some(func) && !HasAccessory(func)
    requires AllUnplug(Step(s, Notify(ACT_ACCESSORYUP, hdi)), ops)
    ensures var configuring := Run(Step(s, Notify(ACT_ACCESSORYUP, hdi)), ops);
            var after := Step(configuring, FallbackFires(hdi));
            && configuring.accStatus == ACC_CONFIGURING && configuring.fallbackPending
            && after.accStatus == ACC_STOP && !after.fallbackPending
            && after.requests == s.requests + [FUN_ACCESSORY, func] && after.broadcasts == s.broadcasts
  {
    ConfiguringIgnoresUnplugging(Step(s, Notify(ACT_ACCESSORYUP, hdi)), ops);
    assert (s.requests + [FUN_ACCESSORY]) + [func] == s.requests + [FUN_ACCESSORY, func];
  }
}
