/** The accessory machine seen from outside: what the events and the driver's answers alone tell about every run, and
    when the fallback is lost. */
module AccessoryPhases {
  import opened AccessoryManager
  import opened AccessoryRuns
  import opened BitMask
  import opened UsbModel

  /// Phases

  // Idle: neither configuring nor stoppable. Waiting: configuring, with the fallback timer running. Stranded:
  // configuring without it. Attached: the next stop event is announced.
  datatype Phase = Idle | Waiting | Stranded | Attached

  function PhaseOf(s: AccState): Phase
  {
    if IsStoppable(s) then Attached
    else if s.accStatus != ACC_CONFIGURING then Idle
    else if s.fallbackPending then Waiting else Stranded
  }

  // The plugging event that the anti-shake timer still holds back.
  function Delayed(ops: seq<Op>): Option<Event>
  {
    if ops == [] then None
    else
      var last := ops[|ops| - 1];
      match last
      case Notify(event, hdi) =>
        if !hdi.present then Delayed(ops[..|ops| - 1]) else if IsPlugging(event) then Some(event) else None
      case AntiShakeFires(_) => None
      case FallbackFires(_) => Delayed(ops[..|ops| - 1])
  }

  function Held(s: AccState): Option<Event>
  {
    if s.antiShakePending then Some(s.eventStatus) else None
  }

  // The event that a step handles at once, if any.
  function EventIn(delayed: Option<Event>, op: Op): Option<Event>
  {
    match op
    case Notify(event, hdi) => if hdi.present && !IsPlugging(event) then Some(event) else None
    case AntiShakeFires(hdi) => if hdi.present then delayed else None
    case FallbackFires(_) => None
  }

  // Only the kind of event and the accessory bit that was read matter.
  function NextPhase(phase: Phase, event: Event, hdi: Hdi): Phase
  {
    var configuring := phase == Waiting || phase == Stranded;
    var found := hdi.current.Some? && HasAccessory(hdi.current.value);
    match event
    case ACT_ACCESSORYUP =>
      if found then Attached
      else if hdi.current.Some? && hdi.setOk then Waiting
      else if configuring then Stranded
      else if hdi.current.Some? then Idle else phase
    case ACT_UPDEVICE => if !configuring then phase else if found then Attached else Stranded
    case ACT_DOWNDEVICE => if phase == Attached then Idle else phase
    case ACT_ACCESSORYDOWN => if phase == Attached then Idle else phase
    case ACT_ACCESSORYSEND => Idle
    case OtherEvent => phase
  }

  function PhaseAfter(ops: seq<Op>): Phase
  {
    if ops == [] then Idle
    else
      var before, last := ops[..|ops| - 1], ops[|ops| - 1];
      var event := EventIn(Delayed(before), last);
      if last.FallbackFires? && PhaseAfter(before) == Waiting then Idle
      else if event == None then PhaseAfter(before)
      else NextPhase(PhaseAfter(before), event.value, last.hdi)
  }

  lemma {:induction false} RunIsDelayed(ops: seq<Op>)
    ensures Delayed(ops) == Held(Run(START, ops))
  {
    if ops != [] {
      RunIsDelayed(ops[..|ops| - 1]);
    }
  }

  lemma HandledMovesPhase(s: AccState, event: Event, hdi: Hdi)
    requires IsOk(s) && hdi.present
    ensures PhaseOf(Processed(s, Target(s.accStatus, event), hdi)) == NextPhase(PhaseOf(s), event, hdi)
  {
  }

  // In every run, however often starts, losses, stops and refusals follow each other, the events and the driver's
  // answers alone tell whether the accessory is stoppable, and whether it is being configured with or without a
  // fallback.
  lemma {:induction false} RunIsPhase(ops: seq<Op>)
    ensures PhaseOf(Run(START, ops)) == PhaseAfter(ops)
  {
    if ops != [] {
      var before, last := ops[..|ops| - 1], ops[|ops| - 1];
      var s := Run(START, before);
      RunIsPhase(before);
      RunIsDelayed(before);
      RunIsOk(before);
      var event := EventIn(Delayed(before), last);
      if event.Some? {
        var noted := s.(eventStatus := event.value, antiShakePending := false);
        HandledMovesPhase(noted, event.value, last.hdi);
      }
    }
  }

  // So a stop event announces the end of the accessory exactly when the run says that it is started.
  lemma StopAnnouncesExactly(ops: seq<Op>, op: Op)
    requires IsStop(Run(START, ops), op)
    ensures Run(START, ops + [op]).broadcasts == Run(START, ops).broadcasts + [false] <==> PhaseAfter(ops) == Attached
  {
    RunIsPhase(ops);
    StopEndsExactly(ops, op);
    RunLast(START, ops, op);
  }

  /// Every step

  // The step handles an event that reads the functions: accessory-up, or up while configuring.
  predicate Reads(s: AccState, event: Option<Event>)
  {
    event == Some(ACT_ACCESSORYUP) || (event == Some(ACT_UPDEVICE) && s.accStatus == ACC_CONFIGURING)
  }

  // The functions can be read and have the accessory bit, or can be read and lack it.
  predicate Found(hdi: Hdi) { hdi.current.Some? && Bit(hdi.current.value, 11) }

  predicate Lacks(hdi: Hdi) { hdi.current.Some? && !Bit(hdi.current.value, 11) }

  predicate Starts(s: AccState, event: Option<Event>, hdi: Hdi)
  {
    Reads(s, event) && Found(hdi) && s.accStatus != ACC_START
  }

  predicate Configures(event: Option<Event>, hdi: Hdi)
  {
    event == Some(ACT_ACCESSORYUP) && Lacks(hdi) && hdi.setOk
  }

  predicate Stops(s: AccState, event: Option<Event>)
  {
    && (event == Some(ACT_DOWNDEVICE) || event == Some(ACT_ACCESSORYDOWN))
    && s.accStatus == ACC_START && Bit(s.curDeviceFunc, 11)
  }

  lemma HandledExactly(s: AccState, event: Event, hdi: Hdi)
    ensures var after, e := Processed(s, Target(s.accStatus, event), hdi), Some(event);
            && after.broadcasts == s.broadcasts +
                 (if Starts(s, e, hdi) || (event == ACT_ACCESSORYSEND && hdi.printable) then [true]
                  else if Stops(s, e) then [false] else [])
            && after.accStatus ==
                 (if Starts(s, e, hdi) then ACC_START else if Configures(e, hdi) then ACC_CONFIGURING
                  else if Stops(s, e) then ACC_STOP else if event == ACT_ACCESSORYSEND then ACC_SEND else s.accStatus)
            && after.fallbackPending == (Configures(e, hdi) || (s.fallbackPending && !Reads(s, e)))
            && after.curDeviceFunc ==
                 (if Reads(s, e) && hdi.current.Some? then hdi.current.value
                  else if Stops(s, e) then s.lastDeviceFunc else s.curDeviceFunc)
  {
    assert s.broadcasts + [] == s.broadcasts;
  }

  // In every run, exactly what each step announces, and what it makes of the status, the fallback and the functions read
  // last. ATTACHED is sent by an accessory that starts and was not started, and by data that is sent and can be printed;
  // DETACHED by the stop of a started one; nothing else is announced.
  lemma {:induction false} StepExactly(ops: seq<Op>, op: Op)
    ensures var s, after, e := Run(START, ops), Run(START, ops + [op]), EventIn(Delayed(ops), op);
            var fires := op.FallbackFires? && s.fallbackPending;
            && after.broadcasts == s.broadcasts +
                 (if Starts(s, e, op.hdi) || (e == Some(ACT_ACCESSORYSEND) && op.hdi.printable) then [true]
                  else if Stops(s, e) then [false] else [])
            && after.accStatus ==
                 (if Starts(s, e, op.hdi) then ACC_START else if Configures(e, op.hdi) then ACC_CONFIGURING
                  else if Stops(s, e) || fires then ACC_STOP
                  else if e == Some(ACT_ACCESSORYSEND) then ACC_SEND else s.accStatus)
            && after.fallbackPending == (Configures(e, op.hdi) || (s.fallbackPending && !Reads(s, e) && !fires))
            && after.curDeviceFunc ==
                 (if Reads(s, e) && op.hdi.current.Some? then op.hdi.current.value
                  else if Stops(s, e) then s.lastDeviceFunc else s.curDeviceFunc)
  {
    var s, e := Run(START, ops), EventIn(Delayed(ops), op);
    RunIsDelayed(ops);
    RunIsOk(ops);
    RunLast(START, ops, op);
    assert s.broadcasts + [] == s.broadcasts;
    if e.Some? {
      HandledExactly(s.(eventStatus := e.value, antiShakePending := false), e.value, op.hdi);
    }
  }

  /// Losing the fallback

  // An up event, or an accessory-up event, that finds no accessory and does not start the timer again: the functions
  // cannot be read, or lack the accessory and the driver is not asked for it or refuses it.
  predicate CancelsFallback(delayed: Option<Event>, op: Op)
  {
    var event := EventIn(delayed, op);
    && (event == Some(ACT_UPDEVICE) || event == Some(ACT_ACCESSORYUP))
    && (|| op.hdi.current == None
        || (!HasAccessory(op.hdi.current.value) && (event == Some(ACT_UPDEVICE) || !op.hdi.setOk)))
  }

  // In every run, exactly these steps leave an accessory that waits for its fallback configuring without one.
  lemma {:induction false} StrandsExactly(ops: seq<Op>, op: Op)
    requires PhaseOf(Run(START, ops)) == Waiting
    ensures PhaseOf(Run(START, ops + [op])) == Stranded <==> CancelsFallback(Delayed(ops), op)
  {
    RunIsDelayed(ops);
    RunLast(START, ops, op);
  }

  // Any steps that handle no up, accessory-up or send event: unpluggings of all kinds and timers among them.
  predicate AllIdle(s: AccState, ops: seq<Op>)
  {
    ops != [] ==>
      var before, last := ops[..|ops| - 1], ops[|ops| - 1];
      && AllIdle(s, before)
      && EventIn(Held(Run(s, before)), last) !in {Some(ACT_UPDEVICE), Some(ACT_ACCESSORYUP), Some(ACT_ACCESSORYSEND)}
  }

  // From then on such steps change nothing and ask for nothing.
  lemma {:induction false} StrandedStays(s: AccState, ops: seq<Op>)
    requires PhaseOf(s) == Stranded && AllIdle(s, ops)
    ensures var after := Run(s, ops);
            after == s.(eventStatus := after.eventStatus, antiShakePending := after.antiShakePending)
  {
    if ops != [] {
      StrandedStays(s, ops[..|ops| - 1]);
    }
  }

  // Accessory up, accepted, then plugged in while the driver still reports the old functions: in whatever such steps
  // follow, the old functions are not asked for.
  lemma StrandedRun(ops: seq<Op>)
    requires var same := Hdi(true, Some(4), true, true);
             AllIdle(Run(START, [Notify(ACT_ACCESSORYUP, same), Notify(ACT_UPDEVICE, same), AntiShakeFires(same)]), ops)
    ensures var same := Hdi(true, Some(4), true, true);
            var stranded := Run(START, [Notify(ACT_ACCESSORYUP, same), Notify(ACT_UPDEVICE, same), AntiShakeFires(same)]);
            && PhaseOf(Run(stranded, ops)) == Stranded
            && Run(stranded, ops).requests == [FUN_ACCESSORY] && Run(stranded, ops).lastDeviceFunc == 4
  {
    var same := Hdi(true, Some(4), true, true);
    AccessoryBits();
    RunThree(Notify(ACT_ACCESSORYUP, same), Notify(ACT_UPDEVICE, same), AntiShakeFires(same));
    StrandedStays(Run(START, [Notify(ACT_ACCESSORYUP, same), Notify(ACT_UPDEVICE, same), AntiShakeFires(same)]), ops);
  }
}
