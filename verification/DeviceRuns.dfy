/** What holds in every run of device mode. */
module DeviceRuns {
  import opened BitMask
  import opened DeviceManager
  import opened FunctionNameLaws
  import opened FunctionNames
  import opened UsbModel

  // true, false, true, ...
  predicate Alternates(calls: seq<bool>)
  {
    forall i :: 0 <= i < |calls| ==> calls[i] == (i % 2 == 0)
  }

  // What a strictly alternating history says last: nothing yet, or an even number of entries, is false.
  predicate Latest(calls: seq<bool>)
  {
    |calls| % 2 == 1
  }

  lemma AlternatesOnceMore(calls: seq<bool>)
    requires Alternates(calls)
    ensures Alternates(calls + [!Latest(calls)]) && Latest(calls + [!Latest(calls)]) == !Latest(calls)
  {
  }

  /// Tasks

  // A pending connect waits while disconnected and a pending disconnect while connected; executed tasks alternate,
  // starting with a connect, and the last one tells whether the device is connected.
  predicate TasksOk(s: DevState)
  {
    && (s.pending.Some? ==> s.pending.value.Connect? == !s.connected)
    && Alternates(s.executed) && Latest(s.executed) == s.connected
  }

  // The notification is shown exactly while the device is connected with HDC among its functions, and its send and
  // cancel calls alternate, starting with a send.
  predicate HdcOk(s: DevState)
  {
    && s.hasHdcNotifier == (s.connected && Bit(s.currentFunctions, 2))
    && Alternates(s.hdcCalls) && Latest(s.hdcCalls) == s.hasHdcNotifier
  }

  lemma NotifiedIsHdcOk(s: DevState)
    requires Alternates(s.hdcCalls) && Latest(s.hdcCalls) == s.hasHdcNotifier
    ensures HdcOk(Notified(s))
  {
    AlternatesOnceMore(s.hdcCalls);
  }

  lemma StepKeepsHdcOk(s: DevState, op: Op)
    requires HdcOk(s)
    ensures HdcOk(Step(s, op))
  {
    match op
    case TaskFires(read) =>
      if s.pending.Some? {
        var connect := s.pending.value.Connect?;
        var func := if !connect then AfterUnplug(s.currentFunctions) else if read.Some? then read.value else s.currentFunctions;
        var requests := if !connect && ResetsOnUnplug(s.currentFunctions) then s.requests + [func] else s.requests;
        NotifiedIsHdcOk(Broadcasted(s.(connected := connect, currentFunctions := func, pending := None,
                                       executed := s.executed + [connect], requests := requests)));
      }
    case Update(func) =>
      NotifiedIsHdcOk(s.(currentFunctions := func));
      NotifiedIsHdcOk(Broadcasted(s.(currentFunctions := func)));
    case UserChange(setOk) =>
      var func := StorageIfNone(WithoutMedia(s.currentFunctions));
      var asked := s.(requests := s.requests + [func]);
      NotifiedIsHdcOk(s);
      NotifiedIsHdcOk(asked);
      NotifiedIsHdcOk(Broadcasted(asked.(currentFunctions := func)));
    case Notify(event) =>
    case SetPhy(phyConnect) =>
  }

  lemma AfterConnect(s: DevState, read: Option<uint32>)
    ensures var after := Connected(s, read);
            && after.pending == None && after.connected && after.executed == s.executed + [true]
            && after.gadgetConnected == s.gadgetConnected && after.requests == s.requests
  {
  }

  lemma AfterDisconnect(s: DevState)
    ensures var after, func := Disconnected(s), AfterUnplug(s.currentFunctions);
            && after.pending == None && !after.connected && after.executed == s.executed + [false]
            && after.gadgetConnected == s.gadgetConnected
            && after.requests == (if ResetsOnUnplug(s.currentFunctions) then s.requests + [func] else s.requests)
  {
  }

  lemma AfterUserChange(s: DevState, setOk: bool)
    ensures var after, func := UserChanged(s, setOk), StorageIfNone(WithoutMedia(s.currentFunctions));
            && after.pending == s.pending && after.connected == s.connected && after.executed == s.executed
            && after.gadgetConnected == s.gadgetConnected
            && after.requests == (if HasMtp(s.currentFunctions) || HasPtp(s.currentFunctions) then s.requests + [func]
                                  else s.requests)
  {
  }

  // Only a firing task changes the connection and the history of tasks, and only it and device events the pending task.
  lemma TasksAfter(s: DevState, op: Op)
    ensures var after := Step(s, op);
            if op.TaskFires? && s.pending.Some?
            then && after.pending == None && after.connected == s.pending.value.Connect?
                 && after.executed == s.executed + [s.pending.value.Connect?]
            else && after.connected == s.connected && after.executed == s.executed
                 && (if op.Notify? then after.pending.Some? ==> after.pending.value.Connect? == !s.connected
                     else after.pending == s.pending)
    ensures !op.Notify? ==> Step(s, op).gadgetConnected == s.gadgetConnected
  {
    match op
    case Notify(event) =>
    case TaskFires(read) =>
      AfterConnect(s, read);
      AfterDisconnect(s);
    case Update(func) =>
    case UserChange(setOk) => AfterUserChange(s, setOk);
    case SetPhy(phyConnect) =>
  }

  lemma StepKeepsTasksOk(s: DevState, op: Op)
    requires TasksOk(s)
    ensures TasksOk(Step(s, op))
  {
    TasksAfter(s, op);
    AlternatesOnceMore(s.executed);
    assert s.executed + [!Latest(s.executed)] == s.executed + [!s.connected];
  }

  // In every reachable state, whatever the events, timers, function changes and user switches.
  lemma {:induction false} RunIsOk(ops: seq<Op>)
    ensures TasksOk(Run(ops)) && HdcOk(Run(ops))
  {
    if ops != [] {
      RunIsOk(ops[..|ops| - 1]);
      StepKeepsTasksOk(Run(ops[..|ops| - 1]), ops[|ops| - 1]);
      StepKeepsHdcOk(Run(ops[..|ops| - 1]), ops[|ops| - 1]);
    }
  }

  // A task that fires changes the connection, always.
  lemma {:induction false} FiringFlipsConnection(ops: seq<Op>, read: Option<uint32>)
    requires Run(ops).pending.Some?
    ensures Step(Run(ops), TaskFires(read)).connected == !Run(ops).connected
    ensures Step(Run(ops), TaskFires(read)).executed == Run(ops).executed + [!Run(ops).connected]
  {
    RunIsOk(ops);
  }

  /// Debounce

  // The connection follows the gadget, except while a task is pending.
  predicate Settles(s: DevState)
  {
    s.connected == s.gadgetConnected <==> s.pending == None
  }

  // The last device event of the run was neither up nor down, and came while the gadget was connected.
  predicate EndsForeign(ops: seq<Op>)
  {
    ops != [] &&
    var before, last := ops[..|ops| - 1], ops[|ops| - 1];
    if last.Notify? then last.event == OtherEvent && Run(before).gadgetConnected else EndsForeign(before)
  }

  // In every run the connection follows the gadget exactly unless it ends so; timers, function changes and user
  // switches make no difference.
  lemma {:induction false} SettlesExactly(ops: seq<Op>)
    ensures Settles(Run(ops)) <==> !EndsForeign(ops)
  {
    if ops != [] {
      SettlesExactly(ops[..|ops| - 1]);
      RunIsOk(ops[..|ops| - 1]);
      StepSettles(Run(ops[..|ops| - 1]), ops[|ops| - 1]);
    }
  }

  lemma StepSettles(s: DevState, op: Op)
    requires TasksOk(s)
    ensures Settles(Step(s, op)) <==>
            if op.Notify? then op.event != OtherEvent || !s.gadgetConnected else Settles(s)
  {
    TasksAfter(s, op);
  }

  // Once the timer has run out, the connection equals the gadget's state exactly unless the run ends so.
  lemma {:induction false} FiringSettlesExactly(ops: seq<Op>, read: Option<uint32>)
    ensures var fired := Step(Run(ops), TaskFires(read));
            && fired.pending == None && fired.gadgetConnected == Run(ops).gadgetConnected
            && (fired.connected == fired.gadgetConnected <==> !EndsForeign(ops))
  {
    SettlesExactly(ops);
    RunIsOk(ops);
  }

  // After any run whatever, once the timer has run out the connection is what the last up or down event said.
  lemma {:induction false} BouncesActAsLast(ops: seq<Op>, up: bool, read: Option<uint32>)
    ensures var last := Notify(if up then ACT_UPDEVICE else ACT_DOWNDEVICE);
            Step(Run(ops + [last]), TaskFires(read)).connected == up
  {
    var last := Notify(if up then ACT_UPDEVICE else ACT_DOWNDEVICE);
    RunLast(ops, last);
    assert (ops + [last])[|ops|] == last;
    FiringSettlesExactly(ops + [last], read);
  }

  lemma RunLast(ops: seq<Op>, op: Op)
    ensures Run(ops + [op]) == Step(Run(ops), op)
  {
    assert (ops + [op])[..|ops|] == ops;
  }

  lemma RunThree(a: Op, b: Op, c: Op)
    ensures Run([a, b]) == Step(Step(START, a), b) && Run([a, b, c]) == Step(Run([a, b]), c)
  {
    RunLast([], a);
    RunLast([] + [a], b);
    RunLast([a, b], c);
    assert [a, b] == [] + [a] + [b] && [a, b, c] == [a, b] + [c];
  }

  // Up, connected, then an accessory's event: the gadget stays up, and once the timer runs out the device is taken to
  // be unplugged.
  lemma ForeignEventRun(read: Option<uint32>)
    ensures var end := Run([Notify(ACT_UPDEVICE), TaskFires(read), Notify(OtherEvent)]);
            && !Settles(end)
            && Step(end, TaskFires(read)).gadgetConnected && !Step(end, TaskFires(read)).connected
  {
    RunThree(Notify(ACT_UPDEVICE), TaskFires(read), Notify(OtherEvent));
  }

  /// The sticky state broadcast

  // The step broadcasts the state.
  predicate Publishes(s: DevState, op: Op)
  {
    match op
    case Notify(_) => false
    case TaskFires(_) => s.pending.Some?
    case Update(func) => func != s.currentFunctions && !IsSilent(s)
    case UserChange(setOk) =>
      (HasMtp(s.currentFunctions) || HasPtp(s.currentFunctions)) && setOk &&
      StorageIfNone(WithoutMedia(s.currentFunctions)) != s.currentFunctions
    case SetPhy(_) => false
  }

  // The gadget is up but not yet connected.
  predicate IsSilent(s: DevState)
  {
    !s.connected && s.gadgetConnected
  }

  // The functions at the last broadcast of the run.
  function Shown(ops: seq<Op>): Option<uint32>
  {
    if ops == [] then None
    else if Publishes(Run(ops[..|ops| - 1]), ops[|ops| - 1]) then Some(Run(ops).currentFunctions)
    else Shown(ops[..|ops| - 1])
  }

  lemma ShownLast(ops: seq<Op>, op: Op)
    ensures Shown(ops + [op]) ==
            if Publishes(Run(ops), op) then Some(Run(ops + [op]).currentFunctions) else Shown(ops)
  {
    var more := ops + [op];
    assert more[..|more| - 1] == ops && more[|more| - 1] == op;
  }

  lemma StepShows(s: DevState, op: Op)
    requires TasksOk(s)
    ensures var after := Step(s, op);
            if Publishes(s, op) then after.sticky == Some((after.connected, PublishedNames(after.currentFunctions)))
            else && after.sticky == s.sticky && after.connected == s.connected
                 && (!op.Update? ==> after.currentFunctions == s.currentFunctions)
  {
    match op
    case Notify(event) =>
    case TaskFires(read) =>
    case Update(func) =>
    case UserChange(setOk) =>
    case SetPhy(phyConnect) =>
  }

  // In every run the sticky broadcast tells the connection, and names the functions of the last broadcast bit by bit.
  lemma {:induction false} RunShows(ops: seq<Op>)
    ensures Run(ops).sticky == match Shown(ops)
                               case None => None
                               case Some(func) => Some((Run(ops).connected, PublishedNames(func)))
  {
    if ops != [] {
      RunShows(ops[..|ops| - 1]);
      RunIsOk(ops[..|ops| - 1]);
      StepShows(Run(ops[..|ops| - 1]), ops[|ops| - 1]);
    }
  }

  ghost predicate TellsBit(names: set<string>, j: nat)
  {
    exists name :: name in names && NameTells(name, j)
  }

  // The names tell exactly these functions.
  ghost predicate Tells(names: set<string>, func: uint32)
  {
    forall j: nat :: Bit(func, j) <==> TellsBit(names, j)
  }

  lemma NameOfBit(names: seq<string>, func: uint32, name: string) returns (k: nat)
    requires name in NamesBelow(names, func, |names|)
    ensures k < |names| && Bit(func, k) && name == names[k]
  {
    k :| k < |names| && Bit(func, k) && name == names[k];
  }

  lemma BitIsNamed(names: seq<string>, func: uint32, j: nat)
    requires |names| == 32 && Bit(func, j)
    ensures j < 32 && names[j] in NamesBelow(names, func, 32)
  {
    if j >= 32 {
      NoHighBit(func, j);
    }
  }

  // Exactly the names of the set bits are published; bit k is named by printing 2 to the k.
  lemma {:induction false} PublishedExactly(func: uint32, name: string)
    ensures name in PublishedNames(func) <==> exists k :: 0 <= k < 32 && Bit(func, k) && name == BitNames()[k]
    ensures forall k: nat :: k < 32 ==> Flag(k) == Pow2(k) && BitNames()[k] == ToString(Flag(k))
  {
    NamedExactly(BitNames(), func, name);
  }

  lemma NamedExactly(names: seq<string>, func: uint32, name: string)
    requires |names| == 32
    ensures name in NamesBelow(names, func, 32) <==> exists k :: 0 <= k < 32 && Bit(func, k) && name == names[k]
  {
  }

  // A published name tells a bit exactly when the bit is set and settable: others are printed as "none" or as nothing.
  lemma {:induction false} PublishedBit(func: uint32, j: nat)
    ensures TellsBit(PublishedNames(func), j) <==> Bit(func, j) && Bit(FUNCTION_SETTABLE, j)
  {
    forall name | name in PublishedNames(func) && NameTells(name, j) ensures Bit(func, j) && Bit(FUNCTION_SETTABLE, j) {
      var k := NameOfBit(BitNames(), func, name);
      BitNameTells(k, j);
    }
    if Bit(func, j) && Bit(FUNCTION_SETTABLE, j) {
      BitIsNamed(BitNames(), func, j);
      BitNameTells(j, j);
    }
  }

  // So what is published for one mask tells another exactly when the other is its settable part.
  lemma {:induction false} PublishedTellsExactly(shown: uint32, func: uint32)
    ensures Tells(PublishedNames(shown), func) <==> func == And(shown, FUNCTION_SETTABLE)
  {
    var names, settable := PublishedNames(shown), And(shown, FUNCTION_SETTABLE);
    forall j: nat ensures TellsBit(names, j) <==> Bit(settable, j) {
      PublishedBit(shown, j);
      BitOfAnd(shown, FUNCTION_SETTABLE, j);
    }
    if Tells(names, func) {
      SameBits(func, settable);
    }
  }

  // In every run with a broadcast, the broadcast tells the current functions exactly when they are the settable part of
  // those it was sent for.
  lemma {:induction false} StickyTellsExactly(ops: seq<Op>)
    requires Shown(ops).Some?
    ensures Run(ops).sticky.Some? &&
            (Tells(Run(ops).sticky.value.1, Run(ops).currentFunctions) <==>
             Run(ops).currentFunctions == And(Shown(ops).value, FUNCTION_SETTABLE))
  {
    RunShows(ops);
    PublishedTellsExactly(Shown(ops).value, Run(ops).currentFunctions);
  }

  // From a broadcast that is up to date: an update while the gadget is up but not connected goes untold exactly when
  // it is not to the settable part of the old functions, and after any other step the broadcast tells the functions
  // exactly when all of them are settable.
  lemma {:induction false} StepTellsFunctionsExactly(ops: seq<Op>, op: Op)
    requires Shown(ops) == Some(Run(ops).currentFunctions)
    ensures var s, after := Run(ops), Run(ops + [op]);
            after.sticky.Some? &&
            (Tells(after.sticky.value.1, after.currentFunctions) <==>
             if op.Update? && op.func != s.currentFunctions && IsSilent(s)
             then op.func == And(s.currentFunctions, FUNCTION_SETTABLE)
             else IsSettableFunctions(after.currentFunctions))
  {
    RunLast(ops, op);
    RunIsOk(ops);
    StepShows(Run(ops), op);
    ShownLast(ops, op);
    StickyTellsExactly(ops + [op]);
    SettableExactly(Run(ops + [op]).currentFunctions);
  }

  lemma ShownTwo(a: Op, b: Op)
    ensures Shown([a]) == if Publishes(START, a) then Some(Run([a]).currentFunctions) else None
    ensures Shown([a, b]) == if Publishes(Run([a]), b) then Some(Run([a, b]).currentFunctions) else Shown([a])
  {
    ShownLast([], a);
    ShownLast([a], b);
    assert [] + [a] == [a] && [a] + [b] == [a, b];
  }

  // An update while the gadget is up but not connected, after an earlier broadcast: it still tells the old function.
  lemma SilentUpdateRun()
    ensures var end := Run([Update(1), Notify(ACT_UPDEVICE), Update(2)]);
            end.sticky.Some? && !Tells(end.sticky.value.1, end.currentFunctions)
  {
    SilentlyUpdated(Update(1), Notify(ACT_UPDEVICE), Update(2));
    StickyTellsExactly([Update(1), Notify(ACT_UPDEVICE), Update(2)]);
    AndBound(1, FUNCTION_SETTABLE);
  }

  lemma SilentlyUpdated(a: Op, b: Op, c: Op)
    requires a == Update(1) && b == Notify(ACT_UPDEVICE) && c == Update(2)
    ensures Run([a, b, c]).currentFunctions == 2 && Shown([a, b, c]) == Some(1)
  {
    RunLast([], a);
    RunThree(a, b, c);
    ShownTwo(a, b);
    ShownLast([a, b], c);
    assert [] + [a] == [a] && [a, b] + [c] == [a, b, c];
  }

  // Connecting with a function that has no settable name: the broadcast says "none".
  lemma UnnamedFunctionRun()
    ensures var end := Run([Notify(ACT_UPDEVICE), TaskFires(Some(0x1000))]);
            && end.currentFunctions == 0x1000 && end.sticky.Some?
            && !Tells(end.sticky.value.1, 0x1000)
  {
    UnnamedShown(Notify(ACT_UPDEVICE), TaskFires(Some(0x1000)));
    StickyTellsExactly([Notify(ACT_UPDEVICE), TaskFires(Some(0x1000))]);
    DevmodeIsUnsettable();
  }

  lemma UnnamedShown(a: Op, b: Op)
    requires a == Notify(ACT_UPDEVICE) && b == TaskFires(Some(0x1000))
    ensures Run([a, b]).currentFunctions == 0x1000 && Shown([a, b]) == Some(0x1000)
  {
    RunLast([], a);
    RunThree(a, b, b);
    ShownTwo(a, b);
    assert [] + [a] == [a];
  }

  lemma DevmodeIsUnsettable()
    ensures And(0x1000, FUNCTION_SETTABLE) != 0x1000
  {
    AndBound(0x1000, FUNCTION_SETTABLE);
    SettableIsSmall();
  }

  /// What is asked of the driver

  predicate AsksForNoMedia(s: DevState)
  {
    forall func :: func in s.requests ==> !HasMtp(func) && !HasPtp(func)
  }

  // At most one request is made, and for functions without MTP and PTP.
  lemma StepAsksForNoMedia(s: DevState, op: Op)
    ensures var after := Step(s, op);
            after.requests == s.requests ||
            exists func: uint32 :: after.requests == s.requests + [func] && !HasMtp(func) && !HasPtp(func)
  {
    var func := s.currentFunctions;
    StorageBits();
    if HasMtp(func) || HasPtp(func) {
      MediaNeverSurvives(func, 0);
    }
    match op
    case Notify(event) =>
    case TaskFires(read) =>
      AfterConnect(s, read);
      AfterDisconnect(s);
    case Update(f) =>
    case UserChange(setOk) => AfterUserChange(s, setOk);
    case SetPhy(phyConnect) =>
  }

  // In every run, whatever the manager asks for includes neither MTP nor PTP.
  lemma {:induction false} NeverAsksForMedia(ops: seq<Op>)
    ensures AsksForNoMedia(Run(ops))
  {
    if ops != [] {
      NeverAsksForMedia(ops[..|ops| - 1]);
      StepAsksForNoMedia(Run(ops[..|ops| - 1]), ops[|ops| - 1]);
    }
  }

  /// Functions after a disconnect

  // When the functions include MTP or PTP, unplugging clears exactly these two bits, or leaves storage alone when there
  // was nothing else; so neither survives, HDC does, and there is always some function.
  lemma MediaNeverSurvives(func: uint32, j: nat)
    requires HasMtp(func) || HasPtp(func)
    ensures var after := AfterUnplug(func);
            && (if WithoutMedia(func) == 0 then after == FUNCTION_STORAGE
                else (Bit(after, j) <==> Bit(func, j) && j != MTP_BIT && j != PTP_BIT))
            && !HasMtp(after) && !HasPtp(after) && HasHdc(after) == HasHdc(func)
  {
    OtherBitsStay(func, MTP_BIT);
    OtherBitsStay(func, PTP_BIT);
    OtherBitsStay(func, HDC_BIT);
    OtherBitsStay(func, j);
    ZeroHasNoBit(HDC_BIT);
    StorageBits();
  }

  lemma OtherBitsStay(func: uint32, j: nat)
    ensures Bit(WithoutMedia(func), j) <==> Bit(func, j) && j != MTP_BIT && j != PTP_BIT
  {
    BitOfClear(func, MTP_BIT, j);
    BitOfClear(Clear(func, MTP_BIT), PTP_BIT, j);
  }

  lemma StorageBits()
    ensures !HasMtp(FUNCTION_STORAGE) && !HasPtp(FUNCTION_STORAGE) && !HasHdc(FUNCTION_STORAGE)
  {
    assert !Bit(128, 0) && !Bit(64, 0) && !Bit(32, 0);
    assert !Bit(256, 1) && !Bit(128, 1) && !Bit(64, 1);
    assert !Bit(256, 2) && !Bit(128, 2);
    assert !Bit(256, 3);
  }

  // Storage takes the place of MTP and PTP exactly when there was no other function.
  lemma StorageOnlyInstead(func: uint32)
    requires HasMtp(func) || HasPtp(func)
    ensures WithoutMedia(func) == 0 <==> forall j: nat :: Bit(func, j) ==> j == MTP_BIT || j == PTP_BIT
  {
    if WithoutMedia(func) == 0 {
      forall j: nat | Bit(func, j) ensures j == MTP_BIT || j == PTP_BIT {
        OtherBitsStay(func, j);
        ZeroHasNoBit(j);
      }
    } else {
      var j := SomeBit(WithoutMedia(func));
      OtherBitsStay(func, j);
    }
  }
}
