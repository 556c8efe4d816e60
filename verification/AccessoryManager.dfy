/** Accessory mode: the events that start and stop it, the anti-shake timer that delays plugging events, and the
    fallback timer that gives the old functions back unless an up or accessory-up event cancels it first. */
module AccessoryManager {
  import opened BitMask
  import opened UsbModel

  datatype AccStatus = ACC_NONE | ACC_CONFIGURING | ACC_START | ACC_STOP | ACC_SEND

  datatype Event = ACT_UPDEVICE | ACT_DOWNDEVICE | ACT_ACCESSORYUP | ACT_ACCESSORYDOWN | ACT_ACCESSORYSEND | OtherEvent

  const FUN_ACCESSORY: uint32 := 0x800
  const ACCESSORY_BIT: nat := 11
  const FUNCTION_NONE: uint32 := 0

  predicate HasAccessory(func: uint32)
  {
    Bit(func, ACCESSORY_BIT)
  }

  predicate IsPlugging(event: Event)
  {
    event == ACT_UPDEVICE || event == ACT_DOWNDEVICE
  }

  // What the driver answers while one event or timer is handled; accessory data that cannot be printed as JSON stops
  // the SEND broadcast.
  datatype Hdi = Hdi(present: bool, current: Option<uint32>, setOk: bool, printable: bool)

  // broadcasts: the ACCESSORY_ATTACHED (true) and ACCESSORY_DETACHED (false) events; requests: the functions asked for.
  datatype AccState = AccState(
    accStatus: AccStatus, eventStatus: Event, curDeviceFunc: uint32, lastDeviceFunc: uint32,
    fallbackPending: bool, antiShakePending: bool, broadcasts: seq<bool>, requests: seq<uint32>)

  const START := AccState(ACC_NONE, OtherEvent, FUNCTION_NONE, FUNCTION_NONE, false, false, [], [])

  /// The handlers as functions of the state

  // Another status asked for, from the kind of event.
  function Target(accStatus: AccStatus, event: Event): AccStatus
  {
    match event
    case ACT_UPDEVICE => if accStatus == ACC_CONFIGURING then ACC_START else ACC_NONE
    case ACT_ACCESSORYUP => ACC_CONFIGURING
    case ACT_DOWNDEVICE => ACC_STOP
    case ACT_ACCESSORYDOWN => ACC_STOP
    case ACT_ACCESSORYSEND => ACC_SEND
    case OtherEvent => ACC_NONE
  }

  function Started(s: AccState, curFunc: uint32, target: AccStatus, hdi: Hdi): AccState
  {
    if HasAccessory(curFunc) && s.accStatus != ACC_START then
      s.(accStatus := ACC_START, broadcasts := s.broadcasts + [true])
    else if !HasAccessory(curFunc) && target == ACC_CONFIGURING then
      var asked := s.(requests := s.requests + [FUN_ACCESSORY]);
      if !hdi.setOk then asked
      else asked.(lastDeviceFunc := curFunc, fallbackPending := true, accStatus := ACC_CONFIGURING)
    else s
  }

  function Stopped(s: AccState): AccState
  {
    if HasAccessory(s.curDeviceFunc) && s.accStatus == ACC_START then
      s.(accStatus := ACC_STOP, requests := s.requests + [s.lastDeviceFunc], curDeviceFunc := s.lastDeviceFunc,
         broadcasts := s.broadcasts + [false])
    else s
  }

  function Processed(s: AccState, target: AccStatus, hdi: Hdi): AccState
  {
    if target == ACC_CONFIGURING || target == ACC_START then
      var quiet := s.(fallbackPending := false);
      if hdi.current == None then quiet
      else Started(quiet.(curDeviceFunc := hdi.current.value), hdi.current.value, target, hdi)
    else if target == ACC_STOP && s.accStatus != ACC_CONFIGURING then Stopped(s)
    else if target == ACC_SEND then
      s.(accStatus := ACC_SEND, broadcasts := if hdi.printable then s.broadcasts + [true] else s.broadcasts)
    else s
  }

  function Handled(s: AccState, event: Event, delayProcess: bool, hdi: Hdi): AccState
  {
    if !hdi.present then s
    else
      var noted := s.(eventStatus := event, antiShakePending := if delayProcess then false else s.antiShakePending);
      if IsPlugging(event) && delayProcess then noted.(antiShakePending := true)
      else Processed(noted, Target(s.accStatus, event), hdi)
  }

  // One step: an event from the driver, or a pending timer that runs out.
  datatype Op = Notify(event: Event, hdi: Hdi) | AntiShakeFires(hdi: Hdi) | FallbackFires(hdi: Hdi)

  function Step(s: AccState, op: Op): AccState
  {
    match op
    case Notify(event, hdi) => Handled(s, event, true, hdi)
    case AntiShakeFires(hdi) =>
      if s.antiShakePending then Handled(s.(antiShakePending := false), s.eventStatus, false, hdi) else s
    case FallbackFires(hdi) =>
      if s.fallbackPending
      then s.(fallbackPending := false, accStatus := ACC_STOP, requests := s.requests + [s.lastDeviceFunc])
      else s
  }

  function Run(s: AccState, ops: seq<Op>): AccState
  {
    if ops == [] then s else Step(Run(s, ops[..|ops| - 1]), ops[|ops| - 1])
  }

  /// The class

  class UsbAccessoryManager {
    var accStatus: AccStatus
    var eventStatus: Event
    var curDeviceFunc: uint32
    var lastDeviceFunc: uint32
    var fallbackPending: bool
    var antiShakePending: bool
    var broadcasts: seq<bool>
    var requests: seq<uint32>

    ghost function State(): AccState
      reads this
    {
      AccState(accStatus, eventStatus, curDeviceFunc, lastDeviceFunc, fallbackPending, antiShakePending, broadcasts,
               requests)
    }

    constructor ()
      ensures State() == START
    {
      accStatus, eventStatus := ACC_NONE, OtherEvent;
      curDeviceFunc, lastDeviceFunc := FUNCTION_NONE, FUNCTION_NONE;
      fallbackPending, antiShakePending := false, false;
      broadcasts, requests := [], [];
    }

    method SetCurrentFunctions(func: uint32)
      modifies `requests
      ensures requests == old(requests) + [func]
    {
      requests := requests + [func];
    }

    method PublishCommonEvent(attached: bool)
      modifies `broadcasts
      ensures broadcasts == old(broadcasts) + [attached]
    {
      broadcasts := broadcasts + [attached];
    }

    method ProcessAccessoryStart(curFunc: uint32, curAccStatus: AccStatus, hdi: Hdi)
      modifies this
      ensures State() == Started(old(State()), curFunc, curAccStatus, hdi)
    {
      if HasAccessory(curFunc) && accStatus != ACC_START {
        accStatus := ACC_START;
        PublishCommonEvent(true);
      } else if !HasAccessory(curFunc) && curAccStatus == ACC_CONFIGURING {
        SetCurrentFunctions(FUN_ACCESSORY);
        if !hdi.setOk {
          return;
        }
        lastDeviceFunc := curFunc;
        fallbackPending := true;
        accStatus := ACC_CONFIGURING;
      }
    }

    method ProcessAccessoryStop()
      modifies this
      ensures State() == Stopped(old(State()))
    {
      if HasAccessory(curDeviceFunc) && accStatus == ACC_START {
        accStatus := ACC_STOP;
        SetCurrentFunctions(lastDeviceFunc);
        curDeviceFunc := lastDeviceFunc;
        PublishCommonEvent(false);
      }
    }

    method ProcessAccessorySend(hdi: Hdi)
      modifies this
      ensures State() == Processed(old(State()), ACC_SEND, hdi)
    {
      accStatus := ACC_SEND;
      if !hdi.printable {
        return;
      }
      PublishCommonEvent(true);
    }

    method ProcessHandle(curAccStatus: AccStatus, hdi: Hdi)
      modifies this
      ensures State() == Processed(old(State()), curAccStatus, hdi)
    {
      if curAccStatus == ACC_CONFIGURING || curAccStatus == ACC_START {
        fallbackPending := false;
        if hdi.current == None {
          return;
        }
        curDeviceFunc := hdi.current.value;
        ProcessAccessoryStart(hdi.current.value, curAccStatus, hdi);
      } else if curAccStatus == ACC_STOP && accStatus != ACC_CONFIGURING {
        ProcessAccessoryStop();
      } else if curAccStatus == ACC_SEND {
        ProcessAccessorySend(hdi);
      }
    }

    method HandleEvent(status: Event, delayProcess: bool, hdi: Hdi)
      modifies this
      ensures State() == Handled(old(State()), status, delayProcess, hdi)
    {
      if !hdi.present {
        return;
      }
      eventStatus := status;
      if delayProcess {
        antiShakePending := false;
      }
      if (status == ACT_UPDEVICE || status == ACT_DOWNDEVICE) && delayProcess {
        antiShakePending := true;
        return;
      }
      var curAccStatus := ACC_NONE;
      match status {
        case ACT_UPDEVICE =>
          if accStatus == ACC_CONFIGURING {
            curAccStatus := ACC_START;
          }
        case ACT_ACCESSORYUP => curAccStatus := ACC_CONFIGURING;
        case ACT_DOWNDEVICE => curAccStatus := ACC_STOP;
        case ACT_ACCESSORYDOWN => curAccStatus := ACC_STOP;
        case ACT_ACCESSORYSEND => curAccStatus := ACC_SEND;
        case OtherEvent =>
      }
      ProcessHandle(curAccStatus, hdi);
    }

    // The anti-shake task.
    method OnAntiShakeTimer(hdi: Hdi)
      modifies this
      ensures State() == Step(old(State()), AntiShakeFires(hdi))
    {
      if antiShakePending {
        antiShakePending := false;
        HandleEvent(eventStatus, false, hdi);
      }
    }

    // The fallback task.
    method OnFallbackTimer(hdi: Hdi)
      modifies this
      ensures State() == Step(old(State()), FallbackFires(hdi))
    {
      if fallbackPending {
        fallbackPending := false;
        accStatus := ACC_STOP;
        SetCurrentFunctions(lastDeviceFunc);
      }
    }
  }
}
