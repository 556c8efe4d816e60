/** Device mode: the delayed connect and disconnect tasks, the current functions, and the HDC notification. */
module DeviceManager {
  import opened BitMask
  import opened FunctionNames
  import opened UsbModel

  const FUNCTION_HDC: uint32 := 0x4
  const FUNCTION_STORAGE: uint32 := 0x200

  const DELAY_CONNECT_INTERVAL: nat := 1000
  const DELAY_DISCONN_INTERVAL: nat := 1400

  // The bits of the functions the manager looks at: 0x4, 0x8, 0x10 and 0x1000.
  const HDC_BIT: nat := 2
  const MTP_BIT: nat := 3
  const PTP_BIT: nat := 4
  const DEVMODE_AUTH_BIT: nat := 12

  predicate HasHdc(func: uint32) { Bit(func, HDC_BIT) }

  predicate HasMtp(func: uint32) { Bit(func, MTP_BIT) }

  predicate HasPtp(func: uint32) { Bit(func, PTP_BIT) }

  predicate HasDevmodeAuth(func: uint32) { Bit(func, DEVMODE_AUTH_BIT) }

  // func & ~USB_FUNCTION_MTP & ~USB_FUNCTION_PTP
  function WithoutMedia(func: uint32): uint32
  {
    Clear(Clear(func, MTP_BIT), PTP_BIT)
  }

  function StorageIfNone(func: uint32): uint32
  {
    if func == 0 then FUNCTION_STORAGE else func
  }

  datatype Event = ACT_UPDEVICE | ACT_DOWNDEVICE | OtherEvent

  // The delayed task, with its delay in milliseconds.
  datatype Task = Connect(delay: nat) | Disconnect(delay: nat)

  // hdcCalls: SendHdcNotification (true) and CancelHdcNotification (false); executed: connect (true) and disconnect
  // (false) tasks; requests: the functions asked of the driver; sticky: the last USB_STATE broadcast, which carries the
  // connection and a set of function names.
  datatype DevState = DevState(
    currentFunctions: uint32, connected: bool, gadgetConnected: bool, hasHdcNotifier: bool, phyConnect: bool,
    pending: Option<Task>, hdcCalls: seq<bool>, executed: seq<bool>, requests: seq<uint32>,
    sticky: Option<(bool, set<string>)>)

  const START := DevState(FUNCTION_HDC, false, false, false, false, None, [], [], [], None)

  /// The handlers as functions of the state

  function Notified(s: DevState): DevState
  {
    var wanted := s.connected && HasHdc(s.currentFunctions);
    if wanted == s.hasHdcNotifier then s
    else s.(hasHdcNotifier := wanted, hdcCalls := s.hdcCalls + [wanted])
  }

  // 1 << j
  function Flag(j: nat): uint32
    requires j < 32
  {
    FlagFits(j);
    Pow2(j)
  }

  lemma FlagFits(j: nat)
    requires j < 32
    ensures Pow2(j) <= 0x8000_0000
  {
    Pow2Grows(j, 31);
    Pow2Word();
  }

  // What each single bit is printed as.
  function BitNames(): (names: seq<string>)
    ensures |names| == 32
  {
    seq(32, j requires 0 <= j < 32 => ToString(Flag(j)))
  }

  // The names of those of the lowest n bits that are set in the functions.
  function NamesBelow(names: seq<string>, func: uint32, n: nat): set<string>
    requires n <= |names|
  {
    set j: nat | j < n && Bit(func, j) :: names[j]
  }

  function PublishedNames(func: uint32): set<string>
  {
    NamesBelow(BitNames(), func, 32)
  }

  function Broadcasted(s: DevState): DevState
  {
    s.(sticky := Some((s.connected, PublishedNames(s.currentFunctions))))
  }

  function Handled(s: DevState, event: Event): DevState
  {
    var up := event == ACT_UPDEVICE;
    s.(gadgetConnected := if event == OtherEvent then s.gadgetConnected else up,
       pending := if up == s.connected then None
                  else if up then Some(Connect(DELAY_CONNECT_INTERVAL))
                  else Some(Disconnect(if s.phyConnect then 2 * DELAY_DISCONN_INTERVAL else DELAY_DISCONN_INTERVAL)))
  }

  // read is what the driver's GetCurrentFunctions answers, None when it fails.
  function Connected(s: DevState, read: Option<uint32>): DevState
  {
    var func := if read.Some? then read.value else s.currentFunctions;
    Notified(Broadcasted(s.(connected := true, currentFunctions := func, pending := None, executed := s.executed + [true])))
  }

  function AfterUnplug(func: uint32): uint32
  {
    if HasMtp(func) || HasPtp(func) then StorageIfNone(WithoutMedia(func))
    else if HasDevmodeAuth(func) then FUNCTION_STORAGE
    else func
  }

  predicate ResetsOnUnplug(func: uint32)
  {
    HasMtp(func) || HasPtp(func) || HasDevmodeAuth(func)
  }

  function Disconnected(s: DevState): DevState
  {
    var func := AfterUnplug(s.currentFunctions);
    Notified(Broadcasted(s.(connected := false, currentFunctions := func, pending := None,
                            executed := s.executed + [false],
                            requests := if ResetsOnUnplug(s.currentFunctions) then s.requests + [func] else s.requests)))
  }

  function Updated(s: DevState, func: uint32): DevState
  {
    if func == s.currentFunctions then s
    else
      var changed := s.(currentFunctions := func);
      Notified(if !s.connected && s.gadgetConnected then changed else Broadcasted(changed))
  }

  function UserChanged(s: DevState, setOk: bool): DevState
  {
    var func := StorageIfNone(WithoutMedia(s.currentFunctions));
    if !HasMtp(s.currentFunctions) && !HasPtp(s.currentFunctions) then Notified(s)
    else
      var asked := s.(requests := s.requests + [func]);
      if setOk && func != s.currentFunctions then Notified(Broadcasted(asked.(currentFunctions := func)))
      else Notified(asked)
  }

  datatype Op =
    | Notify(event: Event)
    | TaskFires(read: Option<uint32>)
    | Update(func: uint32)
    | UserChange(setOk: bool)
    | SetPhy(phyConnect: bool)

  function Step(s: DevState, op: Op): DevState
  {
    match op
    case Notify(event) => Handled(s, event)
    case TaskFires(read) =>
      if s.pending == None then s else if s.pending.value.Connect? then Connected(s, read) else Disconnected(s)
    case Update(func) => Updated(s, func)
    case UserChange(setOk) => UserChanged(s, setOk)
    case SetPhy(phyConnect) => s.(phyConnect := phyConnect)
  }

  function Run(ops: seq<Op>): DevState
  {
    if ops == [] then START else Step(Run(ops[..|ops| - 1]), ops[|ops| - 1])
  }

  /// The class

  class UsbDeviceManager {
    var currentFunctions: uint32
    var connected: bool
    var gadgetConnected: bool
    var hasHdcNotifier: bool
    var phyConnect: bool
    var pending: Option<Task>
    var hdcCalls: seq<bool>
    ghost var executed: seq<bool>
    var requests: seq<uint32>
    var sticky: Option<(bool, set<string>)>

    ghost function State(): DevState
      reads this
    {
      DevState(currentFunctions, connected, gadgetConnected, hasHdcNotifier, phyConnect, pending, hdcCalls, executed,
               requests, sticky)
    }

    constructor ()
      ensures State() == START
    {
      currentFunctions := FUNCTION_HDC;
      connected, gadgetConnected, hasHdcNotifier, phyConnect := false, false, false, false;
      pending, hdcCalls, executed, requests, sticky := None, [], [], [], None;
    }

    method ProcessFunctionNotifier()
      modifies `hasHdcNotifier, `hdcCalls
      ensures State() == Notified(old(State()))
    {
      if connected {
        if HasHdc(currentFunctions) && !hasHdcNotifier {
          hdcCalls := hdcCalls + [true];
          hasHdcNotifier := true;
        }
        if !HasHdc(currentFunctions) && hasHdcNotifier {
          hdcCalls := hdcCalls + [false];
          hasHdcNotifier := false;
        }
      } else {
        if hasHdcNotifier {
          hdcCalls := hdcCalls + [false];
          hasHdcNotifier := false;
        }
      }
    }

    // Goes through the bits of the functions from the lowest up and sets a parameter for the name of each.
    method BroadcastFuncChange()
      modifies `sticky
      ensures State() == Broadcasted(old(State()))
    {
      var names := PrintBits(currentFunctions);
      sticky := Some((connected, names));
    }

    method ProcessFuncChange()
      modifies `sticky, `hasHdcNotifier, `hdcCalls
      ensures State() == Notified(Broadcasted(old(State())))
    {
      BroadcastFuncChange();
      ProcessFunctionNotifier();
    }

    method ProcessStatus(status: Event) returns (curConnect: bool)
      modifies `gadgetConnected
      ensures curConnect == (status == ACT_UPDEVICE)
      ensures gadgetConnected == if status == OtherEvent then old(gadgetConnected) else curConnect
    {
      curConnect := false;
      match status {
        case ACT_UPDEVICE =>
          curConnect := true;
          gadgetConnected := true;
        case ACT_DOWNDEVICE =>
          curConnect := false;
          gadgetConnected := false;
        case OtherEvent =>
      }
    }

    method SetCurrentFunctions(func: uint32)
      modifies `requests
      ensures requests == old(requests) + [func]
    {
      requests := requests + [func];
    }

    // Cancels the pending task and may register another; nothing happens while the driver is missing.
    method HandleEvent(status: Event, present: bool)
      modifies this
      ensures State() == if present then Handled(old(State()), status) else old(State())
    {
      if !present {
        return;
      }
      var curConnect := ProcessStatus(status);
      pending := None;
      if curConnect && connected != curConnect {
        pending := Some(Connect(DELAY_CONNECT_INTERVAL));
      } else if !curConnect && connected != curConnect {
        var delayTime := DELAY_DISCONN_INTERVAL;
        if phyConnect {
          delayTime := delayTime + DELAY_DISCONN_INTERVAL;
        }
        pending := Some(Disconnect(delayTime));
      }
    }

    // The connect task.
    method OnConnect(read: Option<uint32>)
      modifies this
      ensures State() == Connected(old(State()), read)
    {
      pending := None;
      executed := executed + [true];
      connected := true;
      if read.Some? {
        currentFunctions := read.value;
      }
      ProcessFuncChange();
    }

    // The functions that are left without a host.
    method ResetFunctions()
      modifies `currentFunctions, `requests
      ensures currentFunctions == AfterUnplug(old(currentFunctions))
      ensures requests ==
              if ResetsOnUnplug(old(currentFunctions)) then old(requests) + [currentFunctions] else old(requests)
    {
      if HasMtp(currentFunctions) || HasPtp(currentFunctions) {
        currentFunctions := WithoutMedia(currentFunctions);
        currentFunctions := if currentFunctions == 0 then FUNCTION_STORAGE else currentFunctions;
        SetCurrentFunctions(currentFunctions);
      } else if HasDevmodeAuth(currentFunctions) {
        currentFunctions := FUNCTION_STORAGE;
        SetCurrentFunctions(currentFunctions);
      }
    }

    // The disconnect task.
    method OnDisconnect()
      modifies this
      ensures State() == Disconnected(old(State()))
    {
      pending := None;
      executed := executed + [false];
      connected := false;
      ResetFunctions();
      ProcessFuncChange();
    }

    method OnTimer(read: Option<uint32>)
      modifies this
      ensures State() == Step(old(State()), TaskFires(read))
    {
      if pending == None {
        return;
      }
      if pending.value.Connect? {
        OnConnect(read);
      } else {
        OnDisconnect();
      }
    }

    method UpdateFunctions(func: uint32)
      modifies this
      ensures State() == Updated(old(State()), func)
    {
      if func == currentFunctions {
        return;
      }
      currentFunctions := func;
      if connected || !gadgetConnected {
        BroadcastFuncChange();
      }
      ProcessFunctionNotifier();
    }

    // Reports failure unless the driver was asked and accepted.
    method UserChangeProcess(setOk: bool) returns (ok: bool)
      modifies this
      ensures State() == UserChanged(old(State()), setOk)
      ensures ok == ((HasMtp(old(currentFunctions)) || HasPtp(old(currentFunctions))) && setOk)
    {
      ok := false;
      if HasMtp(currentFunctions) || HasPtp(currentFunctions) {
        var func := WithoutMedia(currentFunctions);
        func := if func == 0 then FUNCTION_STORAGE else func;
        SetCurrentFunctions(func);
        ok := setOk;
        if setOk && func != currentFunctions {
          currentFunctions := func;
          BroadcastFuncChange();
        }
      }
      ProcessFunctionNotifier();
    }

    method SetPhyConnectState(phyConnect: bool)
      modifies `phyConnect
      ensures State() == old(State()).(phyConnect := phyConnect)
    {
      this.phyConnect := phyConnect;
    }
  }

  /// The loop over bits

  method PrintBits(func: uint32) returns (names: set<string>)
    ensures names == PublishedNames(func)
  {
    names := {};
    ghost var bitNames := BitNames();
    var remainderFunc: uint32, bit: uint32 := func, 1;
    ghost var j := 0;
    while remainderFunc != 0
      invariant j <= 32 && (j < 32 ==> bit == Flag(j))
      invariant remainderFunc == ClearBelow(func, j)
      invariant names == NamesBelow(bitNames, func, j)
      decreases 32 - j
    {
      BitTurn(func, j);
      NamesTurn(bitNames, func, j);
      if And(remainderFunc, bit) != 0 {
        var name := ConvertToString(bit);
        names := names + {name};
        // remainderFunc &= ~bit, where the bit is set
        remainderFunc := remainderFunc - bit;
      }
      bit := Doubled(bit);
      j := j + 1;
    }
    NoBitsLeft(bitNames, func, j);
  }

  // bit << 1
  function Doubled(bit: uint32): uint32
  {
    if bit < 0x8000_0000 then 2 * bit else 2 * bit - UINT32_MODULUS
  }

  // The bits from j up.
  function ClearBelow(a: nat, j: nat): nat
  {
    if j == 0 then a else Clear(ClearBelow(a, j - 1), j - 1)
  }

  lemma {:induction false} BitOfClearBelow(a: nat, j: nat, k: nat)
    ensures Bit(ClearBelow(a, j), k) <==> k >= j && Bit(a, k)
  {
    if j > 0 {
      BitOfClear(ClearBelow(a, j - 1), j - 1, k);
      BitOfClearBelow(a, j - 1, k);
    }
  }

  lemma SomethingRemains(func: uint32, j: nat)
    requires ClearBelow(func, j) != 0
    ensures j < 32
  {
    var k := SomeBit(ClearBelow(func, j));
    BitOfClearBelow(func, j, k);
    if j >= 32 {
      NoHighBit(func, k);
    }
  }

  lemma MaskTurn(func: uint32, j: nat)
    requires j < 32
    ensures var remainder := ClearBelow(func, j);
            && (And(remainder, Pow2(j)) != 0 <==> Bit(func, j))
            && ClearBelow(func, j + 1) == (if Bit(func, j) then remainder - Pow2(j) else remainder)
  {
    BitOfClearBelow(func, j, j);
    OneBit(ClearBelow(func, j), j);
  }

  lemma NamesTurn(names: seq<string>, func: uint32, j: nat)
    requires j < |names|
    ensures NamesBelow(names, func, j + 1) ==
            NamesBelow(names, func, j) + (if Bit(func, j) then {names[j]} else {})
  {
  }

  lemma FlagTurn(j: nat)
    requires j < 31
    ensures Flag(j + 1) == Doubled(Flag(j))
  {
    FlagFits(j + 1);
  }

  // One turn: while something remains the bit is within the word, and taking it off leaves the bits above it.
  lemma BitTurn(func: uint32, j: nat)
    requires ClearBelow(func, j) != 0
    ensures j < 32
    ensures var remainder := ClearBelow(func, j);
            && (And(remainder, Flag(j)) != 0 <==> Bit(func, j))
            && ClearBelow(func, j + 1) == (if Bit(func, j) then remainder - Flag(j) else remainder)
    ensures j < 31 ==> Flag(j + 1) == Doubled(Flag(j))
  {
    SomethingRemains(func, j);
    MaskTurn(func, j);
    if j < 31 {
      FlagTurn(j);
    }
  }

  lemma NoHighBit(func: uint32, k: nat)
    requires k >= 32
    ensures !Bit(func, k)
  {
    Pow2Word();
    BitBelow(func, 32, k);
  }

  lemma NoBitsLeft(names: seq<string>, func: uint32, j: nat)
    requires j <= |names| && ClearBelow(func, j) == 0
    ensures NamesBelow(names, func, j) == NamesBelow(names, func, |names|)
  {
    forall k: nat | j <= k ensures !Bit(func, k) {
      BitOfClearBelow(func, j, k);
      ZeroHasNoBit(k);
    }
  }
}
