/** The service in front of the managers: it names devices by vendor, product and serial number for the rights table,
    and checks and removes the rights of its callers. */
module UsbService {
  import opened DeviceNames
  import opened HostManager
  import opened HostModel
  import opened RightManager
  import opened RightTable
  import opened Sequences
  import opened UsbModel

  const USB_DEFAULT_TOKEN := "UsbServiceTokenId"

  datatype UsbErrCode = UEC_OK | UEC_INTERFACE_INVALID_VALUE | UEC_SERVICE_INNER_ERR

  // What the access token of a caller says.
  datatype Caller = Caller(bundleName: string, tokenId: string, userId: int32)

  function OwnKey(device: string, caller: Caller): Key
  {
    Key(caller.userId, device, caller.bundleName, caller.tokenId)
  }

  function DefaultKey(device: string, caller: Caller): Key
  {
    Key(caller.userId, device, caller.bundleName, USB_DEFAULT_TOKEN)
  }

  // Two clock readings for each of the two checks: the check's own and its sweep's.
  datatype Clock = Clock(now: Seconds, sweep: Seconds, laterNow: Seconds, laterSweep: Seconds)

  function AfterCheck(rows: seq<Row>, key: Key, user: int32, sweepTime: Seconds): seq<Row>
  {
    if key.uid == USB_RIGHT_USERID_CONSOLE then rows else AfterSweep(rows, user, sweepTime)
  }

  // The caller holds a right under its own token or under the default one.
  predicate CallerHasRight(rows: seq<Row>, device: string, caller: Caller, user: int32, clock: Clock)
  {
    var own := OwnKey(device, caller);
    || Right(rows, own, user, clock.now, clock.sweep)
    || Right(AfterCheck(rows, own, user, clock.sweep), DefaultKey(device, caller), user, clock.laterNow, clock.laterSweep)
  }

  // The checks sweep the current user's rows, once or twice, and do nothing else.
  function AfterChecks(rows: seq<Row>, device: string, caller: Caller, user: int32, clock: Clock): seq<Row>
  {
    var own := OwnKey(device, caller);
    var once := AfterCheck(rows, own, user, clock.sweep);
    if Right(rows, own, user, clock.now, clock.sweep) then once
    else AfterCheck(once, DefaultKey(device, caller), user, clock.laterSweep)
  }

  function AfterRemoval(rows: seq<Row>, device: string, caller: Caller): seq<Row>
  {
    if caller.userId == USB_RIGHT_USERID_CONSOLE then rows
    else if HasKey(rows, OwnKey(device, caller)) then Without(rows, OfKey(OwnKey(device, caller)))
    else Without(rows, OfKey(DefaultKey(device, caller)))
  }

  function RemovalResult(rows: seq<Row>, device: string, caller: Caller): UsbErrCode
  {
    if caller.userId == USB_RIGHT_USERID_CONSOLE || HasKey(rows, OwnKey(device, caller)) ||
       HasKey(rows, DefaultKey(device, caller)) then UEC_OK
    else UEC_SERVICE_INNER_ERR
  }

  function UniqueName(dev: Device): string
  {
    ToString(dev.vendorId) + "-" + ToString(dev.productId) + "-" + dev.serial
  }

  // std::map::insert, which leaves an existing entry alone.
  function InsertIfAbsent(m: map<string, string>, name: string, value: string): map<string, string>
  {
    if name in m then m else m[name := value]
  }

  class UsbService {
    var deviceVidPidMap: map<string, string>
    const usbHostManager: UsbHostManager
    const usbRightManager: UsbRightManager

    constructor (hostManager: UsbHostManager, rightManager: UsbRightManager)
      ensures deviceVidPidMap == map[] && usbHostManager == hostManager && usbRightManager == rightManager
    {
      deviceVidPidMap, usbHostManager, usbRightManager := map[], hostManager, rightManager;
    }

    // systemApp is the answer of IsSystemAppOrSa, caller is None when the token cannot be read, and user is the
    // current user whose expired rows the check sweeps.
    method HasRight(deviceName: string, systemApp: bool, caller: Option<Caller>, user: int32, clock: Clock, world: World)
      returns (right: bool)
      modifies usbRightManager.helper
      ensures right ==
              (&& deviceName in deviceVidPidMap
               && (systemApp ||
                   (caller.Some? &&
                    CallerHasRight(old(usbRightManager.helper.rows), deviceVidPidMap[deviceName], caller.value, user, clock))))
      ensures usbRightManager.helper.rows ==
              if deviceName !in deviceVidPidMap || systemApp || caller == None then old(usbRightManager.helper.rows)
              else AfterChecks(old(usbRightManager.helper.rows), deviceVidPidMap[deviceName], caller.value, user, clock)
    {
      if deviceName !in deviceVidPidMap {
        return false;
      }
      var device := deviceVidPidMap[deviceName];
      if systemApp {
        return true;
      }
      if caller == None {
        return false;
      }
      right := usbRightManager.HasRight(OwnKey(device, caller.value), user, clock.now, clock.sweep, world);
      if right {
        return true;
      }
      right := usbRightManager.HasRight(DefaultKey(device, caller.value), user, clock.laterNow, clock.laterSweep, world);
    }

    // When the token cannot be read the code returns false, which is UEC_OK.
    method RemoveRight(deviceName: string, systemApp: bool, caller: Option<Caller>) returns (ret: UsbErrCode)
      modifies usbRightManager.helper
      ensures if deviceName !in deviceVidPidMap
              then ret == UEC_INTERFACE_INVALID_VALUE && usbRightManager.helper.rows == old(usbRightManager.helper.rows)
              else if systemApp || caller.None?
              then ret == UEC_OK && usbRightManager.helper.rows == old(usbRightManager.helper.rows)
              else && ret == RemovalResult(old(usbRightManager.helper.rows), deviceVidPidMap[deviceName], caller.value)
                   && usbRightManager.helper.rows ==
                      AfterRemoval(old(usbRightManager.helper.rows), deviceVidPidMap[deviceName], caller.value)
    {
      if deviceName !in deviceVidPidMap {
        return UEC_INTERFACE_INVALID_VALUE;
      }
      var device := deviceVidPidMap[deviceName];
      if systemApp || caller == None {
        return UEC_OK;
      }
      var rows := usbRightManager.helper.rows;
      var removed := usbRightManager.RemoveDeviceRight(OwnKey(device, caller.value));
      if removed {
        return UEC_OK;
      }
      WithoutKeyAbsent(rows, OwnKey(device, caller.value));
      removed := usbRightManager.RemoveDeviceRight(DefaultKey(device, caller.value));
      return if removed then UEC_OK else UEC_SERVICE_INNER_ERR;
    }

    // The service's locked part of AddDevice.
    method EnterName(name: string, dev: Device)
      modifies `deviceVidPidMap
      ensures deviceVidPidMap == InsertIfAbsent(old(deviceVidPidMap), name, UniqueName(dev))
    {
      if name !in deviceVidPidMap {
        deviceVidPidMap := deviceVidPidMap[name := UniqueName(dev)];
      }
    }

    // The service's locked part of DelDevice.
    method DropName(name: string)
      modifies `deviceVidPidMap
      ensures deviceVidPidMap == old(deviceVidPidMap) - {name}
    {
      deviceVidPidMap := deviceVidPidMap - {name};
    }

    // Up to the end of the first locked part of the host manager's AddDevice; read is what GetDeviceInfo finds at the
    // address, None when it fails.
    method AddDevice(busNum: byte, devAddr: byte, read: Option<Device>, ports: Option<seq<BusAddr>>) returns (ok: bool)
      requires usbHostManager.Valid()
      modifies this, usbHostManager
      ensures usbHostManager.Valid() && ok == read.Some?
      ensures deviceVidPidMap == if ok then InsertIfAbsent(old(deviceVidPidMap), NameOf(busNum, devAddr), UniqueName(read.value))
                                 else old(deviceVidPidMap)
      ensures usbHostManager.State() ==
              if ok then Inserted(old(usbHostManager.State()), read.value.(busNum := busNum, devAddr := devAddr), ports)
              else old(usbHostManager.State())
    {
      if read == None {
        return false;
      }
      var devInfo := read.value.(busNum := busNum, devAddr := devAddr);
      EnterName(NameOf(busNum, devAddr), devInfo);
      usbHostManager.InsertDevice(devInfo, ports);
      return true;
    }

    // Temporary rights on the device end, the rights table is tidied up, and the device is forgotten.
    method DelDevice(busNum: byte, devAddr: byte, user: int32, now: Seconds, world: World) returns (found: bool)
      requires usbHostManager.Valid()
      modifies this, usbHostManager, usbRightManager.helper
      ensures usbHostManager.Valid()
      ensures found == (NameOf(busNum, devAddr) in old(usbHostManager.devices))
      ensures deviceVidPidMap == old(deviceVidPidMap) - {NameOf(busNum, devAddr)}
      ensures usbHostManager.State() == Deleted(old(usbHostManager.State()), busNum, devAddr)
      ensures var name := NameOf(busNum, devAddr);
              var device := if name in old(deviceVidPidMap) then old(deviceVidPidMap)[name] else "test";
              usbRightManager.helper.rows ==
                Tidied(Without(old(usbRightManager.helper.rows), OfPeriod(USB_RIGHT_VALID_PERIOD_MIN, device)),
                       TIGHT_UP_ALL, user, now, world)
    {
      var name := NameOf(busNum, devAddr);
      var device := if name in deviceVidPidMap then deviceVidPidMap[name] else "test";
      var _ := usbRightManager.helper.DeleteValidPeriodRightRecord(USB_RIGHT_VALID_PERIOD_MIN, device);
      usbRightManager.TidyUpRight(TIGHT_UP_ALL, user, now, world);
      DropName(name);
      found := usbHostManager.DelDevice(busNum, devAddr);
    }
  }

  lemma WithoutKeyAbsent(rows: seq<Row>, key: Key)
    requires !HasKey(rows, key)
    ensures Without(rows, OfKey(key)) == rows
  {
    WithoutNone(rows, OfKey(key));
  }
}
