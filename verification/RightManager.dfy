/** Granting, checking and removing rights, and the tidy-up that drops rows of uninstalled apps, deleted accounts,
    expired grants and reinstalled apps. */
module RightManager {
  import opened BitMask
  import opened RightTable
  import opened Sequences
  import opened UsbModel

  const USB_RIGHT_USERID_CONSOLE: int32 := 0

  // The clean-ups that TidyUpRight can run, as bits of its argument.
  const APP_UNINSTALLED := 1
  const USER_DELETED := 2
  const EXPIRED := 4
  const APP_REINSTALLED := 8
  const TIGHT_UP_ALL := 15

  // What the bundle manager and the account manager answer.
  datatype World = World(
    installed: (int32, string) -> bool,               // GetApplicationInfo
    installTime: (int32, string) -> Option<Seconds>,  // GetBundleInfo
    accountExists: int32 -> Option<bool>)             // IsOsAccountExists, None when the query fails

  /// What each clean-up removes

  function Uninstalled(uid: int32, world: World): Row -> bool
  {
    (r: Row) => r.key.uid == uid && !world.installed(uid, r.key.bundleName)
  }

  function UninstalledAmong(uid: int32, world: World, apps: seq<string>): Row -> bool
  {
    (r: Row) => r.key.uid == uid && r.key.bundleName in apps && !world.installed(uid, r.key.bundleName)
  }

  function Orphaned(world: World): Row -> bool
  {
    (r: Row) => world.accountExists(r.key.uid) == Some(false)
  }

  function OrphanedAmong(world: World, uids: seq<int32>): Row -> bool
  {
    (r: Row) => r.key.uid in uids && world.accountExists(r.key.uid) == Some(false)
  }

  // Some row of the app was granted to an installation with another install time.
  predicate Stale(rows: seq<Row>, uid: int32, app: string, installTime: Seconds)
  {
    exists r :: r in rows && OfApp(uid, app)(r) && r.info.installTime != installTime
  }

  predicate AllAppsKnown(rows: seq<Row>, uid: int32, world: World)
  {
    forall r :: r in rows && r.key.uid == uid ==> world.installTime(uid, r.key.bundleName).Some?
  }

  predicate IsReinstalled(rows: seq<Row>, uid: int32, world: World, app: string)
  {
    var time := world.installTime(uid, app);
    time.Some? && Stale(rows, uid, app, time.value)
  }

  function Reinstalled(rows: seq<Row>, uid: int32, world: World): Row -> bool
  {
    (r: Row) => r.key.uid == uid && IsReinstalled(rows, uid, world, r.key.bundleName)
  }

  // The reinstall check gives up, deleting nothing, when an app of the user is unknown.
  function DropReinstalled(rows: seq<Row>, uid: int32, world: World): seq<Row>
  {
    if AllAppsKnown(rows, uid, world) then Without(rows, Reinstalled(rows, uid, world)) else rows
  }

  predicate Chosen(choose: uint32, flag: nat)
  {
    And(choose, flag) != 0
  }

  // No bit outside the known clean-ups.
  predicate IsValidChoice(choose: uint32)
  {
    Or(choose, TIGHT_UP_ALL) == TIGHT_UP_ALL
  }

  // The clean-ups in the order TidyUpRight runs them.
  function Tidied(rows: seq<Row>, choose: uint32, uid: int32, now: Seconds, world: World): seq<Row>
  {
    if !IsValidChoice(choose) || uid == USB_RIGHT_USERID_CONSOLE then rows
    else
      var rows1 := if Chosen(choose, APP_UNINSTALLED) then Without(rows, Uninstalled(uid, world)) else rows;
      var rows2 := if Chosen(choose, USER_DELETED) then Without(rows1, Orphaned(world)) else rows1;
      var rows3 := if Chosen(choose, EXPIRED) then Without(rows2, NormalExpired(uid, now)) else rows2;
      if Chosen(choose, APP_REINSTALLED) then DropReinstalled(rows3, uid, world) else rows3
  }

  // The answer of HasRight, which sweeps the calling user's expired rows between its clock reading and its query.
  predicate Right(rows: seq<Row>, key: Key, caller: int32, now: Seconds, sweepTime: Seconds)
  {
    key.uid == USB_RIGHT_USERID_CONSOLE ||
    !IsExpired(AfterSweep(rows, caller, sweepTime), key, now)
  }

  function AfterSweep(rows: seq<Row>, caller: int32, sweepTime: Seconds): seq<Row>
  {
    if caller == USB_RIGHT_USERID_CONSOLE then rows else Without(rows, NormalExpired(caller, sweepTime))
  }

  lemma TidyExpired(rows: seq<Row>, uid: int32, now: Seconds, world: World)
    ensures Tidied(rows, EXPIRED, uid, now, world) == AfterSweep(rows, uid, now)
  {
    assert IsValidChoice(EXPIRED);
    assert !Chosen(EXPIRED, APP_UNINSTALLED) && !Chosen(EXPIRED, USER_DELETED);
    assert Chosen(EXPIRED, EXPIRED) && !Chosen(EXPIRED, APP_REINSTALLED);
  }

  function GrantInfo(installTime: Seconds, updateTime: Seconds, now: Seconds): AppInfo
  {
    AppInfo(installTime, updateTime, now, USB_RIGHT_VALID_PERIOD_SET)
  }

  class UsbRightManager {
    const helper: UsbRightDbHelper

    constructor (helper: UsbRightDbHelper)
      ensures this.helper == helper
    {
      this.helper := helper;
    }

    method HasRight(key: Key, caller: int32, nowTime: Seconds, sweepTime: Seconds, world: World) returns (right: bool)
      modifies helper
      ensures right == Right(old(helper.rows), key, caller, nowTime, sweepTime)
      ensures helper.rows == if key.uid == USB_RIGHT_USERID_CONSOLE then old(helper.rows)
                             else AfterSweep(old(helper.rows), caller, sweepTime)
    {
      if key.uid == USB_RIGHT_USERID_CONSOLE {
        return true;
      }
      TidyExpired(helper.rows, caller, sweepTime, world);
      TidyUpRight(EXPIRED, caller, sweepTime, world);
      var expired := helper.IsRecordExpired(key, nowTime);
      return !expired;
    }

    // The install and update times are the clock's when the bundle manager does not know the app.
    method AddDeviceRight(key: Key, installTime: Seconds, updateTime: Seconds, now: Seconds) returns (added: bool)
      modifies helper
      ensures added
      ensures helper.rows == if key.uid == USB_RIGHT_USERID_CONSOLE then old(helper.rows)
                             else AddOrUpdate(old(helper.rows), key, GrantInfo(installTime, updateTime, now))
    {
      if key.uid == USB_RIGHT_USERID_CONSOLE {
        return true;
      }
      var info := AppInfo(installTime, updateTime, now, USB_RIGHT_VALID_PERIOD_SET);
      var ret := helper.AddOrUpdateRightRecord(key, info);
      return !(ret < 0);
    }

    method RemoveDeviceRight(key: Key) returns (removed: bool)
      modifies helper
      ensures removed == (key.uid == USB_RIGHT_USERID_CONSOLE || HasKey(old(helper.rows), key))
      ensures helper.rows == if key.uid == USB_RIGHT_USERID_CONSOLE then old(helper.rows)
                             else Without(old(helper.rows), OfKey(key))
    {
      if key.uid == USB_RIGHT_USERID_CONSOLE {
        return true;
      }
      var ret := helper.DeleteRightRecord(key);
      return !(ret < 0);
    }

    method CleanUpRightAppUninstalled(uid: int32, world: World)
      modifies helper
      ensures helper.rows == Without(old(helper.rows), Uninstalled(uid, world))
    {
      ghost var before := helper.rows;
      var apps := helper.QueryRightRecordApps(uid);
      if |apps| <= 0 {
        assert forall r :: r in before && r.key.uid == uid ==> OfApp(uid, r.key.bundleName)(r);
        WithoutNone(before, Uninstalled(uid, world));
        return;
      }
      WithoutNone(before, UninstalledAmong(uid, world, []));
      assert apps[..0] == [];
      for i := 0 to |apps|
        invariant helper.rows == Without(before, UninstalledAmong(uid, world, apps[..i]))
      {
        var app := apps[i];
        assert apps[..i + 1] == apps[..i] + [app];
        if !world.installed(uid, app) {
          var _ := helper.DeleteAppRightRecord(uid, app);
          WithoutTwice(before, UninstalledAmong(uid, world, apps[..i]), OfApp(uid, app),
                       UninstalledAmong(uid, world, apps[..i + 1]));
        } else {
          WithoutSame(before, UninstalledAmong(uid, world, apps[..i]), UninstalledAmong(uid, world, apps[..i + 1]));
        }
      }
      assert apps[..|apps|] == apps;
      forall r | r in before && r.key.uid == uid ensures r.key.bundleName in apps {
        assert OfApp(uid, r.key.bundleName)(r);
      }
      WithoutSame(before, UninstalledAmong(uid, world, apps), Uninstalled(uid, world));
    }

    method CleanUpRightUserDeleted(world: World)
      modifies helper
      ensures helper.rows == Without(old(helper.rows), Orphaned(world))
    {
      ghost var before := helper.rows;
      var uids := helper.QueryRightRecordUids();
      if |uids| <= 0 {
        assert before != [] ==> before[0].key.uid in uids;
        WithoutNone(before, Orphaned(world));
        return;
      }
      WithoutNone(before, OrphanedAmong(world, []));
      assert uids[..0] == [];
      for i := 0 to |uids|
        invariant helper.rows == Without(before, OrphanedAmong(world, uids[..i]))
      {
        assert uids[..i + 1] == uids[..i] + [uids[i]];
        match world.accountExists(uids[i]) {
          case Some(false) =>
            var _ := helper.DeleteUidRightRecord(uids[i]);
            WithoutTwice(before, OrphanedAmong(world, uids[..i]), OfUser(uids[i]), OrphanedAmong(world, uids[..i + 1]));
          case _ =>
            WithoutSame(before, OrphanedAmong(world, uids[..i]), OrphanedAmong(world, uids[..i + 1]));
        }
      }
      assert uids[..|uids|] == uids;
      WithoutSame(before, OrphanedAmong(world, uids), Orphaned(world));
    }

    method CleanUpRightNormalExpired(uid: int32, nowTime: Seconds)
      modifies helper
      ensures helper.rows == Without(old(helper.rows), NormalExpired(uid, nowTime))
    {
      var _ := helper.DeleteNormalExpiredRightRecord(uid, nowTime);
    }

    method CleanUpRightAppReinstalled(uid: int32, world: World)
      modifies helper
      ensures helper.rows == DropReinstalled(old(helper.rows), uid, world)
    {
      ghost var before := helper.rows;
      var apps := helper.QueryRightRecordApps(uid);
      forall r | r in before && r.key.uid == uid ensures r.key.bundleName in apps {
        assert OfApp(uid, r.key.bundleName)(r);
      }
      if |apps| <= 0 {
        WithoutNone(before, Reinstalled(before, uid, world));
        return;
      }
      var deleteBundleNames: seq<string> := [];
      for i := 0 to |apps|
        invariant helper.rows == before
        invariant forall j :: 0 <= j < i ==> world.installTime(uid, apps[j]).Some?
        invariant forall app :: app in deleteBundleNames <==> app in apps[..i] && IsReinstalled(before, uid, world, app)
      {
        var infos := helper.QueryAppRightRecord(uid, apps[i]);
        var installTime := world.installTime(uid, apps[i]);
        if installTime == None {
          assert apps[i] in apps;
          return;
        }
        var stale := HasOtherInstallTime(infos, installTime.value);
        if stale {
          deleteBundleNames := deleteBundleNames + [apps[i]];
        }
        assert stale <==> IsReinstalled(before, uid, world, apps[i]);
      }
      var _ := helper.DeleteAppsRightRecord(uid, deleteBundleNames);
      WithoutSame(before, OfApps(uid, deleteBundleNames), Reinstalled(before, uid, world));
    }

    method HasOtherInstallTime(infos: seq<Row>, installTime: Seconds) returns (stale: bool)
      ensures stale <==> exists r :: r in infos && r.info.installTime != installTime
    {
      for j := 0 to |infos|
        invariant forall k :: 0 <= k < j ==> infos[k].info.installTime == installTime
      {
        if infos[j].info.installTime != installTime {
          return true;
        }
      }
      return false;
    }

    method TidyUpRight(choose: uint32, uid: int32, now: Seconds, world: World)
      modifies helper
      ensures helper.rows == Tidied(old(helper.rows), choose, uid, now, world)
    {
      if choose == 0 {
        return;
      }
      if Or(choose, TIGHT_UP_ALL) != TIGHT_UP_ALL {
        return;
      }
      if uid == USB_RIGHT_USERID_CONSOLE {
        return;
      }
      if Chosen(choose, APP_UNINSTALLED) {
        CleanUpRightAppUninstalled(uid, world);
      }
      if Chosen(choose, USER_DELETED) {
        CleanUpRightUserDeleted(world);
      }
      if Chosen(choose, EXPIRED) {
        CleanUpRightNormalExpired(uid, now);
      }
      if Chosen(choose, APP_REINSTALLED) {
        CleanUpRightAppReinstalled(uid, world);
      }
    }
  }
}
