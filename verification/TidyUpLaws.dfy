/** What the tidy-up of the rights table keeps, row by row. */
module TidyUpLaws {
  import opened BitMask
  import opened RightManager
  import opened RightRuns
  import opened RightTable
  import opened Sequences
  import opened UsbModel

  /// The tidy-up as one deletion

  // The rows that the first three clean-ups drop.
  function DroppedFirst(choose: uint32, uid: int32, now: Seconds, world: World): Row -> bool
  {
    (r: Row) =>
      || (Chosen(choose, APP_UNINSTALLED) && r.key.uid == uid && !world.installed(uid, r.key.bundleName))
      || (Chosen(choose, USER_DELETED) && world.accountExists(r.key.uid) == Some(false))
      || (Chosen(choose, EXPIRED) && NormalExpired(uid, now)(r))
  }

  // Two rows of one app of the caller.
  predicate SameApp(r: Row, other: Row)
  {
    r.key.uid == other.key.uid && r.key.bundleName == other.key.bundleName
  }

  predicate SurvivorsKnown(rows: seq<Row>, dropped: Row -> bool, uid: int32, world: World)
  {
    forall r :: r in rows && !dropped(r) && r.key.uid == uid ==> world.installTime(uid, r.key.bundleName).Some?
  }

  // Some surviving row of the app names an install time other than the app's own.
  predicate SurvivorStale(rows: seq<Row>, dropped: Row -> bool, r: Row, world: World)
  {
    var time := world.installTime(r.key.uid, r.key.bundleName);
    time.Some? &&
    exists other :: other in rows && !dropped(other) && SameApp(other, r) && other.info.installTime != time.value
  }

  // What the whole tidy-up drops, row by row.
  function Dropped(rows: seq<Row>, choose: uint32, uid: int32, now: Seconds, world: World): Row -> bool
  {
    var first := DroppedFirst(choose, uid, now, world);
    (r: Row) =>
      && IsValidChoice(choose) && uid != USB_RIGHT_USERID_CONSOLE
      && (|| first(r)
          || (&& Chosen(choose, APP_REINSTALLED) && SurvivorsKnown(rows, first, uid, world)
              && r.key.uid == uid && SurvivorStale(rows, first, r, world)))
  }

  lemma FirstCleanUps(rows: seq<Row>, choose: uint32, uid: int32, now: Seconds, world: World)
    ensures var rows1 := if Chosen(choose, APP_UNINSTALLED) then Without(rows, Uninstalled(uid, world)) else rows;
            var rows2 := if Chosen(choose, USER_DELETED) then Without(rows1, Orphaned(world)) else rows1;
            var rows3 := if Chosen(choose, EXPIRED) then Without(rows2, NormalExpired(uid, now)) else rows2;
            rows3 == Without(rows, DroppedFirst(choose, uid, now, world))
  {
    var p1 := (r: Row) => Chosen(choose, APP_UNINSTALLED) && Uninstalled(uid, world)(r);
    var p2 := (r: Row) => Chosen(choose, USER_DELETED) && Orphaned(world)(r);
    var p3 := (r: Row) => Chosen(choose, EXPIRED) && NormalExpired(uid, now)(r);
    WithoutIf(rows, Chosen(choose, APP_UNINSTALLED), Uninstalled(uid, world), p1);
    var rows1 := Without(rows, p1);
    WithoutIf(rows1, Chosen(choose, USER_DELETED), Orphaned(world), p2);
    var rows2 := Without(rows1, p2);
    WithoutIf(rows2, Chosen(choose, EXPIRED), NormalExpired(uid, now), p3);
    WithoutTwice(rows, p1, p2, r => p1(r) || p2(r));
    WithoutTwice(rows, r => p1(r) || p2(r), p3, DroppedFirst(choose, uid, now, world));
  }

  lemma WithoutIf(rows: seq<Row>, on: bool, p: Row -> bool, pIf: Row -> bool)
    requires forall r :: pIf(r) <==> on && p(r)
    ensures Without(rows, pIf) == if on then Without(rows, p) else rows
  {
    if on {
      WithoutSame(rows, pIf, p);
    } else {
      WithoutNone(rows, pIf);
    }
  }

  // The tidy-up, for every choice of clean-ups, is one deletion whose condition does not mention their order.
  lemma TidyUpIsOneDeletion(rows: seq<Row>, choose: uint32, uid: int32, now: Seconds, world: World)
    ensures Tidied(rows, choose, uid, now, world) == Without(rows, Dropped(rows, choose, uid, now, world))
  {
    var dropped := Dropped(rows, choose, uid, now, world);
    if !IsValidChoice(choose) || uid == USB_RIGHT_USERID_CONSOLE {
      WithoutNone(rows, dropped);
    } else {
      var first := DroppedFirst(choose, uid, now, world);
      var rows3 := Without(rows, first);
      FirstCleanUps(rows, choose, uid, now, world);
      forall r: Row ensures r in rows3 <==> r in rows && !first(r) {
        WithoutMember(rows, first, r);
      }
      if Chosen(choose, APP_REINSTALLED) && AllAppsKnown(rows3, uid, world) {
        assert SurvivorsKnown(rows, first, uid, world);
        forall r: Row | r in rows ensures dropped(r) == (first(r) || Reinstalled(rows3, uid, world)(r)) {
          StaleAsSurvivor(rows, first, rows3, r, uid, world);
        }
        WithoutTwice(rows, first, Reinstalled(rows3, uid, world), dropped);
      } else {
        WithoutSame(rows, first, dropped);
      }
    }
  }

  lemma StaleAsSurvivor(rows: seq<Row>, first: Row -> bool, rows3: seq<Row>, r: Row, uid: int32, world: World)
    requires forall o :: o in rows3 <==> o in rows && !first(o)
    ensures Reinstalled(rows3, uid, world)(r) <==> r.key.uid == uid && SurvivorStale(rows, first, r, world)
  {
    var time := world.installTime(uid, r.key.bundleName);
    if r.key.uid == uid && time.Some? {
      forall o: Row ensures OfApp(uid, r.key.bundleName)(o) <==> SameApp(o, r) {
      }
    }
  }

  /// What stays, in plain terms

  lemma ChosenIsBit(choose: uint32)
    ensures Chosen(choose, APP_UNINSTALLED) <==> Bit(choose, 0)
    ensures Chosen(choose, USER_DELETED) <==> Bit(choose, 1)
    ensures Chosen(choose, EXPIRED) <==> Bit(choose, 2)
    ensures Chosen(choose, APP_REINSTALLED) <==> Bit(choose, 3)
  {
    assert Pow2(0) == 1 && Pow2(1) == 2 && Pow2(2) == 4 && Pow2(3) == 8;
    OneBit(choose, 0);
    OneBit(choose, 1);
    OneBit(choose, 2);
    OneBit(choose, 3);
  }

  lemma OrHalf(a: nat, b: nat)
    ensures Or(a, 2 * b + 1) == 2 * Or(a / 2, b) + 1
  {
    OrHalves(a, 2 * b + 1);
  }

  lemma ValidBelow16(choose: uint32)
    ensures IsValidChoice(choose) <==> choose < 16
  {
    OrHalf(choose, 7);
    OrHalf(choose / 2, 3);
    OrHalf(choose / 2 / 2, 1);
    OrHalf(choose / 2 / 2 / 2, 0);
    var high := choose / 2 / 2 / 2 / 2;
    assert Or(high, 0) == high;
    assert Or(choose, TIGHT_UP_ALL) == 16 * high + 15;
  }

  // The row passes the first three clean-ups, bit by bit of the choice: its app is installed, its account is not known
  // to be gone, and it was requested at most the fixed period ago, or has one of the two special periods.
  predicate Stays(r: Row, choose: uint32, uid: int32, now: Seconds, world: World)
  {
    && (Bit(choose, 0) && r.key.uid == uid ==> world.installed(uid, r.key.bundleName))
    && (Bit(choose, 1) ==> world.accountExists(r.key.uid) != Some(false))
    && (Bit(choose, 2) && r.key.uid == uid ==>
        now <= r.info.requestTime + 0x0FFF_FFFF || r.info.validPeriod == 0 || r.info.validPeriod == 0xFFFF_FFFF)
  }

  // The install times of all the caller's apps that still have rows are known.
  predicate AllStayingKnown(rows: seq<Row>, choose: uint32, uid: int32, now: Seconds, world: World)
  {
    forall r :: r in rows && Stays(r, choose, uid, now, world) && r.key.uid == uid ==>
      world.installTime(uid, r.key.bundleName).Some?
  }

  lemma FirstIsNotStaying(choose: uint32, uid: int32, now: Seconds, world: World, r: Row)
    ensures DroppedFirst(choose, uid, now, world)(r) <==> !Stays(r, choose, uid, now, world)
  {
    ChosenIsBit(choose);
    assert r.info.requestTime < SweepThreshold(now) <==> now > r.info.requestTime + 0x0FFF_FFFF;
    assert NormalExpired(uid, now)(r) <==>
           && r.key.uid == uid && now > r.info.requestTime + 0x0FFF_FFFF
           && r.info.validPeriod != 0 && r.info.validPeriod != 0xFFFF_FFFF;
  }

  // For every choice of clean-ups, every table and every answer: a row stays exactly when it passes the first three
  // and, if the fourth is chosen and gives up on no app, every passing row of its app names the app's install time. An
  // unknown choice, or the console as caller, keeps everything.
  lemma TidyUpKeepsExactly(rows: seq<Row>, choose: uint32, uid: int32, now: Seconds, world: World, r: Row)
    ensures r in Tidied(rows, choose, uid, now, world) <==>
            && r in rows
            && (choose < 16 && uid != 0 ==>
                && Stays(r, choose, uid, now, world)
                && (Bit(choose, 3) && r.key.uid == uid && AllStayingKnown(rows, choose, uid, now, world) ==>
                    forall other :: other in rows && SameApp(other, r) && Stays(other, choose, uid, now, world) ==>
                      Some(other.info.installTime) == world.installTime(uid, r.key.bundleName)))
  {
    var first := DroppedFirst(choose, uid, now, world);
    TidyUpIsOneDeletion(rows, choose, uid, now, world);
    WithoutMember(rows, Dropped(rows, choose, uid, now, world), r);
    ValidBelow16(choose);
    ChosenIsBit(choose);
    forall o ensures first(o) <==> !Stays(o, choose, uid, now, world) {
      FirstIsNotStaying(choose, uid, now, world, o);
    }
    assert SurvivorsKnown(rows, first, uid, world) <==> AllStayingKnown(rows, choose, uid, now, world);
  }

  // With all clean-ups chosen, and install times known for installed apps, a row stays exactly when its account is
  // not known to be deleted and, for the calling user, its app is installed, it was requested recently enough (or is
  // of a period the sweep spares), and every row of its app that passes these names the app's install time.
  lemma TidyUpAllKeepsExactly(rows: seq<Row>, uid: int32, now: Seconds, world: World, r: Row)
    requires uid != USB_RIGHT_USERID_CONSOLE
    requires forall app :: world.installed(uid, app) ==> world.installTime(uid, app).Some?
    ensures r in Tidied(rows, TIGHT_UP_ALL, uid, now, world) <==>
            && r in rows && Passes(r, uid, now, world)
            && (r.key.uid == uid ==>
                forall other :: other in rows && SameApp(other, r) && Passes(other, uid, now, world) ==>
                  Some(other.info.installTime) == world.installTime(uid, r.key.bundleName))
  {
    var first := DroppedFirst(TIGHT_UP_ALL, uid, now, world);
    TidyUpIsOneDeletion(rows, TIGHT_UP_ALL, uid, now, world);
    WithoutMember(rows, Dropped(rows, TIGHT_UP_ALL, uid, now, world), r);
    assert IsValidChoice(TIGHT_UP_ALL);
    assert Chosen(TIGHT_UP_ALL, APP_UNINSTALLED) && Chosen(TIGHT_UP_ALL, USER_DELETED);
    assert Chosen(TIGHT_UP_ALL, EXPIRED) && Chosen(TIGHT_UP_ALL, APP_REINSTALLED);
    assert forall o :: first(o) <==> !Passes(o, uid, now, world);
    assert SurvivorsKnown(rows, first, uid, world);
  }

  predicate Passes(r: Row, uid: int32, now: Seconds, world: World)
  {
    && world.accountExists(r.key.uid) != Some(false)
    && (r.key.uid == uid ==>
        && world.installed(uid, r.key.bundleName)
        && (|| r.info.requestTime >= now - USB_RIGHT_VALID_PERIOD_SET
            || r.info.validPeriod == USB_RIGHT_VALID_PERIOD_MIN || r.info.validPeriod == USB_RIGHT_VALID_PERIOD_MAX))
  }

  // Some app of the caller was reinstalled.
  ghost predicate SomeReinstalled(rows: seq<Row>, uid: int32, world: World)
  {
    exists r :: r in rows && Reinstalled(rows, uid, world)(r)
  }

  // The reinstall check gives up exactly when an app of the caller that is unknown to the bundle manager still has a
  // row; then it drops nothing.
  lemma ReinstallCheckGivesUpExactly(rows: seq<Row>, uid: int32, world: World)
    requires SomeReinstalled(rows, uid, world)
    ensures DropReinstalled(rows, uid, world) == rows <==> !AllAppsKnown(rows, uid, world)
  {
    var r :| r in rows && Reinstalled(rows, uid, world)(r);
    WithoutMember(rows, Reinstalled(rows, uid, world), r);
  }

  // The order of the clean-ups matters: with the reinstall check first, a row of an uninstalled app shields the row
  // of a reinstalled one, which the real order drops.
  lemma ReinstallCheckFirstKeepsMore()
    ensures exists rows, uid: int32, world: World ::
              Without(DropReinstalled(rows, uid, world), Uninstalled(uid, world)) !=
              DropReinstalled(Without(rows, Uninstalled(uid, world)), uid, world)
  {
    var world := World((u, app) => app == "in", (u, app) => if app == "in" then Some(7 as Seconds) else None,
                       u => Some(true));
    var info := AppInfo(3, 3, 3, USB_RIGHT_VALID_PERIOD_SET);
    var gone := Row(Key(100, "dev", "out", "t"), info);
    var back := Row(Key(100, "dev", "in", "t"), info);
    var rows := [gone, back];
    var uid: int32 := 100;
    assert OfApp(uid, "in")(back) && Stale(rows, uid, "in", 7) && Reinstalled(rows, uid, world)(back);
    assert gone in rows && !AllAppsKnown(rows, uid, world);
    ReinstallCheckGivesUpExactly(rows, uid, world);
    WithoutMember(rows, Uninstalled(uid, world), back);
    var kept := Without(rows, Uninstalled(uid, world));
    forall r: Row | r in kept ensures r == back {
      WithoutMember(rows, Uninstalled(uid, world), r);
    }
    assert AllAppsKnown(kept, uid, world);
    assert OfApp(uid, "in")(back) && Stale(kept, uid, "in", 7);
    assert Reinstalled(kept, uid, world)(back);
    WithoutMember(kept, Reinstalled(kept, uid, world), back);
    assert back in Without(DropReinstalled(rows, uid, world), Uninstalled(uid, world));
    assert back !in DropReinstalled(kept, uid, world);
  }

  /// Grants and the reinstall check

  // A grant just made stays through the reinstall check exactly when the check gives up on some app of the user, or the
  // app is still installed at the time the grant names and so say the app's other rows.
  lemma {:induction false} ReinstallCheckKeepsGrantExactly(ops: seq<Op>, grant: Op, world: World)
    requires grant.Grant?
    ensures var uid, app := grant.key.uid, grant.key.bundleName;
            var rows := Run(ops + [grant]);
            Row(grant.key, AppInfo(grant.installTime, grant.updateTime, grant.now, 0x0FFF_FFFF)) in
              DropReinstalled(rows, uid, world) <==>
            || !AllAppsKnown(rows, uid, world)
            || (&& world.installTime(uid, app) == Some(grant.installTime)
                && forall r :: r in Run(ops) && r.key.uid == uid && r.key.bundleName == app && r.key != grant.key ==>
                     r.info.installTime == grant.installTime)
  {
    var uid, app := grant.key.uid, grant.key.bundleName;
    var rows, info := Run(ops + [grant]), AppInfo(grant.installTime, grant.updateTime, grant.now, 0x0FFF_FFFF);
    assert (ops + [grant])[..|ops|] == ops;
    RunKeepsTable(ops);
    GrantChangesOneKey(Run(ops), grant.key, info);
    WithoutMember(rows, Reinstalled(rows, uid, world), Row(grant.key, info));
    assert OfApp(uid, app)(Row(grant.key, info));
    if AllAppsKnown(rows, uid, world) {
      StaleExactly(Run(ops), rows, grant.key, info, world.installTime(uid, app).value);
    }
  }

  lemma StaleExactly(before: seq<Row>, after: seq<Row>, key: Key, info: AppInfo, time: Seconds)
    requires forall r :: r in after <==> r == Row(key, info) || (r in before && r.key != key)
    ensures Stale(after, key.uid, key.bundleName, time) <==>
            || info.installTime != time
            || exists r :: && r in before && r.key.uid == key.uid && r.key.bundleName == key.bundleName && r.key != key
                           && r.info.installTime != time
  {
    if info.installTime != time {
      assert OfApp(key.uid, key.bundleName)(Row(key, info));
    }
    if r :| && r in before && r.key.uid == key.uid && r.key.bundleName == key.bundleName && r.key != key
            && r.info.installTime != time {
      assert OfApp(key.uid, key.bundleName)(r);
    }
  }
}
