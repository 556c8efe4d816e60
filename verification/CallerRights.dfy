/** What the service's rights achieve for its callers: exactly when a caller has a right, what removing one does, and
    what an unplugged device leaves in the table. */
module CallerRights {
  import opened BitMask
  import opened RightManager
  import opened RightRuns
  import opened RightTable
  import opened Sequences
  import opened TidyUpLaws
  import opened UsbModel
  import opened UsbService

  /// Having a right

  // The register holds a grant made at or before now and less than the fixed period ago.
  predicate IsLive(held: Option<AppInfo>, now: Seconds)
  {
    held.Some? && held.value.requestTime <= now < held.value.requestTime + 0x0FFF_FFFF
  }

  // A sweep for some user, at some clock reading, leaves the grant alone.
  predicate IsSpared(info: AppInfo, uid: int32, user: int32, sweep: Seconds)
  {
    user != uid || sweep <= info.requestTime + 0x0FFF_FFFF
  }

  function Swept(ops: seq<Op>, user: int32, sweepTime: Seconds): seq<Op>
  {
    if user == USB_RIGHT_USERID_CONSOLE then ops else ops + [Sweep(user, sweepTime)]
  }

  lemma SweptIsAfterSweep(ops: seq<Op>, user: int32, sweepTime: Seconds)
    ensures Run(Swept(ops, user, sweepTime)) == AfterSweep(Run(ops), user, sweepTime)
  {
    assert (ops + [Sweep(user, sweepTime)])[..|ops|] == ops;
  }

  lemma {:induction false} HeldPeriod(ops: seq<Op>, key: Key)
    ensures Held(ops, key).Some? ==> Held(ops, key).value.validPeriod == 0x0FFF_FFFF
  {
    if Held(ops, key).Some? {
      RunIsRegisters(ops, key, Held(ops, key).value);
      RunKeepsTable(ops);
    }
  }

  lemma HeldAfterSweep(ops: seq<Op>, key: Key, user: int32, sweepTime: Seconds)
    requires key.uid != USB_RIGHT_USERID_CONSOLE
    ensures var held := Held(ops, key);
            Held(Swept(ops, user, sweepTime), key) ==
            if held.Some? && IsSpared(held.value, key.uid, user, sweepTime) then held else None
  {
    HeldPeriod(ops, key);
    if user != USB_RIGHT_USERID_CONSOLE {
      assert (ops + [Sweep(user, sweepTime)])[..|ops|] == ops;
    }
  }

  // One key: the right holds exactly when the register holds a live grant that the check's own sweep spares.
  lemma {:induction false} KeyHasRight(ops: seq<Op>, key: Key, user: int32, now: Seconds, sweep: Seconds)
    requires key.uid != USB_RIGHT_USERID_CONSOLE
    ensures var held := Held(ops, key);
            Right(Run(ops), key, user, now, sweep) <==> IsLive(held, now) && IsSpared(held.value, key.uid, user, sweep)
  {
    SweptIsAfterSweep(ops, user, sweep);
    HeldAfterSweep(ops, key, user, sweep);
    HeldPeriod(ops, key);
    ExpiredExactly(Swept(ops, user, sweep), key, now);
  }

  // In every reachable table a caller that is not the console has the right exactly when the register of its own token
  // holds a live grant that the first sweep spares, or that of the default token one that both sweeps spare.
  lemma {:induction false} CallerHasRightExactly(ops: seq<Op>, device: string, caller: Caller, user: int32, clock: Clock)
    requires caller.userId != 0
    ensures var uid := caller.userId;
            var own := Held(ops, Key(uid, device, caller.bundleName, caller.tokenId));
            var default_ := Held(ops, Key(uid, device, caller.bundleName, "UsbServiceTokenId"));
            CallerHasRight(Run(ops), device, caller, user, clock) <==>
            || (IsLive(own, clock.now) && IsSpared(own.value, uid, user, clock.sweep))
            || (&& IsLive(default_, clock.laterNow)
                && IsSpared(default_.value, uid, user, clock.sweep) && IsSpared(default_.value, uid, user, clock.laterSweep))
  {
    var own, default_ := OwnKey(device, caller), DefaultKey(device, caller);
    KeyHasRight(ops, own, user, clock.now, clock.sweep);
    SweptIsAfterSweep(ops, user, clock.sweep);
    HeldAfterSweep(ops, default_, user, clock.sweep);
    KeyHasRight(Swept(ops, user, clock.sweep), default_, user, clock.laterNow, clock.laterSweep);
  }

  // So a grant under either token suffices while it lasts, if it is neither removed nor repeated and no earlier sweep of
  // its user came after its period.
  lemma {:induction false} EitherGrantSuffices(before: seq<Op>, grant: Op, after: seq<Op>, device: string, caller: Caller,
                                               user: int32, clock: Clock, t: Seconds)
    requires caller.userId != 0 && grant.Grant?
    requires grant.key == Key(caller.userId, device, caller.bundleName, caller.tokenId) ||
             grant.key == Key(caller.userId, device, caller.bundleName, "UsbServiceTokenId")
    requires t <= grant.now + 0x0FFF_FFFF && forall op :: op in after ==> LeavesAlone(op, grant.key, t)
    requires grant.now <= clock.now < grant.now + 0x0FFF_FFFF && grant.now <= clock.laterNow < grant.now + 0x0FFF_FFFF
    requires clock.sweep <= grant.now + 0x0FFF_FFFF && clock.laterSweep <= grant.now + 0x0FFF_FFFF
    ensures CallerHasRight(Run(before + [grant] + after), device, caller, user, clock)
  {
    GrantStaysHeld(before, grant, after, t);
    CallerHasRightExactly(before + [grant] + after, device, caller, user, clock);
  }

  // A check changes no later answer: what it sweeps had expired.
  lemma {:induction false} ChecksChangeNoAnswer(ops: seq<Op>, device: string, caller: Caller, user: int32, clock: Clock,
                                                key: Key, t: Seconds)
    requires clock.sweep <= t && clock.laterSweep <= t
    ensures IsExpired(AfterChecks(Run(ops), device, caller, user, clock), key, t) == IsExpired(Run(ops), key, t)
  {
    if user != USB_RIGHT_USERID_CONSOLE {
      SweptIsAfterSweep(ops, user, clock.sweep);
      SweepIsInvisible(ops, user, clock.sweep, key, t);
      SweepIsInvisible(Swept(ops, user, clock.sweep), user, clock.laterSweep, key, t);
    }
  }

  /// Removing rights

  lemma KeyGone(rows: seq<Row>, key: Key, other: Key)
    ensures HasKey(Without(rows, OfKey(key)), other) <==> other != key && HasKey(rows, other)
  {
    var after := Without(rows, OfKey(key));
    forall r: Row ensures r in after <==> r in rows && r.key != key {
      WithoutMember(rows, OfKey(key), r);
    }
    if i :| 0 <= i < |after| && after[i].key == other {
      assert after[i] in rows;
    }
    if i :| 0 <= i < |rows| && rows[i].key == other {
      assert rows[i] in after <==> other != key;
    }
  }

  lemma {:induction false} OneRowGone(rows: seq<Row>, key: Key)
    requires UniqueKeys(rows) && HasKey(rows, key)
    ensures |Without(rows, OfKey(key))| == |rows| - 1
  {
    if rows[0].key == key {
      assert !HasKey(rows[1..], key);
      WithoutKeyAbsent(rows[1..], key);
    } else {
      var i :| 0 <= i < |rows| && rows[i].key == key;
      assert rows[1..][i - 1].key == key;
      OneRowGone(rows[1..], key);
    }
  }

  // In a reachable table, for a caller that is not the console: removal succeeds exactly when one of the caller's two
  // rows exists, and then deletes exactly one row: its own one if there is one, and otherwise the default one.
  lemma {:induction false} RemovalDeletesOneRow(ops: seq<Op>, device: string, caller: Caller)
    requires caller.userId != 0
    ensures var rows := Run(ops);
            var after := AfterRemoval(rows, device, caller);
            var own := Key(caller.userId, device, caller.bundleName, caller.tokenId);
            var default_ := Key(caller.userId, device, caller.bundleName, "UsbServiceTokenId");
            && (RemovalResult(rows, device, caller) == UEC_OK <==> HasKey(rows, own) || HasKey(rows, default_))
            && (RemovalResult(rows, device, caller) != UEC_OK ==> after == rows)
            && |after| == |rows| - (if RemovalResult(rows, device, caller) == UEC_OK then 1 else 0)
            && (forall r :: r in after <==> r in rows && r.key != if HasKey(rows, own) then own else default_)
  {
    var rows := Run(ops);
    RunKeepsTable(ops);
    var key := if HasKey(rows, OwnKey(device, caller)) then OwnKey(device, caller) else DefaultKey(device, caller);
    forall r: Row ensures r in AfterRemoval(rows, device, caller) <==> r in rows && r.key != key {
      WithoutMember(rows, OfKey(key), r);
    }
    if HasKey(rows, key) {
      OneRowGone(rows, key);
    } else {
      WithoutKeyAbsent(rows, key);
    }
  }

  // The console has every right, and its removals succeed and change nothing.
  lemma ConsoleHasEveryRight(rows: seq<Row>, device: string, caller: Caller, user: int32, clock: Clock)
    requires caller.userId == 0
    ensures CallerHasRight(rows, device, caller, user, clock)
    ensures RemovalResult(rows, device, caller) == UEC_OK && AfterRemoval(rows, device, caller) == rows
    ensures AfterChecks(rows, device, caller, user, clock) == rows
  {
  }

  lemma NoRowNoRight(rows: seq<Row>, key: Key, user: int32, now: Seconds, sweepTime: Seconds)
    requires key.uid != USB_RIGHT_USERID_CONSOLE && !HasKey(rows, key)
    ensures !Right(rows, key, user, now, sweepTime)
    ensures !HasKey(AfterSweep(rows, user, sweepTime), key)
  {
    var swept := AfterSweep(rows, user, sweepTime);
    forall i | 0 <= i < |swept| ensures swept[i].key != key {
      if user != USB_RIGHT_USERID_CONSOLE {
        WithoutMember(rows, NormalExpired(user, sweepTime), swept[i]);
      }
      assert swept[i] in rows;
    }
  }

  lemma NoKeysNoRight(rows: seq<Row>, device: string, caller: Caller, user: int32, clock: Clock)
    requires caller.userId != USB_RIGHT_USERID_CONSOLE
    requires !HasKey(rows, OwnKey(device, caller)) && !HasKey(rows, DefaultKey(device, caller))
    ensures !CallerHasRight(rows, device, caller, user, clock)
  {
    NoRowNoRight(rows, OwnKey(device, caller), user, clock.now, clock.sweep);
    NoRowNoRight(rows, DefaultKey(device, caller), user, clock.now, clock.sweep);
    NoRowNoRight(AfterSweep(rows, user, clock.sweep), DefaultKey(device, caller), user, clock.laterNow, clock.laterSweep);
  }

  // After two removals the caller has no right on the device, whatever the table held and whatever the clocks read.
  lemma {:induction false} TwoRemovalsEndTheRight(rows: seq<Row>, device: string, caller: Caller, user: int32, clock: Clock)
    requires caller.userId != USB_RIGHT_USERID_CONSOLE
    ensures !CallerHasRight(AfterRemoval(AfterRemoval(rows, device, caller), device, caller), device, caller, user, clock)
  {
    var own, default_ := OwnKey(device, caller), DefaultKey(device, caller);
    var once := AfterRemoval(rows, device, caller);
    var twice := AfterRemoval(once, device, caller);
    KeyGone(rows, own, own);
    KeyGone(rows, own, default_);
    KeyGone(rows, default_, own);
    KeyGone(rows, default_, default_);
    KeyGone(once, own, own);
    KeyGone(once, own, default_);
    KeyGone(once, default_, own);
    KeyGone(once, default_, default_);
    NoKeysNoRight(twice, device, caller, user, clock);
  }

  // One removal is enough exactly when the caller did not hold both rows.
  lemma OneRemovalSuffices(rows: seq<Row>, device: string, caller: Caller)
    requires caller.userId != USB_RIGHT_USERID_CONSOLE && caller.tokenId != USB_DEFAULT_TOKEN
    ensures var own, default_ := OwnKey(device, caller), DefaultKey(device, caller);
            var once := AfterRemoval(rows, device, caller);
            !HasKey(once, own) && !HasKey(once, default_) <==> !(HasKey(rows, own) && HasKey(rows, default_))
  {
    var own, default_ := OwnKey(device, caller), DefaultKey(device, caller);
    KeyGone(rows, own, own);
    KeyGone(rows, own, default_);
    KeyGone(rows, default_, own);
    KeyGone(rows, default_, default_);
  }

  /// Unplugging

  // What the service's DelDevice leaves in the table, for the device's vendor-product-serial name.
  function AfterUnplugging(rows: seq<Row>, device: string, user: int32, now: Seconds, world: World): seq<Row>
  {
    Tidied(Without(rows, OfPeriod(USB_RIGHT_VALID_PERIOD_MIN, device)), TIGHT_UP_ALL, user, now, world)
  }

  // The row ends with the device: a temporary one on it.
  predicate IsTemporaryOn(r: Row, device: string)
  {
    r.info.validPeriod == 0 && r.key.deviceName == device
  }

  // Exactly the temporary rows on the unplugged device go; of the others, those that the whole tidy-up keeps stay.
  lemma UnpluggingKeepsExactly(rows: seq<Row>, device: string, user: int32, now: Seconds, world: World, r: Row)
    ensures var rest := Without(rows, OfPeriod(USB_RIGHT_VALID_PERIOD_MIN, device));
            r in AfterUnplugging(rows, device, user, now, world) <==>
            && r in rows && !IsTemporaryOn(r, device)
            && (user != 0 ==>
                && Stays(r, 15, user, now, world)
                && (r.key.uid == user && AllStayingKnown(rest, 15, user, now, world) ==>
                    forall other :: && other in rows && !IsTemporaryOn(other, device) && SameApp(other, r)
                                    && Stays(other, 15, user, now, world) ==>
                      Some(other.info.installTime) == world.installTime(user, r.key.bundleName)))
    ensures forall o :: o in Without(rows, OfPeriod(USB_RIGHT_VALID_PERIOD_MIN, device)) <==>
                        o in rows && !IsTemporaryOn(o, device)
  {
    var rest := Without(rows, OfPeriod(USB_RIGHT_VALID_PERIOD_MIN, device));
    forall o: Row ensures o in rest <==> o in rows && !IsTemporaryOn(o, device) {
      WithoutMember(rows, OfPeriod(USB_RIGHT_VALID_PERIOD_MIN, device), o);
    }
    TidyUpKeepsExactly(rest, TIGHT_UP_ALL, user, now, world, r);
    AllBits();
  }

  lemma AllBits()
    ensures Bit(15, 0) && Bit(15, 1) && Bit(15, 2) && Bit(15, 3)
  {
    assert Bit(7, 0) && Bit(3, 0) && Bit(1, 0) && Bit(7, 1) && Bit(3, 1) && Bit(7, 2);
  }
}
