/** What holds over every run of grants, deletions and expiry sweeps. */
module RightRuns {
  import opened RightManager
  import opened RightTable
  import opened Sequences
  import opened UsbModel

  // One change of the table. Every deletion of the helper is a Delete, the tidy-up included (TidyUpIsOneDeletion).
  datatype Op =
    | Grant(key: Key, installTime: Seconds, updateTime: Seconds, now: Seconds)
    | Delete(where_: Row -> bool)
    | Sweep(uid: int32, now: Seconds)

  function Apply(rows: seq<Row>, op: Op): seq<Row>
  {
    match op
    case Grant(key, installTime, updateTime, now) => AddOrUpdate(rows, key, GrantInfo(installTime, updateTime, now))
    case Delete(where_) => Without(rows, where_)
    case Sweep(uid, now) => Without(rows, NormalExpired(uid, now))
  }

  // The table after a run that starts from the empty one.
  function Run(ops: seq<Op>): seq<Row>
  {
    if ops == [] then [] else Apply(Run(ops[..|ops| - 1]), ops[|ops| - 1])
  }

  // A register for one key: what the last grant stored, until a deletion selects it.
  function Held(ops: seq<Op>, key: Key): Option<AppInfo>
  {
    if ops == [] then None
    else HeldAfter(Held(ops[..|ops| - 1], key), ops[|ops| - 1], key)
  }

  function HeldAfter(held: Option<AppInfo>, op: Op, key: Key): Option<AppInfo>
  {
    match op
    case Grant(k, installTime, updateTime, now) =>
      if k == key
      then Some(AppInfo(installTime := installTime, updateTime := updateTime, requestTime := now,
                        validPeriod := 0x0FFF_FFFF))
      else held
    case Delete(where_) => Unless(held, where_, key)
    case Sweep(uid, now) => Unless(held, NormalExpired(uid, now), key)
  }

  function Unless(held: Option<AppInfo>, where_: Row -> bool, key: Key): Option<AppInfo>
  {
    if held.Some? && where_(Row(key, held.value)) then None else held
  }

  /// One row per key

  predicate UniqueKeys(rows: seq<Row>)
  {
    forall i, j :: 0 <= i < j < |rows| ==> rows[i].key != rows[j].key
  }

  predicate FixedPeriod(rows: seq<Row>)
  {
    forall r :: r in rows ==> r.info.validPeriod == USB_RIGHT_VALID_PERIOD_SET
  }

  lemma {:induction false} KeepIfKeepsUnique(rows: seq<Row>, p: Row -> bool)
    requires UniqueKeys(rows)
    ensures UniqueKeys(KeepIf(rows, p))
  {
    if rows != [] {
      var rest := KeepIf(rows[1..], p);
      KeepIfKeepsUnique(rows[1..], p);
      forall r | r in rest ensures r.key != rows[0].key {
        KeepIfMember(rows[1..], p, r);
      }
    }
  }

  // A grant stores the new row and leaves every other key's row as it was.
  lemma GrantChangesOneKey(rows: seq<Row>, key: Key, info: AppInfo)
    requires UniqueKeys(rows)
    ensures UniqueKeys(AddOrUpdate(rows, key, info))
    ensures forall r :: r in AddOrUpdate(rows, key, info) <==> r == Row(key, info) || (r in rows && r.key != key)
  {
    var after := AddOrUpdate(rows, key, info);
    assert forall i :: 0 <= i < |rows| ==> after[i].key == rows[i].key;
    forall r: Row ensures r in after <==> r == Row(key, info) || (r in rows && r.key != key) {
      if HasKey(rows, key) {
        var at :| 0 <= at < |rows| && rows[at].key == key;
        assert after[at] == Row(key, info);
        assert forall i :: 0 <= i < |rows| && rows[i].key != key ==> after[i] == rows[i];
      }
    }
  }

  // Over every run the table has at most one row per key, and every stored period is the fixed one.
  lemma {:induction false} RunKeepsTable(ops: seq<Op>)
    ensures UniqueKeys(Run(ops)) && FixedPeriod(Run(ops))
  {
    if ops != [] {
      var before, op := Run(ops[..|ops| - 1]), ops[|ops| - 1];
      RunKeepsTable(ops[..|ops| - 1]);
      match op
      case Grant(key, installTime, updateTime, now) =>
        GrantChangesOneKey(before, key, GrantInfo(installTime, updateTime, now));
      case Delete(where_) => DeletionKeepsTable(before, where_);
      case Sweep(uid, now) => DeletionKeepsTable(before, NormalExpired(uid, now));
    }
  }

  lemma DeletionKeepsTable(rows: seq<Row>, where_: Row -> bool)
    requires UniqueKeys(rows) && FixedPeriod(rows)
    ensures UniqueKeys(Without(rows, where_)) && FixedPeriod(Without(rows, where_))
  {
    var keep := (r: Row) => !where_(r);
    KeepIfKeepsUnique(rows, keep);
    WithoutAsKeepIf(rows, where_, keep);
    forall r | r in Without(rows, where_) ensures r in rows {
      WithoutMember(rows, where_, r);
    }
  }

  // The table is a collection of registers: a key's row is exactly what its register holds.
  lemma {:induction false} RunIsRegisters(ops: seq<Op>, key: Key, info: AppInfo)
    ensures Row(key, info) in Run(ops) <==> Held(ops, key) == Some(info)
  {
    if ops != [] {
      var prefix, op := ops[..|ops| - 1], ops[|ops| - 1];
      RunIsRegisters(prefix, key, info);
      RunKeepsTable(prefix);
      match op
      case Grant(k, installTime, updateTime, now) =>
        GrantChangesOneKey(Run(prefix), k, GrantInfo(installTime, updateTime, now));
      case Delete(where_) => WithoutMember(Run(prefix), where_, Row(key, info));
      case Sweep(uid, now) => WithoutMember(Run(prefix), NormalExpired(uid, now), Row(key, info));
    }
  }

  // A key has expired exactly when its register is empty or holds an expired grant.
  lemma {:induction false} ExpiredExactly(ops: seq<Op>, key: Key, now: Seconds)
    ensures IsExpired(Run(ops), key, now) <==> Held(ops, key).None? || IsInfoExpired(Held(ops, key).value, now)
  {
    var rows := Run(ops);
    forall i | 0 <= i < |rows| && rows[i].key == key ensures Held(ops, key) == Some(rows[i].info) {
      assert rows[i] == Row(key, rows[i].info);
      RunIsRegisters(ops, key, rows[i].info);
    }
    if Held(ops, key).Some? {
      RunIsRegisters(ops, key, Held(ops, key).value);
    }
  }

  // On any table, stored periods of every kind included: a key has not expired exactly when some row of it was requested
  // by now and either has one of the two periods without an end or is not over.
  lemma NotExpiredExactly(rows: seq<Row>, key: Key, now: Seconds)
    ensures !IsExpired(rows, key, now) <==>
            exists r :: && r in rows && r.key == key && r.info.requestTime <= now
                        && (|| r.info.validPeriod == 0 || r.info.validPeriod == 0xFFFF_FFFF
                            || now < r.info.requestTime + r.info.validPeriod)
  {
    if !IsExpired(rows, key, now) {
      var i :| 0 <= i < |rows| && rows[i].key == key && !IsInfoExpired(rows[i].info, now);
      assert rows[i] in rows;
    }
  }

  /// Answers of HasRight

  // The change neither grants the key again nor removes it, and sweeps its user at time t or earlier.
  ghost predicate LeavesAlone(op: Op, key: Key, t: Seconds)
  {
    match op
    case Grant(k, _, _, _) => k != key
    case Delete(where_) => forall info :: !where_(Row(key, info))
    case Sweep(uid, now) => uid != key.uid || now <= t
  }

  // After such changes the register still holds the grant of time s, or the grant is over at t.
  lemma {:induction false} GrantStaysHeld(before: seq<Op>, grant: Op, after: seq<Op>, t: Seconds)
    requires grant.Grant?
    requires forall op :: op in after ==> LeavesAlone(op, grant.key, t)
    ensures var held := Held(before + [grant] + after, grant.key);
            var info := GrantInfo(grant.installTime, grant.updateTime, grant.now);
            held == Some(info) || (held.None? && grant.now < SweepThreshold(t))
  {
    var ops := before + [grant] + after;
    if after == [] {
      assert ops[..|ops| - 1] == before;
    } else {
      var last := after[|after| - 1];
      assert ops[..|ops| - 1] == before + [grant] + after[..|after| - 1];
      assert last in after && LeavesAlone(last, grant.key, t);
      GrantStaysHeld(before, grant, after[..|after| - 1], t);
    }
  }

  // A right granted at s to a user, and not removed since, answers true at t exactly while s <= t < s + SET and the
  // sweep inside the check, when it concerns that user, reads a clock no later than s + SET.
  lemma {:induction false} HasRightExactly(before: seq<Op>, grant: Op, after: seq<Op>, caller: int32, t: Seconds, sweepTime: Seconds)
    requires grant.Grant? && grant.key.uid != USB_RIGHT_USERID_CONSOLE
    requires forall op :: op in after ==> LeavesAlone(op, grant.key, t)
    ensures Right(Run(before + [grant] + after), grant.key, caller, t, sweepTime) <==>
            && grant.now <= t < grant.now + USB_RIGHT_VALID_PERIOD_SET
            && (caller != grant.key.uid || sweepTime <= grant.now + USB_RIGHT_VALID_PERIOD_SET)
  {
    var ops := before + [grant] + after;
    GrantStaysHeld(before, grant, after, t);
    if caller == USB_RIGHT_USERID_CONSOLE {
      ExpiredExactly(ops, grant.key, t);
    } else {
      var swept := ops + [Sweep(caller, sweepTime)];
      assert swept[..|swept| - 1] == ops;
      ExpiredExactly(swept, grant.key, t);
    }
  }

  // Removing the key, or any deletion that selects it, ends the right until it is granted again.
  lemma {:induction false} RemovedHasNoRight(ops: seq<Op>, key: Key, where_: Row -> bool, caller: int32, t: Seconds, sweepTime: Seconds)
    requires key.uid != USB_RIGHT_USERID_CONSOLE
    requires forall info :: where_(Row(key, info))
    ensures !Right(Run(ops + [Delete(where_)]), key, caller, t, sweepTime)
  {
    var removed := ops + [Delete(where_)];
    assert removed[..|removed| - 1] == ops;
    ExpiredExactly(removed, key, t);
    var swept := removed + [Sweep(caller, sweepTime)];
    assert swept[..|swept| - 1] == removed;
    ExpiredExactly(swept, key, t);
  }

  // No user's right depends on what is granted or removed under other keys.
  lemma {:induction false} OtherKeysUntouched(ops: seq<Op>, op: Op, key: Key, t: Seconds)
    requires match op
             case Grant(k, _, _, _) => k != key
             case Delete(where_) => forall info :: !where_(Row(key, info))
             case Sweep(uid, _) => uid != key.uid
    ensures IsExpired(Run(ops + [op]), key, t) == IsExpired(Run(ops), key, t)
  {
    assert (ops + [op])[..|ops|] == ops;
    ExpiredExactly(ops, key, t);
    ExpiredExactly(ops + [op], key, t);
  }

  /// The expiry sweep is invisible

  // In every reachable table the sweep changes no answer at its own clock reading or any later one.
  lemma {:induction false} SweepIsInvisible(ops: seq<Op>, uid: int32, sweepTime: Seconds, key: Key, t: Seconds)
    requires sweepTime <= t
    ensures IsExpired(Without(Run(ops), NormalExpired(uid, sweepTime)), key, t) == IsExpired(Run(ops), key, t)
  {
    var rows, p := Run(ops), NormalExpired(uid, sweepTime);
    RunKeepsTable(ops);
    var swept := Without(rows, p);
    forall r: Row ensures r in swept <==> r in rows && !p(r) {
      WithoutMember(rows, p, r);
    }
    assert forall r :: r in rows && p(r) ==> IsInfoExpired(r.info, t);
    if !IsExpired(rows, key, t) {
      var i :| 0 <= i < |rows| && rows[i].key == key && !IsInfoExpired(rows[i].info, t);
      assert rows[i] in swept;
    }
  }

  // Rows with any stored period: a sweep only ever drops this row once it has expired, exactly when its period is at
  // most one second longer than the fixed one or the sweep never selects it.
  lemma SweepDropsOnlyExpiredExactly(r: Row)
    requires r.info.requestTime + USB_RIGHT_VALID_PERIOD_SET + 1 < 0x8000_0000_0000_0000
    ensures (forall now: Seconds :: NormalExpired(r.key.uid, now)(r) ==> IsInfoExpired(r.info, now)) <==>
            || r.info.validPeriod <= USB_RIGHT_VALID_PERIOD_SET + 1
            || r.info.validPeriod == USB_RIGHT_VALID_PERIOD_MAX
  {
    var firstSwept: Seconds := r.info.requestTime + USB_RIGHT_VALID_PERIOD_SET + 1;
    if r.info.validPeriod > USB_RIGHT_VALID_PERIOD_SET + 1 && r.info.validPeriod != USB_RIGHT_VALID_PERIOD_MAX {
      assert NormalExpired(r.key.uid, firstSwept)(r) && !IsInfoExpired(r.info, firstSwept);
    }
  }
}
