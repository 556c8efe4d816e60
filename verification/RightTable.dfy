/** The table of granted rights and the helper that queries and changes it. The SQL engine is a sequence of rows:
    a query or a deletion keeps the rows its condition selects, in order. */
module RightTable {
  import opened Sequences
  import opened UsbModel

  // Clock readings and periods, in whole seconds; the clock is taken to read 1970 or later.
  type Seconds = t: int | 0 <= t < 0x8000_0000_0000_0000

  const USB_RIGHT_VALID_PERIOD_MIN: Seconds := 0
  const USB_RIGHT_VALID_PERIOD_MAX: Seconds := 0xFFFF_FFFF
  const USB_RIGHT_VALID_PERIOD_SET: Seconds := 0x0FFF_FFFF

  const USB_RIGHT_OK := 0
  const USB_RIGHT_RDB_EMPTY := -4

  datatype Key = Key(uid: int32, deviceName: string, bundleName: string, tokenId: string)

  datatype AppInfo = AppInfo(installTime: Seconds, updateTime: Seconds, requestTime: Seconds, validPeriod: Seconds)

  datatype Row = Row(key: Key, info: AppInfo)

  /// Decisions on one row

  predicate IsInfoExpired(info: AppInfo, now: Seconds)
  {
    if now < info.requestTime then true
    else if info.validPeriod == USB_RIGHT_VALID_PERIOD_MIN then false
    else if info.validPeriod == USB_RIGHT_VALID_PERIOD_MAX then false
    else if now - info.requestTime < info.validPeriod then false
    else true
  }

  // The subtraction is guarded, so it never goes below zero.
  function SweepThreshold(now: Seconds): Seconds
  {
    if now <= USB_RIGHT_VALID_PERIOD_SET then 0 else now - USB_RIGHT_VALID_PERIOD_SET
  }

  /// The conditions of the queries and deletions

  function OfKey(key: Key): Row -> bool { (r: Row) => r.key == key }

  function OfUser(uid: int32): Row -> bool { (r: Row) => r.key.uid == uid }

  function OfApp(uid: int32, bundleName: string): Row -> bool
  {
    (r: Row) => r.key.uid == uid && r.key.bundleName == bundleName
  }

  function OfApps(uid: int32, bundleNames: seq<string>): Row -> bool
  {
    (r: Row) => r.key.uid == uid && r.key.bundleName in bundleNames
  }

  function NormalExpired(uid: int32, now: Seconds): Row -> bool
  {
    (r: Row) =>
      && r.key.uid == uid && r.info.requestTime < SweepThreshold(now)
      && r.info.validPeriod != USB_RIGHT_VALID_PERIOD_MIN && r.info.validPeriod != USB_RIGHT_VALID_PERIOD_MAX
  }

  function OfPeriod(validPeriod: Seconds, deviceName: string): Row -> bool
  {
    (r: Row) => r.info.validPeriod == validPeriod && r.key.deviceName == deviceName
  }

  /// Tables

  predicate HasKey(rows: seq<Row>, key: Key)
  {
    exists i :: 0 <= i < |rows| && rows[i].key == key
  }

  // The answer of IsRecordExpired: no row of the key is live.
  predicate IsExpired(rows: seq<Row>, key: Key, now: Seconds)
  {
    forall i :: 0 <= i < |rows| && rows[i].key == key ==> IsInfoExpired(rows[i].info, now)
  }

  function Replace(rows: seq<Row>, key: Key, info: AppInfo): (replaced: seq<Row>)
    ensures |replaced| == |rows|
  {
    seq(|rows|, i requires 0 <= i < |rows| => if rows[i].key == key then Row(key, info) else rows[i])
  }

  function AddOrUpdate(rows: seq<Row>, key: Key, info: AppInfo): seq<Row>
  {
    if HasKey(rows, key) then Replace(rows, key, info) else rows + [Row(key, info)]
  }

  lemma RowsOfKey(rows: seq<Row>, key: Key)
    ensures KeepIf(rows, OfKey(key)) != [] <==> HasKey(rows, key)
    ensures forall r :: r in KeepIf(rows, OfKey(key)) <==> r in rows && r.key == key
  {
    forall r: Row ensures r in KeepIf(rows, OfKey(key)) <==> r in rows && r.key == key {
      KeepIfMember(rows, OfKey(key), r);
    }
    if KeepIf(rows, OfKey(key)) != [] {
      assert KeepIf(rows, OfKey(key))[0] in rows;
    }
    if i :| 0 <= i < |rows| && rows[i].key == key {
      assert rows[i] in KeepIf(rows, OfKey(key));
    }
  }

  /// The helper

  class UsbRightDbHelper {
    var rows: seq<Row>

    constructor ()
      ensures rows == []
    {
      rows := [];
    }

    method IsRecordExpired(key: Key, expiredTime: Seconds) returns (expired: bool)
      ensures expired == IsExpired(rows, key, expiredTime)
    {
      RowsOfKey(rows, key);
      var infos := KeepIf(rows, OfKey(key));
      if |infos| <= 0 {
        return true;
      }
      for i := 0 to |infos|
        invariant forall k :: 0 <= k < i ==> IsInfoExpired(infos[k].info, expiredTime)
      {
        if !IsInfoExpired(infos[i].info, expiredTime) {
          assert infos[i] in rows;
          return false;
        }
      }
      return true;
    }

    method AddOrUpdateRightRecord(key: Key, info: AppInfo) returns (ret: int)
      modifies this
      ensures ret == USB_RIGHT_OK && rows == AddOrUpdate(old(rows), key, info)
    {
      RowsOfKey(rows, key);
      var isUpdate := |KeepIf(rows, OfKey(key))| > 0;
      if isUpdate {
        rows := Replace(rows, key, info);
      } else {
        rows := rows + [Row(key, info)];
      }
      return USB_RIGHT_OK;
    }

    // A transaction that deletes the selected rows; it reports when there were none.
    method DeleteAndNoOtherOperation(where_: Row -> bool) returns (ret: int)
      modifies this
      ensures rows == Without(old(rows), where_)
      ensures forall r :: r in rows <==> r in old(rows) && !where_(r)
      ensures ret == if exists r :: r in old(rows) && where_(r) then USB_RIGHT_OK else USB_RIGHT_RDB_EMPTY
    {
      var deleted := KeepIf(rows, where_);
      forall r: Row ensures r in deleted <==> r in rows && where_(r) {
        KeepIfMember(rows, where_, r);
      }
      WithoutMembers(rows, where_);
      var changedRows := |deleted|;
      assert changedRows > 0 ==> deleted[0] in rows && where_(deleted[0]);
      rows := Without(rows, where_);
      if changedRows <= 0 {
        return USB_RIGHT_RDB_EMPTY;
      }
      return USB_RIGHT_OK;
    }

    method DeleteRightRecord(key: Key) returns (ret: int)
      modifies this
      ensures rows == Without(old(rows), OfKey(key))
      ensures forall r :: r in rows <==> r in old(rows) && r.key != key
      ensures ret == if HasKey(old(rows), key) then USB_RIGHT_OK else USB_RIGHT_RDB_EMPTY
    {
      ghost var before := rows;
      ret := DeleteAndNoOtherOperation(OfKey(key));
      assert HasKey(before, key) <==> exists r :: r in before && r.key == key;
    }

    method DeleteAppRightRecord(uid: int32, bundleName: string) returns (ret: int)
      modifies this
      ensures rows == Without(old(rows), OfApp(uid, bundleName))
      ensures forall r :: r in rows <==> r in old(rows) && !(r.key.uid == uid && r.key.bundleName == bundleName)
      ensures ret == if exists r :: r in old(rows) && OfApp(uid, bundleName)(r) then USB_RIGHT_OK else USB_RIGHT_RDB_EMPTY
    {
      ret := DeleteAndNoOtherOperation(OfApp(uid, bundleName));
    }

    // The IN condition on an empty list selects nothing; this form does not report an empty deletion.
    method DeleteAppsRightRecord(uid: int32, bundleNames: seq<string>) returns (ret: int)
      modifies this
      ensures rows == Without(old(rows), OfApps(uid, bundleNames)) && ret == USB_RIGHT_OK
      ensures forall r :: r in rows <==> r in old(rows) && !(r.key.uid == uid && r.key.bundleName in bundleNames)
    {
      WithoutMembers(rows, OfApps(uid, bundleNames));
      rows := Without(rows, OfApps(uid, bundleNames));
      return USB_RIGHT_OK;
    }

    method DeleteUidRightRecord(uid: int32) returns (ret: int)
      modifies this
      ensures rows == Without(old(rows), OfUser(uid))
      ensures forall r :: r in rows <==> r in old(rows) && r.key.uid != uid
      ensures ret == if exists r :: r in old(rows) && OfUser(uid)(r) then USB_RIGHT_OK else USB_RIGHT_RDB_EMPTY
    {
      ret := DeleteAndNoOtherOperation(OfUser(uid));
    }

    method DeleteNormalExpiredRightRecord(uid: int32, expiredTime: Seconds) returns (ret: int)
      modifies this
      ensures rows == Without(old(rows), NormalExpired(uid, expiredTime))
      ensures ret == if exists r :: r in old(rows) && NormalExpired(uid, expiredTime)(r) then USB_RIGHT_OK else USB_RIGHT_RDB_EMPTY
    {
      ret := DeleteAndNoOtherOperation(NormalExpired(uid, expiredTime));
    }

    method DeleteValidPeriodRightRecord(validPeriod: Seconds, deviceName: string) returns (ret: int)
      modifies this
      ensures rows == Without(old(rows), OfPeriod(validPeriod, deviceName))
      ensures forall r :: r in rows <==>
                          r in old(rows) && !(r.info.validPeriod == validPeriod && r.key.deviceName == deviceName)
      ensures ret == if exists r :: r in old(rows) && OfPeriod(validPeriod, deviceName)(r) then USB_RIGHT_OK else USB_RIGHT_RDB_EMPTY
    {
      ret := DeleteAndNoOtherOperation(OfPeriod(validPeriod, deviceName));
    }

    // The distinct users that have rows.
    method QueryRightRecordUids() returns (uids: seq<int32>)
      ensures forall uid :: uid in uids <==> exists r :: r in rows && r.key.uid == uid
      ensures forall i, j :: 0 <= i < j < |uids| ==> uids[i] != uids[j]
    {
      uids := [];
      for i := 0 to |rows|
        invariant forall uid :: uid in uids <==> exists j :: 0 <= j < i && rows[j].key.uid == uid
        invariant forall j, k :: 0 <= j < k < |uids| ==> uids[j] != uids[k]
      {
        if rows[i].key.uid !in uids {
          uids := uids + [rows[i].key.uid];
        }
      }
    }

    // The distinct apps of a user that have rows.
    method QueryRightRecordApps(uid: int32) returns (apps: seq<string>)
      ensures forall app :: app in apps <==> exists r :: r in rows && OfApp(uid, app)(r)
      ensures forall i, j :: 0 <= i < j < |apps| ==> apps[i] != apps[j]
    {
      apps := [];
      for i := 0 to |rows|
        invariant forall app :: app in apps <==> exists j :: 0 <= j < i && OfApp(uid, app)(rows[j])
        invariant forall j, k :: 0 <= j < k < |apps| ==> apps[j] != apps[k]
      {
        if rows[i].key.uid == uid && rows[i].key.bundleName !in apps {
          apps := apps + [rows[i].key.bundleName];
        }
      }
    }

    method QueryAppRightRecord(uid: int32, bundleName: string) returns (infos: seq<Row>)
      ensures infos == KeepIf(rows, OfApp(uid, bundleName))
      ensures forall r :: r in infos <==> r in rows && OfApp(uid, bundleName)(r)
    {
      infos := KeepIf(rows, OfApp(uid, bundleName));
      forall r: Row ensures r in infos <==> r in rows && OfApp(uid, bundleName)(r) {
        KeepIfMember(rows, OfApp(uid, bundleName), r);
      }
    }
  }
}
