/** The tables of class patterns that the type policy goes through, and why no class is hit twice. */
module TypeTables {
  import opened UsbModel

  // Matches any subclass or protocol.
  const RANDOM_VALUE_INDICATE: int32 := -1

  datatype Pattern = Pattern(baseClass: int32, subClass: int32, protocol: int32)

  // The class, subclass and protocol of a device, an interface or a policy entry.
  datatype Triple = Triple(baseClass: int32, subClass: int32, protocol: int32)

  // An enumerator of InterfaceType.
  type InterfaceType = nat

  predicate Matches(p: Pattern, t: Triple)
  {
    && p.baseClass == t.baseClass
    && (p.subClass == RANDOM_VALUE_INDICATE || p.subClass == t.subClass)
    && (p.protocol == RANDOM_VALUE_INDICATE || p.protocol == t.protocol)
  }

  type TypeMap = map<InterfaceType, Pattern>

  // No class is hit by two entries.
  ghost predicate Disjoint(table: TypeMap)
  {
    forall j, k, t :: j in table && k in table && j != k ==> !(Matches(table[j], t) && Matches(table[k], t))
  }

  // One entry of the table holds both.
  ghost predicate ShareEntry(table: TypeMap, listed: Triple, t: Triple)
  {
    exists k :: k in table && Matches(table[k], listed) && Matches(table[k], t)
  }

  /// Tables as lists of entries

  datatype Types = End | Entry(type_: InterfaceType, pattern: Pattern, rest: Types)

  function ToMap(entries: Types): TypeMap
  {
    match entries
    case End => map[]
    case Entry(type_, pattern, rest) => ToMap(rest)[type_ := pattern]
  }

  predicate IsExplicit(p: Pattern)
  {
    p.subClass != RANDOM_VALUE_INDICATE && p.protocol != RANDOM_VALUE_INDICATE
  }

  predicate Below(p: Pattern, q: Pattern)
  {
    || p.baseClass < q.baseClass
    || (&& p.baseClass == q.baseClass && IsExplicit(p) && IsExplicit(q)
        && (p.subClass < q.subClass || (p.subClass == q.subClass && p.protocol < q.protocol)))
  }

  // Entries with the same base class spell out subclass and protocol, and are in order.
  predicate Ascends(entries: Types)
  {
    match entries
    case End => true
    case Entry(_, pattern, rest) => (rest.Entry? ==> Below(pattern, rest.pattern)) && Ascends(rest)
  }

  lemma {:induction false} RestIsAbove(entries: Types, k: InterfaceType)
    requires entries.Entry? && Ascends(entries) && k in ToMap(entries.rest)
    ensures Below(entries.pattern, ToMap(entries.rest)[k])
  {
    if entries.rest.type_ != k {
      RestIsAbove(entries.rest, k);
    }
  }

  lemma {:induction false} AscendingIsDisjoint(entries: Types)
    requires Ascends(entries)
    ensures Disjoint(ToMap(entries))
  {
    if entries.Entry? {
      AscendingIsDisjoint(entries.rest);
      forall k | k in ToMap(entries.rest) ensures Below(entries.pattern, ToMap(entries.rest)[k]) {
        RestIsAbove(entries, k);
      }
    }
  }

  /// The tables

  // d_typeMap, for devices
  const DEVICE_ENTRIES: Types :=
    Entry(0, Pattern(0, 0, 0), Entry(7, Pattern(2, -1, -1), Entry(8, Pattern(9, 0, 0),
    Entry(9, Pattern(9, 0, 1), Entry(10, Pattern(9, 0, 2), Entry(19, Pattern(17, 0, 0),
    Entry(27, Pattern(220, 1, 1), Entry(28, Pattern(220, 2, 0), Entry(29, Pattern(220, 2, 1),
    Entry(30, Pattern(220, 3, 0), Entry(31, Pattern(220, 3, 1), Entry(32, Pattern(220, 4, 0),
    Entry(33, Pattern(220, 4, 1), Entry(34, Pattern(220, 5, 0), Entry(35, Pattern(220, 5, 1),
    Entry(36, Pattern(220, 6, 0), Entry(37, Pattern(220, 6, 1), Entry(38, Pattern(220, 7, 0),
    Entry(39, Pattern(220, 7, 1), Entry(40, Pattern(220, 8, 0), Entry(48, Pattern(239, 1, 1),
    Entry(49, Pattern(239, 1, 2), Entry(50, Pattern(239, 2, 1), Entry(51, Pattern(239, 2, 2),
    Entry(71, Pattern(255, -1, -1),
    End)))))))))))))))))))))))))

  // g_typeMap, for interfaces, in three parts: the last from base class 239 on, the middle from 220 on
  const LAST_INTERFACE_ENTRIES: Types :=
    Entry(48, Pattern(239, 1, 1), Entry(49, Pattern(239, 1, 2), Entry(52, Pattern(239, 3, 1),
    Entry(53, Pattern(239, 4, 1), Entry(54, Pattern(239, 4, 2), Entry(55, Pattern(239, 4, 3),
    Entry(56, Pattern(239, 4, 4), Entry(57, Pattern(239, 4, 5), Entry(58, Pattern(239, 4, 6),
    Entry(59, Pattern(239, 4, 7), Entry(60, Pattern(239, 5, 0), Entry(61, Pattern(239, 5, 1),
    Entry(62, Pattern(239, 5, 2), Entry(63, Pattern(239, 6, 1), Entry(64, Pattern(239, 6, 2),
    Entry(65, Pattern(239, 7, 1), Entry(66, Pattern(239, 7, 2), Entry(67, Pattern(254, 1, 1),
    Entry(68, Pattern(254, 2, 0), Entry(69, Pattern(254, 3, 0), Entry(70, Pattern(254, 3, 1),
    Entry(71, Pattern(255, -1, -1),
    End))))))))))))))))))))))

  const MIDDLE_INTERFACE_ENTRIES: Types :=
    Entry(27, Pattern(220, 1, 1), Entry(28, Pattern(220, 2, 0), Entry(29, Pattern(220, 2, 1),
    Entry(30, Pattern(220, 3, 0), Entry(31, Pattern(220, 3, 1), Entry(32, Pattern(220, 4, 0),
    Entry(33, Pattern(220, 4, 1), Entry(34, Pattern(220, 5, 0), Entry(35, Pattern(220, 5, 1),
    Entry(36, Pattern(220, 6, 0), Entry(37, Pattern(220, 6, 1), Entry(38, Pattern(220, 7, 0),
    Entry(39, Pattern(220, 7, 1), Entry(40, Pattern(220, 8, 0), Entry(41, Pattern(224, 1, 1),
    Entry(42, Pattern(224, 1, 2), Entry(43, Pattern(224, 1, 3), Entry(44, Pattern(224, 1, 4),
    Entry(45, Pattern(224, 2, 1), Entry(46, Pattern(224, 2, 2), Entry(47, Pattern(224, 2, 3),
    LAST_INTERFACE_ENTRIES)))))))))))))))))))))

  const INTERFACE_ENTRIES: Types :=
    Entry(2, Pattern(1, -1, -1), Entry(7, Pattern(2, -1, -1), Entry(3, Pattern(3, -1, -1),
    Entry(4, Pattern(5, -1, -1), Entry(5, Pattern(6, 1, 1), Entry(6, Pattern(7, -1, -1),
    Entry(1, Pattern(8, -1, -1), Entry(11, Pattern(10, -1, -1), Entry(12, Pattern(11, -1, -1),
    Entry(13, Pattern(13, 0, 0), Entry(14, Pattern(14, -1, -1), Entry(15, Pattern(15, -1, -1),
    Entry(16, Pattern(16, 1, 0), Entry(17, Pattern(16, 2, 0), Entry(18, Pattern(16, 3, 0),
    Entry(20, Pattern(18, 0, 0), Entry(21, Pattern(19, 0, 0), Entry(22, Pattern(20, 0, 1),
    Entry(23, Pattern(20, 0, 2), Entry(24, Pattern(20, 1, 1), Entry(25, Pattern(20, 1, 2),
    Entry(26, Pattern(60, 0, 0),
    MIDDLE_INTERFACE_ENTRIES))))))))))))))))))))))

  const D_TYPE_MAP: TypeMap := ToMap(DEVICE_ENTRIES)

  const G_TYPE_MAP: TypeMap := ToMap(INTERFACE_ENTRIES)

  // The first four entries are in order, and so is the one after them.
  predicate FourAscend(e: Types)
  {
    && e.Entry? && e.rest.Entry? && e.rest.rest.Entry? && e.rest.rest.rest.Entry?
    && Below(e.pattern, e.rest.pattern) && Below(e.rest.pattern, e.rest.rest.pattern)
    && Below(e.rest.rest.pattern, e.rest.rest.rest.pattern)
    && (AfterFour(e).Entry? ==> Below(e.rest.rest.rest.pattern, AfterFour(e).pattern))
  }

  function AfterFour(e: Types): Types
    requires e.Entry? && e.rest.Entry? && e.rest.rest.Entry? && e.rest.rest.rest.Entry?
  {
    e.rest.rest.rest.rest
  }

  lemma FourMoreAscend(e: Types)
    requires FourAscend(e) && Ascends(AfterFour(e))
    ensures Ascends(e)
  {
    assert Ascends(e.rest.rest.rest);
    assert Ascends(e.rest.rest);
    assert Ascends(e.rest);
  }

  lemma DeviceEntriesAscend()
    ensures Ascends(DEVICE_ENTRIES)
  {
    var e4 := AfterFour(DEVICE_ENTRIES);
    var e8 := AfterFour(e4);
    var e12 := AfterFour(e8);
    var e16 := AfterFour(e12);
    var e20 := AfterFour(e16);
    var e24 := AfterFour(e20);
    FourMoreAscend(e20);
    FourMoreAscend(e16);
    FourMoreAscend(e12);
    FourMoreAscend(e8);
    FourMoreAscend(e4);
    FourMoreAscend(DEVICE_ENTRIES);
  }

  lemma LastInterfaceEntriesAscend()
    ensures Ascends(LAST_INTERFACE_ENTRIES)
  {
    var e4 := AfterFour(LAST_INTERFACE_ENTRIES);
    var e8 := AfterFour(e4);
    var e12 := AfterFour(e8);
    var e16 := AfterFour(e12);
    var e20 := AfterFour(e16);
    assert Ascends(e20.rest);
    FourMoreAscend(e16);
    FourMoreAscend(e12);
    FourMoreAscend(e8);
    FourMoreAscend(e4);
    FourMoreAscend(LAST_INTERFACE_ENTRIES);
  }

  lemma MiddleInterfaceEntriesAscend()
    ensures Ascends(MIDDLE_INTERFACE_ENTRIES)
  {
    LastInterfaceEntriesAscend();
    var e4 := AfterFour(MIDDLE_INTERFACE_ENTRIES);
    var e8 := AfterFour(e4);
    var e12 := AfterFour(e8);
    var e16 := AfterFour(e12);
    var e20 := AfterFour(e16);
    FourMoreAscend(e16);
    FourMoreAscend(e12);
    FourMoreAscend(e8);
    FourMoreAscend(e4);
    FourMoreAscend(MIDDLE_INTERFACE_ENTRIES);
  }

  lemma InterfaceEntriesAscend()
    ensures Ascends(INTERFACE_ENTRIES)
  {
    MiddleInterfaceEntriesAscend();
    var e4 := AfterFour(INTERFACE_ENTRIES);
    var e8 := AfterFour(e4);
    var e12 := AfterFour(e8);
    var e16 := AfterFour(e12);
    var e20 := AfterFour(e16);
    assert Ascends(e20.rest);
    FourMoreAscend(e16);
    FourMoreAscend(e12);
    FourMoreAscend(e8);
    FourMoreAscend(e4);
    FourMoreAscend(INTERFACE_ENTRIES);
  }

  // Whatever class a device or interface declares, each table has at most one entry for it.
  lemma TablesAreDisjoint()
    ensures Disjoint(D_TYPE_MAP) && Disjoint(G_TYPE_MAP)
  {
    DeviceEntriesAscend();
    InterfaceEntriesAscend();
    AscendingIsDisjoint(DEVICE_ENTRIES);
    AscendingIsDisjoint(INTERFACE_ENTRIES);
  }
}
