/** What the two tables cover, said without their wildcard: some base classes whole, and of the others only the triples
    that are spelled out, each for itself. */
module TypeCoverage {
  import opened TypeTables
  import opened UsbModel

  /// The classes, in closed form

  predicate IsDiagnostic(t: Triple)
  {
    && t.baseClass == 220
    && (|| (t.subClass == 1 && t.protocol == 1) || (2 <= t.subClass <= 7 && 0 <= t.protocol <= 1)
        || (t.subClass == 8 && t.protocol == 0))
  }

  predicate IsWholeDeviceClass(baseClass: int) { baseClass == 2 || baseClass == 255 }

  predicate IsSpelledDevice(t: Triple)
  {
    || (t.baseClass in {0, 17} && t.subClass == 0 && t.protocol == 0)
    || (t.baseClass == 9 && t.subClass == 0 && 0 <= t.protocol <= 2)
    || IsDiagnostic(t)
    || (t.baseClass == 239 && 1 <= t.subClass <= 2 && 1 <= t.protocol <= 2)
  }

  predicate IsWholeInterfaceClass(baseClass: int)
  {
    baseClass in {1, 2, 3, 5, 7, 8, 10, 11, 14, 15, 255}
  }

  predicate IsSpelledInterface(t: Triple)
  {
    IsLowInterface(t) || IsDiagnostic(t) || IsWireless(t) || IsHighInterface(t)
  }

  predicate IsLowInterface(t: Triple)
  {
    || (t.baseClass == 6 && t.subClass == 1 && t.protocol == 1)
    || (t.baseClass in {13, 18, 19, 60} && t.subClass == 0 && t.protocol == 0)
    || (t.baseClass == 16 && 1 <= t.subClass <= 3 && t.protocol == 0)
    || (t.baseClass == 20 && 0 <= t.subClass <= 1 && 1 <= t.protocol <= 2)
  }

  predicate IsWireless(t: Triple)
  {
    t.baseClass == 224 && ((t.subClass == 1 && 1 <= t.protocol <= 4) || (t.subClass == 2 && 1 <= t.protocol <= 3))
  }

  predicate IsHighInterface(t: Triple)
  {
    || (t.baseClass == 254 &&
        (|| (t.subClass == 1 && t.protocol == 1) || (t.subClass == 2 && t.protocol == 0)
         || (t.subClass == 3 && 0 <= t.protocol <= 1)))
    || (t.baseClass == 239 &&
        (|| (t.subClass == 1 && 1 <= t.protocol <= 2) || (t.subClass == 3 && t.protocol == 1)
         || (t.subClass == 4 && 1 <= t.protocol <= 7) || (t.subClass == 5 && 0 <= t.protocol <= 2)
         || (6 <= t.subClass <= 7 && 1 <= t.protocol <= 2)))
  }

  // Two triples are one class to a table: both of a class it covers whole, or one spelled-out triple.
  predicate SameDeviceClass(listed: Triple, t: Triple)
  {
    (IsWholeDeviceClass(t.baseClass) && listed.baseClass == t.baseClass) || (IsSpelledDevice(t) && listed == t)
  }

  predicate SameInterfaceClass(listed: Triple, t: Triple)
  {
    (IsWholeInterfaceClass(t.baseClass) && listed.baseClass == t.baseClass) || (IsSpelledInterface(t) && listed == t)
  }

  /// Lists of entries

  predicate Both(p: Pattern, listed: Triple, t: Triple)
  {
    Matches(p, listed) && Matches(p, t)
  }

  // Some entry of the list matches both.
  predicate Shares(entries: Types, listed: Triple, t: Triple)
  {
    entries.Entry? && (Both(entries.pattern, listed, t) || Shares(entries.rest, listed, t))
  }

  predicate FourShare(e: Types, listed: Triple, t: Triple)
    requires e.Entry? && e.rest.Entry? && e.rest.rest.Entry? && e.rest.rest.rest.Entry?
  {
    || Both(e.pattern, listed, t) || Both(e.rest.pattern, listed, t) || Both(e.rest.rest.pattern, listed, t)
    || Both(e.rest.rest.rest.pattern, listed, t)
  }

  lemma SharesFour(e: Types, listed: Triple, t: Triple)
    requires e.Entry? && e.rest.Entry? && e.rest.rest.Entry? && e.rest.rest.rest.Entry?
    ensures Shares(e, listed, t) <==> FourShare(e, listed, t) || Shares(AfterFour(e), listed, t)
  {
    var e3 := e.rest.rest.rest;
    assert Shares(e3, listed, t) <==> Both(e3.pattern, listed, t) || Shares(AfterFour(e), listed, t);
    assert Shares(e.rest.rest, listed, t) <==> Both(e.rest.rest.pattern, listed, t) || Shares(e3, listed, t);
    assert Shares(e.rest, listed, t) <==> Both(e.rest.pattern, listed, t) || Shares(e.rest.rest, listed, t);
  }

  lemma LastShares(listed: Triple, t: Triple)
    ensures Shares(LAST_INTERFACE_ENTRIES, listed, t) <==>
            (t.baseClass == 255 && listed.baseClass == 255) || (IsHighInterface(t) && listed == t)
  {
    var e4 := AfterFour(LAST_INTERFACE_ENTRIES);
    var e8 := AfterFour(e4);
    var e12 := AfterFour(e8);
    var e16 := AfterFour(e12);
    var e20 := AfterFour(e16);
    assert e20.rest.rest == End;
    assert Shares(e20.rest, listed, t) <==> Both(e20.rest.pattern, listed, t);
    assert Shares(e20, listed, t) <==> Both(e20.pattern, listed, t) || Both(e20.rest.pattern, listed, t);
    SharesFour(e16, listed, t);
    SharesFour(e12, listed, t);
    SharesFour(e8, listed, t);
    SharesFour(e4, listed, t);
    SharesFour(LAST_INTERFACE_ENTRIES, listed, t);
  }

  lemma MiddleShares(listed: Triple, t: Triple)
    ensures Shares(MIDDLE_INTERFACE_ENTRIES, listed, t) <==>
            ((IsDiagnostic(t) || IsWireless(t)) && listed == t) || Shares(LAST_INTERFACE_ENTRIES, listed, t)
  {
    var e4 := AfterFour(MIDDLE_INTERFACE_ENTRIES);
    var e8 := AfterFour(e4);
    var e12 := AfterFour(e8);
    var e16 := AfterFour(e12);
    var e20 := AfterFour(e16);
    assert e20.rest == LAST_INTERFACE_ENTRIES;
    assert Shares(e20, listed, t) <==> Both(e20.pattern, listed, t) || Shares(e20.rest, listed, t);
    SharesFour(e16, listed, t);
    SharesFour(e12, listed, t);
    SharesFour(e8, listed, t);
    SharesFour(e4, listed, t);
    SharesFour(MIDDLE_INTERFACE_ENTRIES, listed, t);
  }

  lemma InterfaceShares(listed: Triple, t: Triple)
    ensures Shares(INTERFACE_ENTRIES, listed, t) <==> SameInterfaceClass(listed, t)
  {
    var e4 := AfterFour(INTERFACE_ENTRIES);
    var e8 := AfterFour(e4);
    var e12 := AfterFour(e8);
    var e16 := AfterFour(e12);
    var e20 := AfterFour(e16);
    assert e20.rest.rest == MIDDLE_INTERFACE_ENTRIES;
    assert Shares(e20.rest, listed, t) <==> Both(e20.rest.pattern, listed, t) || Shares(e20.rest.rest, listed, t);
    assert Shares(e20, listed, t) <==> Both(e20.pattern, listed, t) || Shares(e20.rest, listed, t);
    SharesFour(e16, listed, t);
    SharesFour(e12, listed, t);
    SharesFour(e8, listed, t);
    SharesFour(e4, listed, t);
    SharesFour(INTERFACE_ENTRIES, listed, t);
    LastShares(listed, t);
    MiddleShares(listed, t);
  }

  lemma DeviceShares(listed: Triple, t: Triple)
    ensures Shares(DEVICE_ENTRIES, listed, t) <==> SameDeviceClass(listed, t)
  {
    var e4 := AfterFour(DEVICE_ENTRIES);
    var e8 := AfterFour(e4);
    var e12 := AfterFour(e8);
    var e16 := AfterFour(e12);
    var e20 := AfterFour(e16);
    var e24 := AfterFour(e20);
    assert e24.rest == End;
    assert Shares(e24, listed, t) <==> Both(e24.pattern, listed, t);
    SharesFour(e20, listed, t);
    SharesFour(e16, listed, t);
    SharesFour(e12, listed, t);
    SharesFour(e8, listed, t);
    SharesFour(e4, listed, t);
    SharesFour(DEVICE_ENTRIES, listed, t);
  }

  /// From lists to maps

  // No enumerator has two entries.
  predicate Distinct(entries: Types)
  {
    entries.Entry? ==> entries.type_ !in ToMap(entries.rest) && Distinct(entries.rest)
  }

  // The enumerators are in order, and above lo.
  predicate TypesAscend(entries: Types, lo: int)
  {
    entries.Entry? ==> lo < entries.type_ && TypesAscend(entries.rest, entries.type_)
  }

  lemma {:induction false} AscendingTypesAreAbove(entries: Types, lo: int, k: InterfaceType)
    requires TypesAscend(entries, lo) && k in ToMap(entries)
    ensures lo < k
  {
    if k != entries.type_ {
      AscendingTypesAreAbove(entries.rest, entries.type_, k);
    }
  }

  lemma {:induction false} AscendingTypesAreDistinct(entries: Types, lo: int)
    requires TypesAscend(entries, lo)
    ensures Distinct(entries)
  {
    if entries.Entry? {
      AscendingTypesAreDistinct(entries.rest, entries.type_);
      if entries.type_ in ToMap(entries.rest) {
        AscendingTypesAreAbove(entries.rest, entries.type_, entries.type_);
      }
    }
  }

  lemma FourTypesAscend(e: Types, lo: int)
    requires e.Entry? && e.rest.Entry? && e.rest.rest.Entry? && e.rest.rest.rest.Entry?
    requires lo < e.type_ < e.rest.type_ < e.rest.rest.type_ < e.rest.rest.rest.type_
    requires TypesAscend(AfterFour(e), e.rest.rest.rest.type_)
    ensures TypesAscend(e, lo)
  {
    assert TypesAscend(e.rest.rest.rest, e.rest.rest.type_);
    assert TypesAscend(e.rest.rest, e.rest.type_);
    assert TypesAscend(e.rest, e.type_);
  }

  lemma LastTypesAscend()
    ensures TypesAscend(LAST_INTERFACE_ENTRIES, 47)
  {
    var e4 := AfterFour(LAST_INTERFACE_ENTRIES);
    var e8 := AfterFour(e4);
    var e12 := AfterFour(e8);
    var e16 := AfterFour(e12);
    var e20 := AfterFour(e16);
    assert TypesAscend(e20.rest, e20.type_);
    FourTypesAscend(e16, 63);
    FourTypesAscend(e12, 59);
    FourTypesAscend(e8, 55);
    FourTypesAscend(e4, 53);
    FourTypesAscend(LAST_INTERFACE_ENTRIES, 47);
  }

  lemma MiddleTypesAscend()
    ensures TypesAscend(MIDDLE_INTERFACE_ENTRIES, 26)
  {
    LastTypesAscend();
    var e4 := AfterFour(MIDDLE_INTERFACE_ENTRIES);
    var e8 := AfterFour(e4);
    var e12 := AfterFour(e8);
    var e16 := AfterFour(e12);
    var e20 := AfterFour(e16);
    assert e20.rest == LAST_INTERFACE_ENTRIES;
    FourTypesAscend(e16, 42);
    FourTypesAscend(e12, 38);
    FourTypesAscend(e8, 34);
    FourTypesAscend(e4, 30);
    FourTypesAscend(MIDDLE_INTERFACE_ENTRIES, 26);
  }

  lemma DeviceTypesAscend()
    ensures TypesAscend(DEVICE_ENTRIES, -1)
  {
    var e4 := AfterFour(DEVICE_ENTRIES);
    var e8 := AfterFour(e4);
    var e12 := AfterFour(e8);
    var e16 := AfterFour(e12);
    var e20 := AfterFour(e16);
    var e24 := AfterFour(e20);
    assert TypesAscend(e24, 51);
    FourTypesAscend(e20, 40);
    FourTypesAscend(e16, 36);
    FourTypesAscend(e12, 32);
    FourTypesAscend(e8, 28);
    FourTypesAscend(e4, 9);
    FourTypesAscend(DEVICE_ENTRIES, -1);
  }

  // From the eighth entry on, and the first seven are below.
  lemma LaterTypesAscend()
    ensures TypesAscend(AfterFour(INTERFACE_ENTRIES).rest.rest.rest, 7)
  {
    MiddleTypesAscend();
    var e7 := AfterFour(INTERFACE_ENTRIES).rest.rest.rest;
    var e11 := AfterFour(e7);
    var e15 := AfterFour(e11);
    var e19 := AfterFour(e15);
    assert e19.rest.rest.rest == MIDDLE_INTERFACE_ENTRIES;
    assert TypesAscend(e19.rest.rest, 25);
    assert TypesAscend(e19.rest, 24);
    assert TypesAscend(e19, 23);
    FourTypesAscend(e15, 18);
    FourTypesAscend(e11, 14);
    FourTypesAscend(e7, 7);
  }

  lemma OneMoreIsDistinct(entries: Types, k: InterfaceType, types: set<InterfaceType>)
    requires entries.Entry? && entries.type_ == k && k !in types
    requires Distinct(entries.rest) && ToMap(entries.rest).Keys == types
    ensures Distinct(entries) && ToMap(entries).Keys == types + {k}
  {
  }

  lemma FirstSeven()
    ensures var e0, e4 := INTERFACE_ENTRIES, AfterFour(INTERFACE_ENTRIES);
            && e0.type_ == 2 && e0.rest.type_ == 7 && e0.rest.rest.type_ == 3 && e0.rest.rest.rest.type_ == 4
            && e4.Entry? && e4.rest.Entry? && e4.rest.rest.Entry?
            && e4.type_ == 5 && e4.rest.type_ == 6 && e4.rest.rest.type_ == 1
  {
  }

  lemma InterfaceTypesAreDistinct()
    ensures Distinct(INTERFACE_ENTRIES)
  {
    var e0, e4 := INTERFACE_ENTRIES, AfterFour(INTERFACE_ENTRIES);
    FirstSeven();
    LaterTypesAscend();
    SevenMoreAreDistinct(e0, e4, e4.rest.rest.rest);
  }

  lemma SevenMoreAreDistinct(e0: Types, e4: Types, e7: Types)
    requires e0.Entry? && e0.rest.Entry? && e0.rest.rest.Entry? && e0.rest.rest.rest.Entry?
    requires e4 == AfterFour(e0) && e4.Entry? && e4.rest.Entry? && e4.rest.rest.Entry? && e7 == e4.rest.rest.rest
    requires e0.type_ == 2 && e0.rest.type_ == 7 && e0.rest.rest.type_ == 3 && e0.rest.rest.rest.type_ == 4
    requires e4.type_ == 5 && e4.rest.type_ == 6 && e4.rest.rest.type_ == 1 && TypesAscend(e7, 7)
    ensures Distinct(e0)
  {
    AscendingTypesAreDistinct(e7, 7);
    var types := ToMap(e7).Keys;
    forall k: InterfaceType | k <= 7 ensures k !in types {
      if k in types {
        AscendingTypesAreAbove(e7, 7, k);
      }
    }
    OneMoreIsDistinct(e4.rest.rest, 1, types);
    OneMoreIsDistinct(e4.rest, 6, types + {1});
    OneMoreIsDistinct(e4, 5, types + {1} + {6});
    OneMoreIsDistinct(e0.rest.rest.rest, 4, types + {1} + {6} + {5});
    OneMoreIsDistinct(e0.rest.rest, 3, types + {1} + {6} + {5} + {4});
    OneMoreIsDistinct(e0.rest, 7, types + {1} + {6} + {5} + {4} + {3});
    OneMoreIsDistinct(e0, 2, types + {1} + {6} + {5} + {4} + {3} + {7});
  }

  lemma {:induction false} SharesInMap(entries: Types, listed: Triple, t: Triple)
    requires Distinct(entries)
    ensures Shares(entries, listed, t) <==> ShareEntry(ToMap(entries), listed, t)
  {
    if entries.Entry? {
      var table, rest := ToMap(entries), ToMap(entries.rest);
      SharesInMap(entries.rest, listed, t);
      if Both(entries.pattern, listed, t) {
        assert entries.type_ in table && table[entries.type_] == entries.pattern;
      }
      if k :| k in rest && Both(rest[k], listed, t) {
        assert k in table && table[k] == rest[k];
      }
      if k :| k in table && Both(table[k], listed, t) {
        assert k == entries.type_ || (k in rest && rest[k] == table[k]);
      }
    }
  }

  // The device table: whatever the subclass and protocol, two triples of the base classes 2 and 255 share an entry; any
  // other triple shares one only with itself, and only if it is one of those spelled out.
  lemma DeviceTableCovers(listed: Triple, t: Triple)
    ensures ShareEntry(D_TYPE_MAP, listed, t) <==> SameDeviceClass(listed, t)
  {
    DeviceTypesAscend();
    AscendingTypesAreDistinct(DEVICE_ENTRIES, -1);
    SharesInMap(DEVICE_ENTRIES, listed, t);
    DeviceShares(listed, t);
  }

  // The same for the interface table.
  lemma InterfaceTableCovers(listed: Triple, t: Triple)
    ensures ShareEntry(G_TYPE_MAP, listed, t) <==> SameInterfaceClass(listed, t)
  {
    InterfaceTypesAreDistinct();
    SharesInMap(INTERFACE_ENTRIES, listed, t);
    InterfaceShares(listed, t);
  }
}
