/** Which strings name a function mask, and exactly which masks survive printing and reading back. */
module FunctionNameLaws {
  import opened BitMask
  import opened FunctionNames
  import opened NameOrder
  import opened UsbModel

  predicate CommaFree(name: string)
  {
    forall i :: 0 <= i < |name| ==> name[i] != ','
  }

  predicate AllKnown(table: Table, names: seq<string>)
  {
    forall i :: 0 <= i < |names| ==> Lookup(table, names[i]).Bits?
  }

  /// Splitting and joining

  lemma {:induction false} FindCommaAfter(name: string, rest: string, pos: nat)
    requires CommaFree(name) && pos <= |name|
    requires rest == "" || rest[0] == ','
    ensures FindComma(name + rest, pos) == |name|
    decreases |name| - pos
  {
    if pos < |name| {
      FindCommaAfter(name, rest, pos + 1);
    }
  }

  lemma CutAtComma(name: string, rest: string)
    ensures var s := name + ("," + rest); s[..|name|] == name && s[|name| + 1..] == rest
  {
  }

  lemma ItemsAtComma(s: string, k: nat)
    requires k < |s| && FindComma(s, 0) == k
    ensures Items(s) == [s[..k]] + Items(s[k + 1..])
  {
  }

  lemma ItemsFirst(name: string, rest: string)
    requires CommaFree(name)
    ensures Items(name + ("," + rest)) == [name] + Items(rest)
  {
    FindCommaAfter(name, "," + rest, 0);
    ItemsAtComma(name + ("," + rest), |name|);
    CutAtComma(name, rest);
  }

  lemma ItemsOfOne(name: string, tail: string)
    requires CommaFree(name) && (tail == "," || (tail == "" && name != ""))
    ensures Items(name + tail) == [name]
  {
    if tail == "" {
      FindCommaAfter(name, "", 0);
      assert name + "" == name;
    } else {
      ItemsFirst(name, "");
      assert "," + "" == tail && [name] + [] == [name];
    }
  }

  lemma JoinFirst(names: seq<string>, tail: string)
    requires |names| > 1
    ensures Join(names) + tail == names[0] + ("," + (Join(names[1..]) + tail))
  {
  }

  lemma ItemsOfLonger(names: seq<string>, tail: string)
    requires |names| > 1 && CommaFree(names[0])
    ensures Items(Join(names) + tail) == [names[0]] + Items(Join(names[1..]) + tail)
  {
    ItemsFirst(names[0], Join(names[1..]) + tail);
    JoinFirst(names, tail);
  }

  // A joined list splits into its names, unless the last one is empty; a comma after it makes no difference.
  lemma {:induction false} ItemsOfJoin(names: seq<string>, tail: string)
    requires names != [] && forall i :: 0 <= i < |names| ==> CommaFree(names[i])
    requires tail == "," || (tail == "" && names[|names| - 1] != "")
    ensures Items(Join(names) + tail) == names
  {
    if |names| == 1 {
      ItemsOfOne(names[0], tail);
    } else {
      ItemsOfJoin(names[1..], tail);
      ItemsOfLonger(names, tail);
      assert names == [names[0]] + names[1..];
    }
  }

  // Every string is the join of its items, with at most one comma after it.
  lemma {:induction false} JoinOfItems(s: string)
    requires s != ""
    ensures Items(s) != []
    ensures s == Join(Items(s)) || s == Join(Items(s)) + ","
    decreases |s|
  {
    var k := FindComma(s, 0);
    FindCommaStops(s, 0);
    if k < |s| {
      var rest := s[k + 1..];
      assert s == s[..k] + "," + rest;
      if rest != "" {
        JoinOfItems(rest);
        assert ([s[..k]] + Items(rest))[1..] == Items(rest);
        assert Join(Items(s)) == s[..k] + "," + Join(Items(rest));
      } else {
        assert Items(s) == [s[..k]];
      }
    }
  }

  // Names in strictly ascending order, not empty and without commas; each code one bit, or none.
  predicate GoodTable(table: Table)
  {
    table.Row? ==>
      && table.name != "" && CommaFree(table.name) && SingleBit(table.code)
      && (table.rest.Row? ==> Before(table.name, table.rest.name))
      && GoodTable(table.rest)
  }

  lemma TableTailIsGood()
    ensures GoodTable(FUNCTION_MAPPING.rest.rest.rest.rest.rest.rest)
  {
    var fromNone := FUNCTION_MAPPING.rest.rest.rest.rest.rest.rest;
    assert GoodTable(fromNone.rest.rest);
  }

  lemma TableEndIsGood()
    ensures GoodTable(FUNCTION_MAPPING.rest.rest.rest)
  {
    var fromHdc := FUNCTION_MAPPING.rest.rest.rest;
    TableTailIsGood();
    assert GoodTable(fromHdc.rest.rest);
    assert GoodTable(fromHdc.rest);
  }

  lemma TableIsGood()
    ensures GoodTable(FUNCTION_MAPPING)
  {
    TableEndIsGood();
    assert GoodTable(FUNCTION_MAPPING.rest.rest);
  }

  lemma {:induction false} KnownNamesAreClean(table: Table, name: string)
    requires GoodTable(table) && Lookup(table, name).Bits?
    ensures name != "" && CommaFree(name)
  {
    if table.name != name {
      KnownNamesAreClean(table.rest, name);
    }
  }

  lemma {:induction false} CodesIffKnown(table: Table, names: seq<string>)
    ensures Codes(table, names).Bits? <==> AllKnown(table, names)
  {
    if names != [] {
      CodesIffKnown(table, names[1..]);
      assert AllKnown(table, names) <==> Lookup(table, names[0]).Bits? && AllKnown(table, names[1..]) by {
        assert forall i :: 1 <= i < |names| ==> names[i] == names[1..][i - 1];
      }
    }
  }

  // Some list of known names is written as this string, with or without a comma after it, and has this mask.
  ghost predicate Written(s: string, mask: nat)
  {
    exists names: seq<string> :: WrittenAs(s, mask, names)
  }

  ghost predicate WrittenAs(s: string, mask: nat, names: seq<string>)
  {
    && names != [] && AllKnown(FUNCTION_MAPPING, names) && Codes(FUNCTION_MAPPING, names) == Bits(mask)
    && (s == Join(names) || s == Join(names) + ",")
  }

  // A string converts to a mask exactly when it is a comma-separated list of known names, in any order and with
  // repetitions, and the mask is the union of their codes. Everything else is rejected.
  lemma ConvertsExactly(s: string, mask: nat)
    ensures FromString(s) == Bits(mask) <==> Written(s, mask)
  {
    if FromString(s) == Bits(mask) {
      JoinOfItems(s);
      CodesIffKnown(FUNCTION_MAPPING, Items(s));
      assert WrittenAs(s, mask, Items(s));
    }
    if Written(s, mask) {
      var names: seq<string> :| WrittenAs(s, mask, names);
      WrittenConverts(s, mask, names);
    }
  }

  lemma WrittenConverts(s: string, mask: nat, names: seq<string>)
    requires WrittenAs(s, mask, names)
    ensures FromString(s) == Bits(mask)
  {
    TableIsGood();
    forall i | 0 <= i < |names| ensures names[i] != "" && CommaFree(names[i]) {
      KnownNamesAreClean(FUNCTION_MAPPING, names[i]);
    }
    ItemsOfJoin(names, ",");
    ItemsOfJoin(names, "");
    assert Join(names) + "" == Join(names);
    assert Items("") == [];
  }

  // One unknown or empty item among the others rejects the string.
  lemma UnknownItemRejects(s: string, i: nat)
    requires i < |Items(s)| && Lookup(FUNCTION_MAPPING, Items(s)[i]) == Invalid
    ensures FromString(s) == Invalid
  {
    CodesNeedsAll(FUNCTION_MAPPING, Items(s), i);
  }

  /// Printing a mask

  function Union(table: Table): nat
  {
    match table
    case End => 0
    case Row(_, code, rest) => Or(code, Union(rest))
  }

  lemma CodesCons(table: Table, name: string, code: nat, names: seq<string>, rest: nat)
    requires Lookup(table, name) == Bits(code) && Codes(table, names) == Bits(rest)
    ensures Codes(table, [name] + names) == Bits(Or(code, rest))
  {
    assert ([name] + names)[1..] == names;
  }

  // Every row of sub is found in full under its own code.
  predicate Agrees(full: Table, sub: Table)
  {
    sub.Row? ==> Lookup(full, sub.name) == Bits(sub.code) && Agrees(full, sub.rest)
  }

  // A row in front hides nothing that comes after it in the order.
  lemma {:induction false} AgreesUnder(name: string, code: nat, full: Table, sub: Table)
    requires GoodTable(sub) && Agrees(full, sub) && (sub.Row? ==> Before(name, sub.name))
    ensures Agrees(Row(name, code, full), sub)
  {
    if sub.Row? {
      BeforeIrreflexive(name);
      if sub.rest.Row? {
        BeforeTransitive(name, sub.name, sub.rest.name);
      }
      AgreesUnder(name, code, full, sub.rest);
    }
  }

  lemma {:induction false} AgreesSelf(table: Table)
    requires GoodTable(table)
    ensures Agrees(table, table)
  {
    if table.Row? {
      AgreesSelf(table.rest);
      AgreesUnder(table.name, table.code, table.rest, table.rest);
    }
  }

  // The names printed from a part of the table have exactly the codes that meet the mask.
  lemma {:induction false} CodesOfNames(full: Table, sub: Table, mask: uint32)
    requires GoodTable(sub) && Agrees(full, sub)
    ensures Codes(full, NamesIn(sub, mask)) == Bits(And(mask, Union(sub)))
  {
    if sub.Row? {
      var rest := NamesIn(sub.rest, mask);
      CodesOfNames(full, sub.rest, mask);
      AndAddsBit(mask, sub.code, Union(sub.rest));
      if And(mask, sub.code) != 0 {
        InsideOrDisjoint(mask, sub.code);
        CodesCons(full, sub.name, sub.code, rest, And(mask, Union(sub.rest)));
      } else {
        assert NamesIn(sub, mask) == rest;
      }
    }
  }

  // Sorted strictly by name.
  predicate Ascending(names: seq<string>)
  {
    forall i :: 0 <= i < |names| - 1 ==> Before(names[i], names[i + 1])
  }

  // Names picked from a sorted table stay sorted, and after anything that precedes the whole table.
  lemma {:induction false} NamesAscend(table: Table, mask: uint32, previous: string)
    requires GoodTable(table)
    requires table.Row? ==> Before(previous, table.name)
    ensures Ascending([previous] + NamesIn(table, mask))
  {
    if table.Row? {
      var rest := NamesIn(table.rest, mask);
      if table.rest.Row? {
        BeforeTransitive(previous, table.name, table.rest.name);
      }
      if And(mask, table.code) != 0 {
        NamesAscend(table.rest, mask, table.name);
        AscendingCons(previous, table.name, rest);
      } else {
        NamesAscend(table.rest, mask, previous);
        assert NamesIn(table, mask) == rest;
      }
    }
  }

  lemma AscendingCons(a: string, b: string, names: seq<string>)
    requires Before(a, b) && Ascending([b] + names)
    ensures Ascending([a] + ([b] + names))
  {
    var all := [a] + ([b] + names);
    forall i | 0 <= i < |all| - 1 ensures Before(all[i], all[i + 1]) {
      if i > 0 {
        assert all[i] == ([b] + names)[i - 1] && all[i + 1] == ([b] + names)[i - 1 + 1];
      }
    }
  }

  // The printed names are in strictly ascending order, so none is repeated.
  lemma PrintedNamesAscend(mask: uint32)
    ensures Ascending(NamesIn(FUNCTION_MAPPING, mask))
  {
    TableIsGood();
    NamesAscend(FUNCTION_MAPPING, mask, "");
    var names := NamesIn(FUNCTION_MAPPING, mask);
    forall i | 0 <= i < |names| - 1 ensures Before(names[i], names[i + 1]) {
      assert names[i] == ([""] + names)[i + 1] && names[i + 1] == ([""] + names)[i + 1 + 1];
    }
  }

  // The guard that callers of the setters apply to a mask.
  predicate IsSettableFunctions(funcs: uint32)
  {
    funcs == 0 || And(funcs, FUNCTION_SETTABLE) == funcs
  }

  // The union of the table is the settable union and devmode_auth.
  lemma TableUnion()
    ensures Union(FUNCTION_MAPPING) == Or(0x1000, FUNCTION_SETTABLE)
  {
    var ptp := Or(0x10, Or(0x20, 0x200));
    var fromHdc := FUNCTION_MAPPING.rest.rest.rest;
    var fromNone := fromHdc.rest.rest.rest;
    assert Union(fromNone.rest.rest) == Or(0x20, 0x200);
    assert Union(fromNone) == ptp;
    assert Union(fromHdc.rest) == Or(0x8, Or(0x100, ptp));
    assert Union(FUNCTION_MAPPING) == Or(0x1, Or(0x1000, Or(0x2, Or(0x4, Or(0x8, Or(0x100, ptp))))));
    assert Or(0x100, ptp) == Or(0x10, Or(0x20, Or(0x100, 0x200))) by {
      OrSwaps(0x100, 0x10, Or(0x20, 0x200));
      OrSwaps(0x100, 0x20, 0x200);
    }
    var fromMtp := Or(0x8, Or(0x100, ptp));
    OrSwaps(0x1, 0x1000, Or(0x2, Or(0x4, fromMtp)));
    OrSwaps(0x2, 0x4, fromMtp);
    OrSwaps(0x1, 0x4, Or(0x2, fromMtp));
  }

  lemma SettableIsSmall()
    ensures FUNCTION_SETTABLE < 0x1000
  {
    OrBound(0x4, Or(0x1, Or(0x2, Or(0x8, Or(0x10, Or(0x20, Or(0x100, 0x200)))))));
    OrBound(0x1, Or(0x2, Or(0x8, Or(0x10, Or(0x20, Or(0x100, 0x200))))));
    OrBound(0x2, Or(0x8, Or(0x10, Or(0x20, Or(0x100, 0x200)))));
    OrBound(0x8, Or(0x10, Or(0x20, Or(0x100, 0x200))));
    OrBound(0x10, Or(0x20, Or(0x100, 0x200)));
    OrBound(0x20, Or(0x100, 0x200));
    OrBound(0x100, 0x200);
  }

  // Up to the settable union, the names in the table cover exactly the settable bits: devmode_auth lies above it.
  lemma SmallMask(mask: uint32)
    requires mask <= FUNCTION_SETTABLE
    ensures And(mask, Union(FUNCTION_MAPPING)) == And(mask, FUNCTION_SETTABLE)
  {
    TableUnion();
    SettableIsSmall();
    AndSkipsHighBit(mask, 0x1000, FUNCTION_SETTABLE);
  }

  // What a printed mask up to the settable union reads back as: its settable bits, if any.
  lemma {:induction false} ReadsBack(mask: uint32)
    requires 0 < mask <= FUNCTION_SETTABLE
    ensures || FromString(ToString(mask)) == Bits(And(mask, FUNCTION_SETTABLE))
            || (And(mask, FUNCTION_SETTABLE) == 0 && FromString(ToString(mask)) == Invalid)
  {
    var names := NamesIn(FUNCTION_MAPPING, mask);
    TableIsGood();
    AgreesSelf(FUNCTION_MAPPING);
    CodesOfNames(FUNCTION_MAPPING, FUNCTION_MAPPING, mask);
    SmallMask(mask);
    if names != [] {
      CodesIffKnown(FUNCTION_MAPPING, names);
      WrittenConverts(Join(names), And(mask, FUNCTION_SETTABLE), names);
    }
  }

  // Reading back a printed mask gives the mask exactly when every bit of it is settable. The others that fail are
  // printed as "none", as the empty string, or without their unnamed bits.
  lemma {:induction false} RoundTripExactly(mask: uint32)
    ensures FromString(ToString(mask)) == Bits(mask) <==> IsSettableFunctions(mask)
  {
    AndBound(mask, FUNCTION_SETTABLE);
    if mask == 0 || mask > FUNCTION_SETTABLE {
      NoneIsZero();
    } else {
      ReadsBack(mask);
    }
  }

  /// Printing bit by bit

  lemma {:induction false} SettableExactly(mask: uint32)
    ensures IsSettableFunctions(mask) <==> mask == And(mask, FUNCTION_SETTABLE)
  {
    AndBound(mask, FUNCTION_SETTABLE);
  }

  // The name is read as a mask with the bit.
  predicate NameTells(name: string, j: nat)
  {
    FromString(name).Bits? && Bit(FromString(name).value, j)
  }

  // The name that a single bit is printed as tells exactly that bit if it is settable, and otherwise none.
  lemma {:induction false} BitNameTells(k: nat, j: nat)
    requires Pow2(k) < UINT32_MODULUS
    ensures NameTells(ToString(Pow2(k)), j) <==> j == k && Bit(FUNCTION_SETTABLE, k)
  {
    BitOfPow2(k, j);
    BitOfAnd(Pow2(k), FUNCTION_SETTABLE, j);
    ZeroHasNoBit(j);
    if Pow2(k) > FUNCTION_SETTABLE {
      NoneIsZero();
      BitBelow(FUNCTION_SETTABLE, k, k);
    } else {
      ReadsBack(Pow2(k));
    }
  }

  /// Name by name

  predicate IsRow(table: Table, name: string)
  {
    table.Row? && (table.name == name || IsRow(table.rest, name))
  }

  lemma {:induction false} KnownIsRow(table: Table, name: string)
    ensures IsRow(table, name) <==> Lookup(table, name).Bits?
  {
    if table.Row? && table.name != name {
      KnownIsRow(table.rest, name);
    }
  }

  lemma {:induction false} NameOfRow(full: Table, sub: Table, mask: uint32, name: string)
    requires Agrees(full, sub) && GoodTable(sub)
    ensures name in NamesIn(sub, mask) <==>
            IsRow(sub, name) && Lookup(full, name).Bits? && And(mask, Lookup(full, name).value) != 0
  {
    if sub.Row? {
      NameOfRow(full, sub.rest, mask, name);
    }
  }

  // The names are those of the table whose code meets the mask, in ascending order.
  ghost predicate Names(names: seq<string>, mask: uint32)
  {
    && Ascending(names)
    && forall name :: name in names <==>
         Lookup(FUNCTION_MAPPING, name).Bits? && And(mask, Lookup(FUNCTION_MAPPING, name).value) != 0
  }

  // A mask is printed as "none" when it is empty or above the settable union, and otherwise as exactly the known names
  // whose code meets it, in ascending order and with commas between.
  lemma {:induction false} PrintsExactly(mask: uint32)
    ensures if mask == 0 || mask > FUNCTION_SETTABLE then ToString(mask) == "none"
            else exists names :: ToString(mask) == Join(names) && Names(names, mask)
  {
    var names := NamesIn(FUNCTION_MAPPING, mask);
    TableIsGood();
    AgreesSelf(FUNCTION_MAPPING);
    PrintedNamesAscend(mask);
    forall name ensures name in names <==>
      Lookup(FUNCTION_MAPPING, name).Bits? && And(mask, Lookup(FUNCTION_MAPPING, name).value) != 0
    {
      KnownIsRow(FUNCTION_MAPPING, name);
      NameOfRow(FUNCTION_MAPPING, FUNCTION_MAPPING, mask, name);
    }
    assert Names(names, mask);
  }

  lemma {:induction false} BitOfOr(a: nat, b: nat, j: nat)
    ensures Bit(Or(a, b), j) <==> Bit(a, j) || Bit(b, j)
  {
    OrHalves(a, b);
    if j > 0 {
      BitOfOr(a / 2, b / 2, j - 1);
    }
  }

  // Whether a name of the list has a code with the bit.
  predicate SomeHasBit(table: Table, names: seq<string>, j: nat)
  {
    exists i :: 0 <= i < |names| && Lookup(table, names[i]).Bits? && Bit(Lookup(table, names[i]).value, j)
  }

  lemma {:induction false} BitOfCodes(table: Table, names: seq<string>, j: nat)
    requires Codes(table, names).Bits?
    ensures Bit(Codes(table, names).value, j) <==> SomeHasBit(table, names, j)
  {
    if names == [] {
      ZeroHasNoBit(j);
    } else {
      BitOfCodes(table, names[1..], j);
      BitOfOr(Lookup(table, names[0]).value, Codes(table, names[1..]).value, j);
      if i :| 0 <= i < |names| - 1 && Lookup(table, names[1..][i]).Bits? && Bit(Lookup(table, names[1..][i]).value, j) {
        assert names[i + 1] == names[1..][i];
      }
      if i :| 0 <= i < |names| && Lookup(table, names[i]).Bits? && Bit(Lookup(table, names[i]).value, j) {
        assert i > 0 ==> names[1..][i - 1] == names[i];
      }
    }
  }

  // The string is a list of known names, perhaps with a comma after it, whose codes have exactly the bits of the mask.
  ghost predicate Lists(s: string, names: seq<string>, mask: nat)
  {
    && names != [] && AllKnown(FUNCTION_MAPPING, names) && (s == Join(names) || s == Join(names) + ",")
    && forall j: nat :: Bit(mask, j) <==> SomeHasBit(FUNCTION_MAPPING, names, j)
  }

  // Bit by bit: a string converts to a mask exactly when it lists known names and the mask has exactly the bits that
  // some of their codes have.
  lemma ConvertsBitwise(s: string, mask: nat)
    ensures FromString(s) == Bits(mask) <==> exists names :: Lists(s, names, mask)
  {
    ConvertsExactly(s, mask);
    if names: seq<string> :| WrittenAs(s, mask, names) {
      forall j: nat ensures Bit(mask, j) <==> SomeHasBit(FUNCTION_MAPPING, names, j) {
        BitOfCodes(FUNCTION_MAPPING, names, j);
      }
      assert Lists(s, names, mask);
    }
    if names: seq<string> :| Lists(s, names, mask) {
      CodesIffKnown(FUNCTION_MAPPING, names);
      var code := Codes(FUNCTION_MAPPING, names).value;
      forall j: nat ensures Bit(mask, j) == Bit(code, j) {
        BitOfCodes(FUNCTION_MAPPING, names, j);
      }
      SameBits(mask, code);
      assert WrittenAs(s, mask, names);
    }
  }

  lemma CodesOfTwo(table: Table, a: string, b: string, code: nat, other: nat)
    requires Lookup(table, a) == Bits(code) && Lookup(table, b) == Bits(other)
    ensures Codes(table, [a, b]) == Bits(Or(code, other))
  {
    assert [a, b][1..] == [b] && [b][1..] == [];
    assert Codes(table, [b]) == Bits(other);
  }

  lemma CodesOfHdcAndMtp()
    ensures Lookup(FUNCTION_MAPPING, "hdc") == Bits(4) && Lookup(FUNCTION_MAPPING, "mtp") == Bits(8) && Or(4, 8) == 12
  {
    assert Or(4, 8) == 2 * Or(2, 4) && Or(2, 4) == 2 * Or(1, 2) && Or(1, 2) == 2 * Or(0, 1) + 1;
  }

  // For example.
  lemma HdcAndMtp()
    ensures FromString("hdc,mtp") == Bits(0xC)
  {
    var names := ["hdc", "mtp"];
    CodesOfHdcAndMtp();
    CodesOfTwo(FUNCTION_MAPPING, "hdc", "mtp", 4, 8);
    CodesIffKnown(FUNCTION_MAPPING, names);
    JoinOfTwo("hdc", "mtp");
    assert "hdc,mtp" == "hdc" + "," + "mtp";
    WrittenConverts("hdc,mtp", 0xC, names);
  }

  lemma JoinOfTwo(a: string, b: string)
    ensures Join([a, b]) == a + "," + b
  {
    assert [a, b][1..] == [b];
  }
}
