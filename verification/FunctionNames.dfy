/** Turning a comma-separated list of USB function names into a bit mask and back. */
module FunctionNames {
  import opened BitMask
  import opened Sequences
  import opened UsbModel

  // A function mask, or UEC_SERVICE_INVALID_VALUE.
  datatype Mask = Invalid | Bits(value: nat)

  // A std::map of names to codes, as the list its iterator walks.
  datatype Table = End | Row(name: string, code: nat, rest: Table)

  // FUNCTION_MAPPING_N2C
  const FUNCTION_MAPPING :=
    Row("acm", 0x1, Row("devmode_auth", 0x1000, Row("ecm", 0x2, Row("hdc", 0x4, Row("mtp", 0x8,
    Row("ncm", 0x100, Row("none", 0x0, Row("ptp", 0x10, Row("rndis", 0x20, Row("storage", 0x200, End))))))))))

  const FUNCTION_NAME_NONE := "none"

  // The union of hdc, acm, ecm, mtp, ptp, rndis, ncm and storage: 0x33F.
  const FUNCTION_SETTABLE: nat :=
    Or(0x4, Or(0x1, Or(0x2, Or(0x8, Or(0x10, Or(0x20, Or(0x100, 0x200)))))))

  // The code a name maps to: std::map::find.
  function Lookup(table: Table, name: string): Mask
  {
    match table
    case End => Invalid
    case Row(key, code, rest) => if key == name then Bits(code) else Lookup(rest, name)
  }

  /// The specification

  // The position of the first comma at or after pos, or the length of s.
  function FindComma(s: string, pos: nat): (k: nat)
    requires pos <= |s|
    ensures pos <= k <= |s|
    decreases |s| - pos
  {
    if pos == |s| || s[pos] == ',' then pos else FindComma(s, pos + 1)
  }

  lemma {:induction false} FindCommaStops(s: string, pos: nat)
    requires pos <= |s|
    ensures var k := FindComma(s, pos);
            (k < |s| ==> s[k] == ',') && forall i :: pos <= i < k ==> s[i] != ','
    decreases |s| - pos
  {
    if pos < |s| && s[pos] != ',' {
      FindCommaStops(s, pos + 1);
    }
  }

  // The pieces between commas; nothing follows a comma at the end.
  function Items(s: string): seq<string>
    decreases |s|
  {
    if s == "" then []
    else
      var k := FindComma(s, 0);
      if k == |s| then [s] else [s[..k]] + Items(s[k + 1..])
  }

  // The union of the codes, if every name is known.
  function Codes(table: Table, names: seq<string>): Mask
  {
    if names == [] then Bits(0)
    else
      var code, rest := Lookup(table, names[0]), Codes(table, names[1..]);
      if code == Invalid || rest == Invalid then Invalid else Bits(Or(code.value, rest.value))
  }

  // The mask of a list, or Invalid for UEC_SERVICE_INVALID_VALUE.
  function FromString(s: string): Mask
  {
    if s == "" then Invalid else Codes(FUNCTION_MAPPING, Items(s))
  }

  function Join(names: seq<string>): string
  {
    if names == [] then "" else if |names| == 1 then names[0] else names[0] + "," + Join(names[1..])
  }

  // The names whose codes meet the mask, in the order of the table.
  function NamesIn(table: Table, function_: uint32): seq<string>
  {
    match table
    case End => []
    case Row(name, code, rest) => (if And(function_, code) != 0 then [name] else []) + NamesIn(rest, function_)
  }

  function ToString(function_: uint32): string
  {
    if function_ == 0 || function_ > FUNCTION_SETTABLE then FUNCTION_NAME_NONE
    else Join(NamesIn(FUNCTION_MAPPING, function_))
  }

  /// The two conversions

  lemma {:induction false} CodesLast(table: Table, names: seq<string>, name: string)
    ensures var front, code := Codes(table, names), Lookup(table, name);
            Codes(table, names + [name]) ==
            if front == Invalid || code == Invalid then Invalid else Bits(Or(front.value, code.value))
  {
    if names == [] {
      assert [name][1..] == [];
    } else {
      assert (names + [name])[1..] == names[1..] + [name];
      CodesLast(table, names[1..], name);
      var first, rest, last := Lookup(table, names[0]), Codes(table, names[1..]), Lookup(table, name);
      if first != Invalid && rest != Invalid && last != Invalid {
        OrAssociates(first.value, rest.value, last.value);
      }
    }
  }

  lemma {:induction false} CodesNeedsAll(table: Table, names: seq<string>, i: nat)
    requires i < |names| && Lookup(table, names[i]) == Invalid
    ensures Codes(table, names) == Invalid
  {
    if i > 0 {
      CodesNeedsAll(table, names[1..], i - 1);
    }
  }

  // The first loop: the string is cut at its commas.
  method Split(strFun: string) returns (vModeStr: seq<string>)
    ensures vModeStr == Items(strFun)
  {
    var len := |strFun|;
    vModeStr := [];
    var pos := 0;
    assert strFun[0..] == strFun;
    ghost var expected := Items(strFun);
    while pos < len
      invariant 0 <= pos <= len
      invariant expected == vModeStr + Items(strFun[pos..])
    {
      var findPos := FindComma(strFun, pos);
      SplitTurn(strFun, pos, vModeStr);
      if findPos == len {
        vModeStr := vModeStr + [strFun[pos..len]];
        return;
      }
      vModeStr := vModeStr + [strFun[pos..findPos]];
      pos := findPos + 1;
    }
    assert strFun[pos..] == "";
  }

  // One turn of that loop moves a piece from the rest to the pieces found.
  lemma SplitTurn(s: string, pos: nat, found: seq<string>)
    requires pos < |s|
    ensures var k := FindComma(s, pos);
            found + Items(s[pos..]) ==
            if k == |s| then found + [s[pos..k]] else found + [s[pos..k]] + Items(s[k + 1..])
  {
    var k := FindComma(s, pos);
    ItemsAt(s, pos);
    if k == |s| {
      assert s[pos..k] == s[pos..];
    } else {
      AppendAssociates(found, [s[pos..k]], Items(s[k + 1..]));
    }
  }

  // The second loop: the codes of the pieces are or-ed together.
  method Combine(table: Table, vModeStr: seq<string>) returns (result: Mask)
    ensures result == Codes(table, vModeStr)
  {
    var ret: nat := 0;
    for i := 0 to |vModeStr|
      invariant Codes(table, vModeStr[..i]) == Bits(ret)
    {
      CodesLast(table, vModeStr[..i], vModeStr[i]);
      assert vModeStr[..i] + [vModeStr[i]] == vModeStr[..i + 1];
      match Lookup(table, vModeStr[i]) {
        case Bits(code) => ret := Or(ret, code);
        case Invalid =>
          CodesNeedsAll(table, vModeStr, i);
          return Invalid;
      }
    }
    assert vModeStr[..|vModeStr|] == vModeStr;
    return Bits(ret);
  }

  // The name "none" is in the table, with the empty mask.
  lemma NoneIsZero()
    ensures FromString(FUNCTION_NAME_NONE) == Bits(0)
  {
    assert Items("none") == ["none"];
    var fromHdc := FUNCTION_MAPPING.rest.rest.rest;
    assert Lookup(fromHdc.rest.rest, "none") == Bits(0);
    assert Lookup(fromHdc, "none") == Bits(0);
    assert Codes(FUNCTION_MAPPING, ["none"][1..]) == Bits(0);
  }

  method ConvertFromString(strFun: string) returns (result: Mask)
    ensures result == FromString(strFun)
  {
    if strFun == FUNCTION_NAME_NONE {
      NoneIsZero();
      return Bits(0);
    }
    if |strFun| == 0 {
      return Invalid;
    }
    var vModeStr := Split(strFun);
    result := Combine(FUNCTION_MAPPING, vModeStr);
  }

  // Items reads a suffix as the loop does, from the next comma on.
  lemma ItemsAt(s: string, pos: nat)
    requires pos < |s|
    ensures var k := FindComma(s, pos);
            Items(s[pos..]) == if k == |s| then [s[pos..]] else [s[pos..k]] + Items(s[k + 1..])
  {
    var rest := s[pos..];
    FindCommaShift(s, pos, 0);
    var j := FindComma(rest, 0);
    if pos + j < |s| {
      assert rest[..j] == s[pos..pos + j];
      assert rest[j + 1..] == s[pos + j + 1..];
    }
  }

  lemma {:induction false} FindCommaShift(s: string, pos: nat, i: nat)
    requires pos + i <= |s|
    ensures FindComma(s, pos + i) == pos + FindComma(s[pos..], i)
    decreases |s| - pos - i
  {
    if pos + i < |s| && s[pos + i] != ',' {
      FindCommaShift(s, pos, i + 1);
    }
  }

  // The list printed so far, and its next name.
  lemma {:induction false} JoinLast(names: seq<string>, name: string)
    ensures Join(names + [name]) == if names == [] then name else Join(names) + "," + name
  {
    if |names| == 1 {
      assert (names + [name])[1..] == [name];
    } else if |names| > 1 {
      assert (names + [name])[1..] == names[1..] + [name];
      JoinLast(names[1..], name);
    }
  }

  // The loop over the table.
  method PrintNames(table: Table, function_: uint32) returns (stream: string)
    ensures stream == Join(NamesIn(table, function_))
  {
    stream := "";
    var flag := false;
    ghost var printed: seq<string> := [];
    var it := table;
    while it != End
      invariant printed + NamesIn(it, function_) == NamesIn(table, function_)
      invariant stream == Join(printed) && flag == (printed != [])
      decreases it
    {
      if And(function_, it.code) != 0 {
        if flag {
          stream := stream + ",";
        }
        stream := stream + it.name;
        JoinLast(printed, it.name);
        AppendAssociates(printed, [it.name], NamesIn(it.rest, function_));
        printed := printed + [it.name];
        flag := true;
      }
      it := it.rest;
    }
    assert printed + [] == printed;
  }

  method ConvertToString(function_: uint32) returns (stream: string)
    ensures stream == ToString(function_)
  {
    if function_ == 0 || function_ > FUNCTION_SETTABLE {
      return FUNCTION_NAME_NONE;
    }
    stream := PrintNames(FUNCTION_MAPPING, function_);
  }
}
