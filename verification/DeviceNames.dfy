/** How numbers and "bus-address" names are printed, and that the printing loses nothing. */
module DeviceNames {
  import opened UsbModel

  function Digit(d: nat): (c: char)
    requires d < 10
    ensures c != '-'
  {
    "0123456789"[d]
  }

  // std::to_string of an unsigned value.
  function Decimal(n: nat): string
  {
    if n < 10 then [Digit(n)] else Decimal(n / 10) + [Digit(n % 10)]
  }

  // std::to_string of a signed value.
  function ToString(n: int): string
  {
    if n < 0 then "-" + Decimal(-n) else Decimal(n)
  }

  function NameOf(busNum: byte, devAddr: byte): string
  {
    Decimal(busNum) + "-" + Decimal(devAddr)
  }

  lemma {:induction false} DecimalHasNoDash(n: nat)
    ensures '-' !in Decimal(n)
    ensures |Decimal(n)| > 0 && (|Decimal(n)| == 1 <==> n < 10)
  {
    if n >= 10 {
      DecimalHasNoDash(n / 10);
    }
  }

  lemma LastDigit(n: nat)
    ensures var s := Decimal(n); |s| > 0 && s[|s| - 1] == Digit(n % 10) && (n >= 10 ==> s[..|s| - 1] == Decimal(n / 10))
  {
  }

  lemma {:induction false} DecimalInjective(m: nat, n: nat)
    requires Decimal(m) == Decimal(n)
    ensures m == n
  {
    DecimalHasNoDash(m);
    DecimalHasNoDash(n);
    LastDigit(m);
    LastDigit(n);
    if m >= 10 {
      DecimalInjective(m / 10, n / 10);
    }
  }

  // The position of the first dash, or the length of s.
  function FirstDash(s: string): nat
  {
    if s == "" || s[0] == '-' then 0 else 1 + FirstDash(s[1..])
  }

  lemma {:induction false} FirstDashAt(a: string, b: string)
    requires '-' !in a
    ensures FirstDash(a + "-" + b) == |a|
  {
    if a != "" {
      assert (a + "-" + b)[1..] == a[1..] + "-" + b;
      FirstDashAt(a[1..], b);
    }
  }

  lemma SplitAtDash(a: string, b: string, c: string, d: string)
    requires a + "-" + b == c + "-" + d
    requires '-' !in a && '-' !in c
    ensures a == c && b == d
  {
    var whole := a + "-" + b;
    FirstDashAt(a, b);
    FirstDashAt(c, d);
    assert whole[..|a|] == a && whole[..|a|] == c;
    assert whole[|a| + 1..] == b && whole[|a| + 1..] == d;
  }

  // Different bus-address pairs never share a name.
  lemma NameInjective(busNum: byte, devAddr: byte, otherBus: byte, otherAddr: byte)
    ensures NameOf(busNum, devAddr) == NameOf(otherBus, otherAddr) <==> busNum == otherBus && devAddr == otherAddr
  {
    if NameOf(busNum, devAddr) == NameOf(otherBus, otherAddr) {
      DecimalHasNoDash(busNum);
      DecimalHasNoDash(otherBus);
      SplitAtDash(Decimal(busNum), Decimal(devAddr), Decimal(otherBus), Decimal(otherAddr));
      DecimalInjective(busNum, otherBus);
      DecimalInjective(devAddr, otherAddr);
    }
  }

  // The digits read as a decimal number.
  function Value(s: string): int
  {
    if s == "" then 0 else 10 * Value(s[..|s| - 1]) + (s[|s| - 1] as int - '0' as int)
  }

  predicate IsDigits(s: string)
  {
    forall i :: 0 <= i < |s| ==> '0' <= s[i] <= '9'
  }

  lemma DigitIs(d: nat)
    requires d < 10
    ensures '0' <= Digit(d) <= '9' && Digit(d) as int - '0' as int == d
  {
  }

  // A printed number is the number in decimal digits, without leading zeros.
  lemma {:induction false} DecimalReadsBack(n: nat)
    ensures Decimal(n) != "" && IsDigits(Decimal(n)) && Value(Decimal(n)) == n
    ensures Decimal(n)[0] == '0' ==> n == 0
  {
    var s := Decimal(n);
    DigitIs(n % 10);
    if n >= 10 {
      DecimalReadsBack(n / 10);
      assert s[..|s| - 1] == Decimal(n / 10);
    } else {
      assert s[..0] == "";
    }
  }

  // A name is the bus number, a dash and the address.
  lemma NameReadsBack(busNum: byte, devAddr: byte)
    ensures var name, dash := NameOf(busNum, devAddr), FirstDash(NameOf(busNum, devAddr));
            && dash < |name| && name[dash] == '-'
            && IsDigits(name[..dash]) && Value(name[..dash]) == busNum
            && IsDigits(name[dash + 1..]) && Value(name[dash + 1..]) == devAddr
  {
    DecimalHasNoDash(busNum);
    DecimalReadsBack(busNum);
    DecimalReadsBack(devAddr);
    FirstDashAt(Decimal(busNum), Decimal(devAddr));
    var name := NameOf(busNum, devAddr);
    assert name[..|Decimal(busNum)|] == Decimal(busNum) && name[|Decimal(busNum)| + 1..] == Decimal(devAddr);
  }
}
