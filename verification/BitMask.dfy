/** Bitwise "and" and "or" on unsigned integers, bit by bit, with the laws the function masks need. */
module BitMask {

  function And(a: nat, b: nat): nat
  {
    if a == 0 || b == 0 then 0 else 2 * And(a / 2, b / 2) + (if a % 2 == 1 && b % 2 == 1 then 1 else 0)
  }

  function Or(a: nat, b: nat): nat
  {
    if a == 0 then b else if b == 0 then a
    else 2 * Or(a / 2, b / 2) + (if a % 2 == 1 || b % 2 == 1 then 1 else 0)
  }

  // At most one bit is set.
  predicate SingleBit(code: nat)
  {
    code <= 1 || (code % 2 == 0 && SingleBit(code / 2))
  }

  lemma {:induction false} OrHalves(a: nat, b: nat)
    ensures Or(a, b) / 2 == Or(a / 2, b / 2)
    ensures Or(a, b) % 2 == 1 <==> a % 2 == 1 || b % 2 == 1
  {
  }

  lemma {:induction false} AndHalves(a: nat, b: nat)
    ensures And(a, b) / 2 == And(a / 2, b / 2)
    ensures And(a, b) % 2 == 1 <==> a % 2 == 1 && b % 2 == 1
  {
  }

  lemma {:induction false} AndBound(a: nat, b: nat)
    ensures And(a, b) <= a && And(a, b) <= b
  {
    if a != 0 && b != 0 {
      AndBound(a / 2, b / 2);
    }
  }

  lemma {:induction false} InsideOrDisjoint(mask: nat, code: nat)
    requires SingleBit(code)
    ensures And(mask, code) == 0 || And(mask, code) == code
    decreases mask
  {
    if mask != 0 && code > 1 {
      InsideOrDisjoint(mask / 2, code / 2);
    }
  }

  // Adding a single bit to a mask adds it to the intersection exactly when the other side has it.
  lemma {:induction false} AndAddsBit(mask: nat, code: nat, union: nat)
    requires SingleBit(code)
    ensures And(mask, Or(code, union)) == if And(mask, code) != 0 then Or(code, And(mask, union)) else And(mask, union)
    decreases mask
  {
    if union == 0 {
      InsideOrDisjoint(mask, code);
    } else if mask != 0 && code != 0 {
      AndAddsBit(mask / 2, code / 2, union / 2);
      OrHalves(code, union);
      AndHalves(mask, code);
      AndHalves(mask, union);
      OrHalves(code, And(mask, union));
      AndHalves(mask, Or(code, union));
    }
  }

  lemma {:induction false} AndBelowBit(mask: nat, code: nat)
    requires SingleBit(code) && mask < code
    ensures And(mask, code) == 0
  {
    if mask != 0 {
      AndBelowBit(mask / 2, code / 2);
    }
  }

  lemma {:induction false} OrAssociates(a: nat, b: nat, c: nat)
    ensures Or(Or(a, b), c) == Or(a, Or(b, c))
  {
    if a != 0 && b != 0 && c != 0 {
      OrAssociates(a / 2, b / 2, c / 2);
      OrHalves(a, b);
      OrHalves(b, c);
    }
  }

  lemma {:induction false} OrCommutes(a: nat, b: nat)
    ensures Or(a, b) == Or(b, a)
  {
    if a != 0 && b != 0 {
      OrCommutes(a / 2, b / 2);
    }
  }

  lemma OrSwaps(a: nat, b: nat, c: nat)
    ensures Or(a, Or(b, c)) == Or(b, Or(a, c))
  {
    OrAssociates(a, b, c);
    OrAssociates(b, a, c);
    OrCommutes(a, b);
  }

  lemma {:induction false} OrBound(a: nat, b: nat)
    ensures Or(a, b) <= a + b
  {
    if a != 0 && b != 0 {
      OrBound(a / 2, b / 2);
    }
  }

  // A bit above the mask makes no difference to the intersection.
  lemma AndSkipsHighBit(mask: nat, code: nat, union: nat)
    requires SingleBit(code) && mask < code
    ensures And(mask, Or(code, union)) == And(mask, union)
  {
    AndBelowBit(mask, code);
    AndAddsBit(mask, code, union);
  }

  /// Single bits by position

  predicate Bit(a: nat, i: nat)
  {
    if i == 0 then a % 2 == 1 else Bit(a / 2, i - 1)
  }

  // a & ~(1 << i)
  function Clear(a: nat, i: nat): (cleared: nat)
    ensures cleared <= a
  {
    if i == 0 then a - a % 2 else 2 * Clear(a / 2, i - 1) + a % 2
  }

  lemma {:induction false} BitOfClear(a: nat, i: nat, j: nat)
    ensures Bit(Clear(a, i), j) <==> j != i && Bit(a, j)
  {
    if i == 0 {
      assert Clear(a, 0) / 2 == a / 2;
    } else {
      assert Clear(a, i) / 2 == Clear(a / 2, i - 1) && Clear(a, i) % 2 == a % 2;
      if j > 0 {
        BitOfClear(a / 2, i - 1, j - 1);
      }
    }
  }

  lemma {:induction false} ZeroHasNoBit(j: nat)
    ensures !Bit(0, j)
  {
    if j > 0 {
      ZeroHasNoBit(j - 1);
    }
  }

  // Some bit of a non-zero mask is set.
  lemma {:induction false} SomeBit(a: nat) returns (j: nat)
    requires a != 0
    ensures Bit(a, j)
  {
    if a % 2 == 1 {
      j := 0;
    } else {
      var rest := SomeBit(a / 2);
      j := rest + 1;
    }
  }

  function Pow2(i: nat): (p: nat)
    ensures p > 0
  {
    if i == 0 then 1 else 2 * Pow2(i - 1)
  }

  lemma Pow2Word()
    ensures Pow2(31) == 0x8000_0000 && Pow2(32) == 0x1_0000_0000
  {
    var half := Pow2(16);
    assert Pow2(4) == 0x10;
    assert Pow2(8) == 0x100;
    assert Pow2(12) == 0x1000;
    assert half == 0x1_0000;
    assert Pow2(20) == 0x10_0000;
    assert Pow2(24) == 0x100_0000;
    assert Pow2(28) == 0x1000_0000;
  }

  lemma {:induction false} Pow2Grows(i: nat, j: nat)
    requires i <= j
    ensures Pow2(i) <= Pow2(j)
  {
    if i < j {
      Pow2Grows(i, j - 1);
    }
  }

  lemma {:induction false} BitOfPow2(i: nat, j: nat)
    ensures Bit(Pow2(i), j) <==> i == j
  {
    if i == 0 {
      if j > 0 {
        ZeroHasNoBit(j - 1);
      }
    } else if j > 0 {
      assert Pow2(i) / 2 == Pow2(i - 1);
      BitOfPow2(i - 1, j - 1);
    }
  }

  // A number has no bit at or above one that exceeds it.
  lemma {:induction false} BitBelow(a: nat, n: nat, j: nat)
    requires a < Pow2(n) && n <= j
    ensures !Bit(a, j)
  {
    if n == 0 {
      ZeroHasNoBit(j);
    } else {
      BitBelow(a / 2, n - 1, j - 1);
    }
  }

  lemma {:induction false} BitOfAnd(a: nat, b: nat, j: nat)
    ensures Bit(And(a, b), j) <==> Bit(a, j) && Bit(b, j)
  {
    AndHalves(a, b);
    if j > 0 {
      BitOfAnd(a / 2, b / 2, j - 1);
    }
  }

  // Numbers with the same bits are the same.
  lemma {:induction false} SameBits(a: nat, b: nat)
    requires forall j: nat :: Bit(a, j) == Bit(b, j)
    ensures a == b
  {
    assert Bit(a, 0) == Bit(b, 0);
    if a != 0 || b != 0 {
      forall j: nat ensures Bit(a / 2, j) == Bit(b / 2, j) {
        assert Bit(a, j + 1) == Bit(b, j + 1);
      }
      if a < 2 && b < 2 {
      } else {
        SameBits(a / 2, b / 2);
      }
    }
  }

  // Testing a mask against one bit, and taking that bit off.
  lemma {:induction false} OneBit(a: nat, i: nat)
    ensures And(a, Pow2(i)) != 0 <==> Bit(a, i)
    ensures Clear(a, i) == if Bit(a, i) then a - Pow2(i) else a
  {
    if i > 0 {
      assert Pow2(i) / 2 == Pow2(i - 1) && Pow2(i) % 2 == 0;
      OneBit(a / 2, i - 1);
      if a == 0 {
        ZeroHasNoBit(i);
      }
    } else {
      AndHalves(a, 1);
    }
  }
}
