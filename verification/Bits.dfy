/** Bitwise operators on natural numbers, defined bit by bit. */
module Bits {
  import opened GoBytes

  function And(x: nat, y: nat): nat {
    if x == 0 && y == 0 then 0
    else (if x % 2 == 1 && y % 2 == 1 then 1 else 0) + 2 * And(x / 2, y / 2)
  }

  function Or(x: nat, y: nat): nat {
    if x == 0 && y == 0 then 0
    else (if x % 2 == 1 || y % 2 == 1 then 1 else 0) + 2 * Or(x / 2, y / 2)
  }

  function Xor(x: nat, y: nat): nat {
    if x == 0 && y == 0 then 0
    else (if x % 2 != y % 2 then 1 else 0) + 2 * Xor(x / 2, y / 2)
  }

  /** Bit `k` of `x`, counting from the least significant. */
  predicate Bit(x: nat, k: nat) { x / Pow2(k) % 2 == 1 }

  lemma {:induction false} Bounds(x: nat, y: nat, k: nat)
    requires x < Pow2(k) && y < Pow2(k)
    ensures And(x, y) < Pow2(k) && Or(x, y) < Pow2(k) && Xor(x, y) < Pow2(k)
  {
    if !(x == 0 && y == 0) {
      Bounds(x / 2, y / 2, k - 1);
    }
  }

  lemma {:induction false} OrZero(x: nat)
    ensures Or(x, 0) == x
  {
    if x != 0 {
      OrZero(x / 2);
    }
  }

  /** `x << k | y` is a sum when `y` fits below bit `k`. */
  lemma {:induction false} OrDisjoint(x: nat, k: nat, y: nat)
    requires y < Pow2(k)
    ensures Or(x * Pow2(k), y) == x * Pow2(k) + y
  {
    if k == 0 {
      OrZero(x);
    } else {
      var z := x * Pow2(k - 1);
      DoubleProduct(x, Pow2(k - 1));
      assert x * Pow2(k) == 2 * z;
      OrDisjoint(x, k - 1, y / 2);
      assert 2 * z / 2 == z && 2 * z % 2 == 0;
    }
  }

  /** Masking with `2^k - 1` keeps the low `k` bits. */
  lemma {:induction false} AndMask(x: nat, k: nat)
    ensures And(x, Pow2(k) - 1) == x % Pow2(k)
  {
    if k == 0 {
      AndZero(x);
    } else {
      var p := Pow2(k - 1);
      assert Pow2(k) == 2 * p;
      AndMask(x / 2, k - 1);
      AndMaskStep(x, p);
    }
  }

  lemma AndMaskStep(x: nat, p: nat)
    requires p > 0 && And(x / 2, p - 1) == x / 2 % p
    ensures And(x, 2 * p - 1) == x % (2 * p)
  {
    hide And;
    DivModDouble(x, p);
    AndOdd(x, p);
  }

  lemma AndOdd(x: nat, p: nat)
    requires p > 0
    ensures And(x, 2 * p - 1) == 2 * And(x / 2, p - 1) + x % 2
  {
    var y := 2 * p - 1;
    assert y % 2 == 1 && y / 2 == p - 1;
  }

  lemma {:induction false} AndZero(x: nat)
    ensures And(x, 0) == 0
  {
    if x != 0 {
      AndZero(x / 2);
    }
  }

  /** Testing one bit with a mask: `x & (1 << k) != 0`. */
  lemma {:induction false} AndBit(x: nat, k: nat)
    ensures And(x, Pow2(k)) != 0 <==> Bit(x, k)
  {
    if k == 0 {
      AndZero(x / 2);
    } else {
      AndBit(x / 2, k - 1);
      DivModDouble(x, Pow2(k - 1));
      assert Pow2(k) / 2 == Pow2(k - 1) && Pow2(k) % 2 == 0;
    }
  }

  // ------------------------------------------------------ bit by bit

  lemma BitHalf(x: nat, k: nat)
    requires k > 0
    ensures Bit(x, k) <==> Bit(x / 2, k - 1)
  {
    DivModDouble(x, Pow2(k - 1));
  }

  lemma BitLow(x: nat)
    ensures Bit(x, 0) <==> x % 2 == 1
  {
    assert Pow2(0) == 1;
  }

  lemma {:induction false} BitsOfZero(k: nat)
    ensures !Bit(0, k)
  {
    hide Bit;
    if k > 0 {
      BitsOfZero(k - 1);
      BitHalf(0, k);
    } else {
      BitLow(0);
    }
  }

  lemma {:induction false} BitsOf(x: nat, y: nat, k: nat)
    ensures Bit(And(x, y), k) <==> Bit(x, k) && Bit(y, k)
    ensures Bit(Or(x, y), k) <==> Bit(x, k) || Bit(y, k)
    ensures Bit(Xor(x, y), k) <==> Bit(x, k) != Bit(y, k)
  {
    hide Bit;
    var a, o, e := And(x, y), Or(x, y), Xor(x, y);
    if x == 0 && y == 0 {
      BitsOfZero(k);
    } else if k == 0 {
      BitLow(a);
      BitLow(o);
      BitLow(e);
      BitLow(x);
      BitLow(y);
    } else {
      assert a / 2 == And(x / 2, y / 2) && o / 2 == Or(x / 2, y / 2) && e / 2 == Xor(x / 2, y / 2);
      hide And, Or, Xor;
      BitHalf(a, k);
      BitHalf(o, k);
      BitHalf(e, k);
      BitHalf(x, k);
      BitHalf(y, k);
      BitsOf(x / 2, y / 2, k - 1);
    }
  }

  lemma {:induction false} BitShifted(x: nat, n: nat, y: nat, k: nat)
    requires y == x / Pow2(n)
    ensures Bit(y, k) <==> Bit(x, k + n)
  {
    hide Bit;
    if n == 0 {
      assert Pow2(0) == 1;
    } else {
      DivModDouble(x, Pow2(n - 1));
      BitHalf(x, k + n);
      BitShifted(x / 2, n - 1, y, k);
    }
  }

  lemma {:induction false} BitScaled(x: nat, n: nat, y: nat, k: nat)
    requires y == x * Pow2(n)
    ensures Bit(y, k) <==> k >= n && Bit(x, k - n)
  {
    hide Bit;
    if n == 0 {
      assert Pow2(0) == 1;
    } else {
      var z := x * Pow2(n - 1);
      DoubleProduct(x, Pow2(n - 1));
      assert y == 2 * z;
      if k == 0 {
        BitLow(y);
      } else {
        BitHalf(y, k);
        BitScaled(x, n - 1, z, k - 1);
      }
    }
  }

  lemma {:induction false} BitReduced(x: nat, m: nat, y: nat, k: nat)
    requires y == x % Pow2(m)
    ensures Bit(y, k) <==> k < m && Bit(x, k)
  {
    hide Bit;
    if m == 0 {
      assert Pow2(0) == 1;
      BitsOfZero(k);
    } else {
      DivModDouble(x, Pow2(m - 1));
      if k == 0 {
        BitLow(x);
        BitLow(y);
      } else {
        BitHalf(x, k);
        BitHalf(y, k);
        BitReduced(x / 2, m - 1, y / 2, k - 1);
      }
    }
  }

  lemma {:induction false} BitComplement(x: nat, m: nat, y: nat, k: nat)
    requires x + y == Pow2(m) - 1 && k < m
    ensures Bit(y, k) <==> !Bit(x, k)
  {
    hide Bit;
    assert Pow2(m) == 2 * Pow2(m - 1);
    if k == 0 {
      BitLow(x);
      BitLow(y);
    } else {
      BitHalf(x, k);
      BitHalf(y, k);
      BitComplement(x / 2, m - 1, y / 2, k - 1);
    }
  }
}
