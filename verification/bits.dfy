/** Powers of two, bit lengths and the bitwise OR of naturals. */
module Bits {
  import opened NatArith

  function Pow2(k: nat): (p: nat)
    ensures p > 0
  {
    if k == 0 then 1 else 2 * Pow2(k - 1)
  }

  /** Left shift. */
  function Shl(x: nat, k: nat): nat {
    x * Pow2(k)
  }

  /** Right shift. */
  function Shr(v: nat, k: nat): nat {
    DivNonNegative(v, Pow2(k));
    v / Pow2(k)
  }

  /** `v & ((1 << k) - 1)`. */
  function LowBits(v: nat, k: nat): (r: nat)
    ensures r < Pow2(k)
  {
    v % Pow2(k)
  }

  /** Position of the highest set bit plus one: `BITS - leading_zeros`. */
  function BitLength(v: nat): nat {
    if v == 0 then 0 else 1 + BitLength(v / 2)
  }

  /** Bitwise OR, one binary digit at a time. */
  function Or(x: nat, y: nat): nat {
    if x == 0 then y
    else if y == 0 then x
    else 2 * Or(x / 2, y / 2) + (if x % 2 == 1 || y % 2 == 1 then 1 else 0)
  }

  lemma {:induction false} Pow2Add(a: nat, b: nat)
    ensures Pow2(a + b) == Pow2(a) * Pow2(b)
  {
    if a > 0 {
      Pow2Add(a - 1, b);
      assert Pow2(a + b) == 2 * Pow2(a - 1 + b);
      assert 2 * (Pow2(a - 1) * Pow2(b)) == (2 * Pow2(a - 1)) * Pow2(b);
    }
  }

  lemma Pow2Values()
    ensures Pow2(7) == 0x80 && Pow2(8) == 0x100
  {
    assert Pow2(4) == 2 * Pow2(3);
    assert Pow2(6) == 2 * Pow2(5);
  }

  lemma {:induction false} Pow2Mono(a: nat, b: nat)
    requires a <= b
    ensures Pow2(a) <= Pow2(b)
  {
    if a < b {
      Pow2Mono(a, b - 1);
    }
  }

  /** A value needs exactly `BitLength` bits: no fewer, no more. */
  lemma {:induction false} BitLengthBounds(v: nat)
    ensures v < Pow2(BitLength(v))
    ensures v > 0 ==> Pow2(BitLength(v) - 1) <= v
  {
    if v > 0 {
      BitLengthBounds(v / 2);
    }
  }

  lemma {:induction false} BitLengthUpper(v: nat, k: nat)
    requires v < Pow2(k)
    ensures BitLength(v) <= k
  {
    if v > 0 {
      if k == 0 {
        assert false;
      } else {
        BitLengthUpper(v / 2, k - 1);
      }
    }
  }

  lemma HalfOfShifted(y: nat, k: nat)
    requires k > 0
    ensures (y * Pow2(k)) / 2 == y * Pow2(k - 1)
    ensures (y * Pow2(k)) % 2 == 0
  {
    assert y * Pow2(k) == 2 * (y * Pow2(k - 1));
  }

  /** OR of values whose set bits do not overlap is their sum. */
  lemma {:induction false} OrDisjoint(x: nat, y: nat, k: nat)
    requires x < Pow2(k)
    ensures Or(x, Shl(y, k)) == x + Shl(y, k)
  {
    if x > 0 && Shl(y, k) > 0 {
      if k == 0 {
        assert false;
      } else {
        HalfOfShifted(y, k);
        OrDisjoint(x / 2, y, k - 1);
      }
    }
  }
}
