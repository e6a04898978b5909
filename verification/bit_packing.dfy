/**
 * Fixed-width fields packed least significant bit first: the number a payload denotes,
 * how OR-ing a field into it adds to that number, and how a field is read back.
 */
module BitPacking {
  import opened Prelude
  import opened Bits
  import opened Bytes
  import opened NatArith

  /** The sum of `fields[i] * 2^(i * width)`. */
  function Packed(fields: seq<nat>, width: nat): nat {
    if fields == [] then 0 else fields[0] + Shl(Packed(fields[1..], width), width)
  }

  predicate Fits(fields: seq<nat>, width: nat) {
    forall i :: 0 <= i < |fields| ==> fields[i] < Pow2(width)
  }

  // ---------------------------------------------------------------------------
  // Powers of two
  // ---------------------------------------------------------------------------

  lemma {:induction false} Pow256IsPow2(n: nat)
    ensures Pow256(n) == Pow2(8 * n)
  {
    if n > 0 {
      Pow256IsPow2(n - 1);
      Pow2Values();
      Pow2Add(8, 8 * (n - 1));
    }
  }

  lemma ShlShl(x: nat, a: nat, b: nat)
    ensures Shl(Shl(x, a), b) == Shl(x, a + b)
  {
    Pow2Add(a, b);
    assert (x * Pow2(a)) * Pow2(b) == x * (Pow2(a) * Pow2(b));
  }

  lemma ShlAdd(x: nat, y: nat, a: nat)
    ensures Shl(x + y, a) == Shl(x, a) + Shl(y, a)
  {
    assert (x + y) * Pow2(a) == x * Pow2(a) + y * Pow2(a);
  }

  lemma ShlBound(low: nat, high: nat, a: nat, b: nat)
    requires low < Pow2(a) && high < Pow2(b)
    ensures low + Shl(high, a) < Pow2(a + b)
  {
    Pow2Add(b, a);
    DigitsBound(low, high, Pow2(a), Pow2(b));
  }

  lemma DivShl(low: nat, high: nat, a: nat)
    requires low < Pow2(a)
    ensures Shr(low + Shl(high, a), a) == high && LowBits(low + Shl(high, a), a) == low
  {
    DivUnique(low + Shl(high, a), Pow2(a), high, low);
  }

  lemma SplitAtBit(v: nat, k: nat)
    ensures v == LowBits(v, k) + Shl(Shr(v, k), k)
  {
  }

  lemma ShrBound(v: nat, a: nat, b: nat)
    requires v < Pow2(a + b)
    ensures Shr(v, b) < Pow2(a)
  {
    Pow2Add(a, b);
    DivBound(v, Pow2(a), Pow2(b));
  }

  /** Dropping `a` bits and then `b` bits drops `a + b` bits. */
  lemma DivDiv(v: nat, a: nat, b: nat)
    ensures Shr(Shr(v, a), b) == Shr(v, a + b)
  {
    Pow2Add(b, a);
    DivDivNat(v, Pow2(a), Pow2(b));
  }

  /** Bits above position `a + b` do not show in bits `a .. a + b`. */
  lemma MiddleBits(v: nat, a: nat, b: nat, c: nat)
    requires a + b <= c
    ensures LowBits(Shr(LowBits(v, c), a), b) == LowBits(Shr(v, a), b)
  {
    Pow2Add(c - a - b, b);
    Pow2Add(c - a, a);
    MiddleDigit(v, Pow2(a), Pow2(b), Pow2(c - a - b));
  }

  // ---------------------------------------------------------------------------
  // Packed numbers
  // ---------------------------------------------------------------------------

  lemma {:induction false} PackedBound(fields: seq<nat>, width: nat)
    requires Fits(fields, width)
    ensures Packed(fields, width) < Pow2(|fields| * width)
  {
    if fields != [] {
      PackedBound(fields[1..], width);
      ShlBound(fields[0], Packed(fields[1..], width), width, (|fields| - 1) * width);
      assert width + (|fields| - 1) * width == |fields| * width;
    }
  }

  lemma {:induction false} PackedSnoc(fields: seq<nat>, field: nat, width: nat)
    ensures Packed(fields + [field], width) == Packed(fields, width) + Shl(field, |fields| * width)
  {
    if fields == [] {
      assert (fields + [field])[1..] == [];
      assert Shl(0, width) == 0 && Shl(field, 0) == field;
    } else {
      PackedSnoc(fields[1..], field, width);
      assert (fields + [field])[1..] == fields[1..] + [field];
      var (low, high) := (Packed(fields[1..], width), Shl(field, (|fields| - 1) * width));
      ShlAdd(low, high, width);
      ShlShl(field, (|fields| - 1) * width, width);
      assert (|fields| - 1) * width + width == |fields| * width;
    }
  }

  /** Field `k` of a packed number. */
  lemma {:induction false} PackedField(fields: seq<nat>, width: nat, k: nat)
    requires Fits(fields, width) && k < |fields|
    ensures LowBits(Shr(Packed(fields, width), k * width), width) == fields[k]
  {
    DivShl(fields[0], Packed(fields[1..], width), width);
    if k == 0 {
      assert Shr(Packed(fields, width), 0) == Packed(fields, width);
    } else {
      PackedField(fields[1..], width, k - 1);
      DivDiv(Packed(fields, width), width, (k - 1) * width);
      assert width + (k - 1) * width == k * width;
    }
  }

  /** The first `n` fields of a number. */
  function FieldsOf(v: nat, width: nat, n: nat): (fields: seq<nat>)
    ensures |fields| == n && Fits(fields, width)
    decreases n
  {
    if n == 0 then [] else [LowBits(v, width)] + FieldsOf(Shr(v, width), width, n - 1)
  }

  lemma {:induction false} FieldAt(v: nat, width: nat, n: nat, i: nat)
    requires i < n
    ensures FieldsOf(v, width, n)[i] == LowBits(Shr(v, i * width), width)
    decreases n
  {
    if i == 0 {
      assert Shr(v, 0) == v;
    } else {
      FieldAt(Shr(v, width), width, n - 1, i - 1);
      DivDiv(v, width, (i - 1) * width);
      assert width + (i - 1) * width == i * width;
    }
  }

  /** A number that fits `n` fields is the packing of its own fields. */
  lemma {:induction false} PackedFieldsOf(v: nat, width: nat, n: nat)
    requires v < Pow2(n * width)
    ensures Packed(FieldsOf(v, width, n), width) == v
    decreases n
  {
    if n > 0 {
      assert n * width == (n - 1) * width + width;
      ShrBound(v, (n - 1) * width, width);
      SplitAtBit(v, width);
      PackedFieldsOf(Shr(v, width), width, n - 1);
      assert FieldsOf(v, width, n)[1..] == FieldsOf(Shr(v, width), width, n - 1);
    }
  }
}
