/** Little-endian integers and arrays of them, as the storage format lays them out. */
module Bytes {
  import opened Prelude
  import opened NatArith

  function Pow256(n: nat): (p: nat)
    ensures p > 0
  {
    if n == 0 then 1 else 256 * Pow256(n - 1)
  }

  /** The low `width` bytes of `v`, least significant first. */
  function ToLE(v: nat, width: nat): (b: seq<u8>)
    ensures |b| == width
  {
    if width == 0 then [] else [v % 256] + ToLE(v / 256, width - 1)
  }

  function FromLE(b: seq<u8>): nat {
    if b == [] then 0 else b[0] + 256 * FromLE(b[1..])
  }

  lemma {:induction false} FromLEBound(b: seq<u8>)
    ensures FromLE(b) < Pow256(|b|)
  {
    if b != [] {
      FromLEBound(b[1..]);
    }
  }

  lemma {:induction false} FromToLE(v: nat, width: nat)
    requires v < Pow256(width)
    ensures FromLE(ToLE(v, width)) == v
  {
    if width > 0 {
      FromToLE(v / 256, width - 1);
      assert ToLE(v, width)[1..] == ToLE(v / 256, width - 1);
    }
  }

  lemma {:induction false} ToFromLE(b: seq<u8>)
    ensures ToLE(FromLE(b), |b|) == b
  {
    if b != [] {
      ToFromLE(b[1..]);
    }
  }

  lemma {:induction false} FromLEConcat(a: seq<u8>, b: seq<u8>)
    ensures FromLE(a + b) == FromLE(a) + Pow256(|a|) * FromLE(b)
  {
    if a == [] {
      assert a + b == b;
    } else {
      FromLEConcat(a[1..], b);
      assert (a + b)[1..] == a[1..] + b;
      assert 256 * (Pow256(|a| - 1) * FromLE(b)) == Pow256(|a|) * FromLE(b);
    }
  }

  function Zeros(n: nat): (z: seq<u8>)
    ensures |z| == n && forall i :: 0 <= i < n ==> z[i] == 0
  {
    seq(n, _ => 0)
  }

  predicate AllZero(b: seq<u8>) {
    forall i :: 0 <= i < |b| ==> b[i] == 0
  }

  /** An array of integers, each stored in `width` little-endian bytes. */
  function EncodeAll(vs: seq<nat>, width: nat): (b: seq<u8>)
    ensures |b| == |vs| * width
  {
    if vs == [] then [] else ToLE(vs[0], width) + EncodeAll(vs[1..], width)
  }

  /** `chunks_exact(width)` followed by `from_le_bytes` on every chunk. */
  function DecodeAll(b: seq<u8>, width: nat): (vs: seq<nat>)
    requires width > 0
    ensures |vs| == |b| / width
  {
    if |b| < width then [] else
      assert (|b| - width) / width == |b| / width - 1 by { DivStep(|b|, width); }
      [FromLE(b[..width])] + DecodeAll(b[width..], width)
  }

  lemma {:induction false} DecodeEncodeAll(vs: seq<nat>, width: nat)
    requires width > 0
    requires forall i :: 0 <= i < |vs| ==> vs[i] < Pow256(width)
    ensures DecodeAll(EncodeAll(vs, width), width) == vs
  {
    if vs != [] {
      var b := EncodeAll(vs, width);
      assert b[..width] == ToLE(vs[0], width);
      assert b[width..] == EncodeAll(vs[1..], width);
      FromToLE(vs[0], width);
      DecodeEncodeAll(vs[1..], width);
    }
  }

  lemma EncodeAllCons(v: nat, vs: seq<nat>, width: nat)
    ensures EncodeAll([v] + vs, width) == ToLE(v, width) + EncodeAll(vs, width)
  {
    assert ([v] + vs)[1..] == vs;
  }

  lemma {:induction false} EncodeDecodeAll(b: seq<u8>, width: nat)
    requires width > 0 && |b| % width == 0
    ensures EncodeAll(DecodeAll(b, width), width) == b
  {
    if |b| < width {
      DivUnique(|b|, width, 0, |b|);
    } else {
      var head, rest := b[..width], b[width..];
      DivUnique(|b| - width, width, |b| / width - 1, 0);
      EncodeDecodeAll(rest, width);
      ToFromLE(head);
      EncodeAllCons(FromLE(head), DecodeAll(rest, width), width);
      assert b == head + rest;
    }
  }

  lemma {:induction false} DecodeAllBound(b: seq<u8>, width: nat, i: nat)
    requires width > 0 && i < |DecodeAll(b, width)|
    ensures DecodeAll(b, width)[i] < Pow256(width)
  {
    FromLEBound(b[..width]);
    if i > 0 {
      DecodeAllBound(b[width..], width, i - 1);
    }
  }

  lemma WidthRanges()
    ensures Pow256(2) == U16_RANGE && Pow256(4) == U32_RANGE && Pow256(8) == U64_RANGE
  {
    assert Pow256(3) == 256 * 0x1_0000;
    assert Pow256(5) == 256 * 0x1_0000_0000;
    assert Pow256(7) == 256 * Pow256(6);
  }

  /** Byte i is the i-th digit to base 256. */
  lemma {:induction false} LittleEndianByte(v: nat, width: nat, i: nat)
    requires i < width
    ensures ToLE(v, width)[i] == v / Pow256(i) % 256
  {
    if i > 0 {
      LittleEndianByte(v / 256, width - 1, i - 1);
      DivDivNat(v, 256, Pow256(i - 1));
    }
  }

  /** Integer i of an array is at i times the width. */
  lemma {:induction false} EncodeAllAt(vs: seq<nat>, width: nat, i: nat)
    requires i < |vs|
    ensures 0 <= i * width <= i * width + width <= |EncodeAll(vs, width)|
    ensures EncodeAll(vs, width)[i * width..i * width + width] == ToLE(vs[i], width)
  {
    if i > 0 {
      EncodeAllAt(vs[1..], width, i - 1);
      assert i * width == (i - 1) * width + width;
      var (whole, rest) := (EncodeAll(vs, width), EncodeAll(vs[1..], width));
      assert whole[width..] == rest;
      assert whole[i * width..i * width + width] == rest[(i - 1) * width..(i - 1) * width + width];
    }
  }
}
