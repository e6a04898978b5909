/** Packing fields into bytes with OR, and reading them back by shifting and masking. */
module PackedBytes {
  import opened Prelude
  import opened Bits
  import opened Bytes
  import opened NatArith
  import opened BitPacking

  // ---------------------------------------------------------------------------
  // Reading
  // ---------------------------------------------------------------------------

  /** The fold of `unpack_row_id_delta_at_bit_offset`: each byte shifted to its place and ORed in. */
  function Gather(source: seq<u8>): nat {
    if source == [] then 0 else
      var last := |source| - 1;
      Or(Gather(source[..last]), Shl(source[last], 8 * last))
  }

  lemma WeightIsShift(x: nat, n: nat)
    ensures Pow256(n) * x == Shl(x, 8 * n)
  {
    Pow256IsPow2(n);
  }

  /** The number of a concatenation. */
  lemma ConcatSum(a: seq<u8>, b: seq<u8>)
    ensures FromLE(a) < Pow2(8 * |a|)
    ensures FromLE(a + b) == FromLE(a) + Shl(FromLE(b), 8 * |a|)
  {
    Pow256IsPow2(|a|);
    FromLEBound(a);
    FromLEConcat(a, b);
    WeightIsShift(FromLE(b), |a|);
  }

  /** How the parts of a concatenation are read out of its number. */
  lemma ConcatValue(a: seq<u8>, b: seq<u8>)
    ensures Shr(FromLE(a + b), 8 * |a|) == FromLE(b)
    ensures LowBits(FromLE(a + b), 8 * |a|) == FromLE(a) < Pow2(8 * |a|)
  {
    ConcatSum(a, b);
    DivShl(FromLE(a), FromLE(b), 8 * |a|);
  }

  lemma {:induction false} GatherIsValue(source: seq<u8>)
    ensures Gather(source) == FromLE(source)
  {
    if source != [] {
      var last := |source| - 1;
      var init := source[..last];
      GatherIsValue(init);
      ConcatSum(init, [source[last]]);
      OrDisjoint(FromLE(init), source[last], 8 * last);
      assert source == init + [source[last]];
      assert FromLE([source[last]]) == source[last];
    }
  }

  lemma PartsValue(low: seq<u8>, mid: seq<u8>, high: seq<u8>)
    ensures FromLE(mid) == LowBits(Shr(FromLE(low + (mid + high)), 8 * |low|), 8 * |mid|)
  {
    ConcatValue(low, mid + high);
    ConcatValue(mid, high);
  }

  lemma SliceValue(b: seq<u8>, i: nat, j: nat)
    requires i <= j <= |b|
    ensures FromLE(b[i..j]) == LowBits(Shr(FromLE(b), 8 * i), 8 * (j - i))
  {
    assert b == b[..i] + (b[i..j] + b[j..]);
    PartsValue(b[..i], b[i..j], b[j..]);
  }

  /** `unpack_row_id_delta_at_bit_offset`. */
  function UnpackAt(payload: seq<u8>, bitOffset: nat, width: nat): Option<nat> {
    if width == 0 then Some(0) else
      var start := bitOffset / 8;
      var count := DivCeil(bitOffset % 8 + width, 8);
      if start + count > |payload| then None
      else Some(LowBits(Shr(Gather(payload[start..start + count]), bitOffset % 8), width))
  }

  /** Bytes that a field at `bitOffset` reaches into. */
  lemma FieldBytes(bitOffset: nat, width: nat, total: nat)
    requires width > 0 && bitOffset + width <= total
    ensures bitOffset / 8 + DivCeil(bitOffset % 8 + width, 8) <= DivCeil(total, 8)
  {
  }

  lemma ShiftedField(v: nat, start: nat, shift: nat, width: nat, count: nat)
    requires shift + width <= 8 * count
    ensures LowBits(Shr(LowBits(Shr(v, 8 * start), 8 * count), shift), width) == LowBits(Shr(v, 8 * start + shift), width)
  {
    MiddleBits(Shr(v, 8 * start), shift, width, 8 * count);
    DivDiv(v, 8 * start, shift);
  }

  lemma UnpackParts(payload: seq<u8>, start: nat, shift: nat, width: nat, count: nat)
    requires start + count <= |payload| && shift + width <= 8 * count
    ensures LowBits(Shr(Gather(payload[start..start + count]), shift), width)
            == LowBits(Shr(FromLE(payload), 8 * start + shift), width)
  {
    GatherIsValue(payload[start..start + count]);
    SliceValue(payload, start, start + count);
    ShiftedField(FromLE(payload), start, shift, width, count);
  }

  /** Random access reads the field out of the number the payload denotes. */
  lemma UnpackIsField(payload: seq<u8>, bitOffset: nat, width: nat)
    requires DivCeil(bitOffset + width, 8) <= |payload|
    ensures UnpackAt(payload, bitOffset, width) == Some(LowBits(Shr(FromLE(payload), bitOffset), width))
  {
    if width == 0 {
      assert Pow2(0) == 1;
    } else {
      FieldBytes(bitOffset, width, bitOffset + width);
      UnpackParts(payload, bitOffset / 8, bitOffset % 8, width, DivCeil(bitOffset % 8 + width, 8));
      assert 8 * (bitOffset / 8) + bitOffset % 8 == bitOffset;
    }
  }

  // ---------------------------------------------------------------------------
  // Writing
  // ---------------------------------------------------------------------------

  lemma {:induction false} OrBound(x: nat, y: nat, k: nat)
    requires x < Pow2(k) && y < Pow2(k)
    ensures Or(x, y) < Pow2(k)
  {
    if x > 0 && y > 0 {
      if k == 0 {
        assert false;
      } else {
        OrBound(x / 2, y / 2, k - 1);
      }
    }
  }

  function OrByte(x: u8, y: u8): (r: u8) {
    Pow2Values();
    OrBound(x, y, 8);
    Or(x, y)
  }

  function OrBytes(x: seq<u8>, y: seq<u8>): (r: seq<u8>)
    requires |x| == |y|
    ensures |r| == |x|
  {
    seq(|x|, i requires 0 <= i < |x| => OrByte(x[i], y[i]))
  }

  lemma {:induction false} ZeroValue(b: seq<u8>)
    requires FromLE(b) == 0
    ensures AllZero(b)
  {
    if b != [] {
      ZeroValue(b[1..]);
      assert b == [b[0]] + b[1..];
    }
  }

  lemma {:induction false} ToLEAt(v: nat, width: nat, i: nat)
    requires i < width
    ensures ToLE(v, width)[i] == Shr(v, 8 * i) % 256
  {
    if i == 0 {
      assert Shr(v, 0) == v;
    } else {
      ToLEAt(v / 256, width - 1, i - 1);
      Pow2Values();
      assert v / 256 == Shr(v, 8);
      DivDiv(v, 8, 8 * (i - 1));
    }
  }

  /** The low byte of a shifted value has nothing below the shift. */
  lemma LowByte(delta: nat, shift: nat)
    requires shift <= 8
    ensures Shl(delta, shift) % 256 == Shl(LowBits(delta, 8 - shift), shift)
  {
    var (q, r) := (Shr(delta, 8 - shift), LowBits(delta, 8 - shift));
    SplitAtBit(delta, 8 - shift);
    ShlAdd(r, Shl(q, 8 - shift), shift);
    ShlShl(q, 8 - shift, shift);
    Pow2Values();
    ShlBound(0, r, shift, 8 - shift);
    DivUnique(Shl(delta, shift), 256, q, Shl(r, shift));
  }

  /** OR-ing a shifted field over bytes that end below the shift adds the field. */
  lemma OrIsAdd(mid: seq<u8>, delta: nat, shift: nat)
    requires mid != [] && shift <= 8 && FromLE(mid) < Pow2(shift) && Shl(delta, shift) < Pow256(|mid|)
    ensures FromLE(OrBytes(mid, ToLE(Shl(delta, shift), |mid|))) == FromLE(mid) + Shl(delta, shift)
  {
    var encoded := ToLE(Shl(delta, shift), |mid|);
    Pow2Values();
    Pow2Mono(shift, 8);
    assert FromLE(mid[1..]) == 0;
    ZeroValue(mid[1..]);
    var ored := OrBytes(mid, encoded);
    assert ored[1..] == encoded[1..];
    LowByte(delta, shift);
    OrDisjoint(mid[0], LowBits(delta, 8 - shift), shift);
    assert ored[0] == mid[0] + encoded[0];
    FromToLE(Shl(delta, shift), |mid|);
  }

  lemma SpliceLow(low: seq<u8>, rest: seq<u8>, rest': seq<u8>, added: nat)
    requires FromLE(rest') == FromLE(rest) + added
    ensures FromLE(low + rest') == FromLE(low + rest) + Shl(added, 8 * |low|)
  {
    ConcatSum(low, rest);
    ConcatSum(low, rest');
    SumWith(FromLE(low), FromLE(rest), FromLE(rest'), added, 8 * |low|);
  }

  lemma SumWith(low: nat, rest: nat, rest': nat, added: nat, k: nat)
    requires rest' == rest + added
    ensures low + Shl(rest', k) == low + Shl(rest, k) + Shl(added, k)
  {
    ShlAdd(rest, added, k);
  }

  /** Changing the middle bytes changes the number by the difference, at their weight. */
  lemma SpliceValue(low: seq<u8>, mid: seq<u8>, mid': seq<u8>, high: seq<u8>, added: nat)
    requires |mid'| == |mid| && FromLE(mid') == FromLE(mid) + added
    ensures FromLE(low + mid' + high) == FromLE(low + mid + high) + Shl(added, 8 * |low|)
  {
    ConcatSum(mid, high);
    ConcatSum(mid', high);
    SpliceLow(low, mid + high, mid' + high, added);
    ConcatAssoc(low, mid, high);
    ConcatAssoc(low, mid', high);
  }

  /** A number below bit `8 * |low| + shift` has its middle below the shift. */
  lemma MiddleBelow(low: seq<u8>, mid: seq<u8>, high: seq<u8>, shift: nat)
    requires FromLE(low + mid + high) < Pow2(8 * |low| + shift)
    ensures FromLE(mid) < Pow2(shift)
  {
    ConcatAssoc(low, mid, high);
    ConcatValue(low, mid + high);
    ShrBound(FromLE(low + (mid + high)), shift, 8 * |low|);
    ConcatSum(mid, high);
  }

  /** `pack_row_id_delta`: ORs a field into the payload, which adds it at its place. */
  method PackDelta(payload: array<u8>, node: nat, width: nat, delta: nat) returns (ok: bool)
    requires delta < Pow2(width)
    modifies payload
    ensures ok <==> DivCeil((node + 1) * width, 8) <= payload.Length || width == 0
    ensures !ok ==> payload[..] == old(payload[..])
    ensures ok && FromLE(old(payload[..])) < Pow2(node * width) ==>
              FromLE(payload[..]) == FromLE(old(payload[..])) + Shl(delta, node * width)
  {
    if width == 0 {
      assert delta == 0 && Shl(0, node * width) == 0;
      return true;
    }
    var bitOffset := node * width;
    assert (node + 1) * width == bitOffset + width;
    var start := bitOffset / 8;
    var shift := bitOffset % 8;
    var count := DivCeil(shift + width, 8);
    if start + count > payload.Length {
      return false;
    }
    ghost var before := payload[..];
    OrInto(payload, start, count, Shl(delta, shift));
    if FromLE(before) < Pow2(bitOffset) {
      ghost var (low, mid, high) := (before[..start], before[start..start + count], before[start + count..]);
      assert before == low + mid + high;
      PackedInto(low, mid, high, delta, shift, width);
      ShlShl(delta, shift, 8 * start);
    }
    return true;
  }

  /** ORs the bytes of a value over `count` bytes of the payload, one by one. */
  method OrInto(payload: array<u8>, start: nat, count: nat, encoded: nat)
    requires start + count <= payload.Length
    modifies payload
    ensures var before := old(payload[..]);
            payload[..] == before[..start] + OrBytes(before[start..start + count], ToLE(encoded, count)) + before[start + count..]
  {
    ghost var before := payload[..];
    ghost var (low, mid, high) := (before[..start], before[start..start + count], before[start + count..]);
    ghost var parts := ToLE(encoded, count);
    for i := 0 to count
      invariant payload[..start] == low && payload[start + count..] == high
      invariant forall j :: 0 <= j < i ==> payload[start + j] == OrByte(mid[j], parts[j])
      invariant forall j :: i <= j < count ==> payload[start + j] == mid[j]
    {
      ToLEAt(encoded, count, i);
      payload[start + i] := OrByte(payload[start + i], Shr(encoded, 8 * i) % 256);
    }
    assert payload[start..start + count] == OrBytes(mid, parts);
    assert payload[..] == low + OrBytes(mid, parts) + high;
  }

  lemma PackedInto(low: seq<u8>, mid: seq<u8>, high: seq<u8>, delta: nat, shift: nat, width: nat)
    requires mid != [] && shift <= 8 && delta < Pow2(width) && shift + width <= 8 * |mid|
    requires FromLE(low + mid + high) < Pow2(8 * |low| + shift)
    ensures FromLE(low + OrBytes(mid, ToLE(Shl(delta, shift), |mid|)) + high)
            == FromLE(low + mid + high) + Shl(Shl(delta, shift), 8 * |low|)
  {
    MiddleBelow(low, mid, high, shift);
    ShlBound(0, delta, shift, width);
    Pow2Mono(shift + width, 8 * |mid|);
    Pow256IsPow2(|mid|);
    OrIsAdd(mid, delta, shift);
    SpliceValue(low, mid, OrBytes(mid, ToLE(Shl(delta, shift), |mid|)), high, Shl(delta, shift));
  }
}
