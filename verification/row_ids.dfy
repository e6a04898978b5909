/**
 * Row IDs: raw `i64`s, or frame-of-reference bit packing of `row_id - minimum`. The packed
 * form is kept in memory and read by random access or in sequence.
 */
module RowIds {
  import opened Prelude
  import opened Bits
  import opened Bytes
  import opened BitPacking
  import opened PackedBytes

  datatype Storage =
    | Raw(rowIds: seq<i64>)
    | ForBitPacked(base: i64, bitWidth: nat, count: nat, payload: seq<u8>)
  {
    function Len(): nat {
      match this
      case Raw(rowIds) => |rowIds|
      case ForBitPacked(_, _, count, _) => count
    }

    /** `RowIdStorage::get`. */
    function Get(node: nat): Option<i64> {
      match this
      case Raw(rowIds) => if node < |rowIds| then Some(rowIds[node]) else None
      case ForBitPacked(base, bitWidth, count, payload) =>
        if node >= count || node * bitWidth >= U64_RANGE then None else
          match UnpackAt(payload, node * bitWidth, bitWidth)
          case None => None
          case Some(delta) => ToI64(base + delta)
    }
  }

  /** `i64::try_from`. */
  function ToI64(x: int): Option<i64> {
    if -0x8000_0000_0000_0000 <= x < 0x8000_0000_0000_0000 then Some(x) else None
  }

  // ---------------------------------------------------------------------------
  // Encoding
  // ---------------------------------------------------------------------------

  ghost predicate IsMinimum(base: int, rowIds: seq<i64>) {
    base in rowIds && forall i :: 0 <= i < |rowIds| ==> base <= rowIds[i]
  }

  ghost predicate IsMaximum(top: int, rowIds: seq<i64>) {
    top in rowIds && forall i :: 0 <= i < |rowIds| ==> rowIds[i] <= top
  }

  function Deltas(rowIds: seq<i64>, base: int): (ds: seq<nat>)
    requires forall i :: 0 <= i < |rowIds| ==> base <= rowIds[i]
    ensures |ds| == |rowIds| && forall i :: 0 <= i < |rowIds| ==> ds[i] == rowIds[i] - base
  {
    seq(|rowIds|, i requires 0 <= i < |rowIds| => rowIds[i] - base)
  }

  /** Every packed field fits, and the payload is the number they pack to, in as few bytes as hold it. */
  ghost predicate PacksTo(storage: Storage, rowIds: seq<i64>)
    requires storage.ForBitPacked?
  {
    && storage.count == |rowIds|
    && storage.bitWidth < 64
    && |storage.payload| == DivCeil(storage.count * storage.bitWidth, 8)
    && (forall i :: 0 <= i < |rowIds| ==> storage.base <= rowIds[i])
    && Fits(Deltas(rowIds, storage.base), storage.bitWidth)
    && FromLE(storage.payload) == Packed(Deltas(rowIds, storage.base), storage.bitWidth)
  }

  /** What encoding promises: the minimum as base, the narrowest width, raw only for a 64-bit span. */
  ghost predicate Encodes(storage: Storage, rowIds: seq<i64>, base: int, top: int) {
    match storage
    case Raw(stored) => stored == rowIds && top - base >= Pow2(63)
    case ForBitPacked(b, w, _, _) => b == base <= top && w == BitLength(top - base) && PacksTo(storage, rowIds)
  }

  method Extent(rowIds: seq<i64>) returns (base: i64, top: i64)
    requires rowIds != []
    ensures IsMinimum(base, rowIds) && IsMaximum(top, rowIds)
  {
    base, top := rowIds[0], rowIds[0];
    for node := 1 to |rowIds|
      invariant base in rowIds && top in rowIds
      invariant forall i :: 0 <= i < node ==> base <= rowIds[i] <= top
    {
      base := Min(base, rowIds[node]);
      top := Max(top, rowIds[node]);
    }
  }

  lemma SpanWidth(span: nat)
    requires span < U64_RANGE
    ensures BitLength(span) <= 64 && (BitLength(span) == 64 <==> span >= Pow2(63))
  {
    SixtyFour();
    BitLengthUpper(span, 64);
    BitLengthBounds(span);
    if span < Pow2(63) {
      BitLengthUpper(span, 63);
    } else if BitLength(span) <= 63 {
      Pow2Mono(BitLength(span), 63);
      assert false;
    }
  }

  lemma SixtyFour()
    ensures Pow2(64) == U64_RANGE && Pow2(63) == 0x8000_0000_0000_0000
  {
    WidthRanges();
    Pow256IsPow2(8);
  }

  lemma DeltasFit(rowIds: seq<i64>, base: int, top: int)
    requires IsMinimum(base, rowIds) && IsMaximum(top, rowIds)
    ensures Fits(Deltas(rowIds, base), BitLength(top - base))
  {
    BitLengthBounds(top - base);
  }

  method PackAll(rowIds: seq<i64>, base: i64, width: nat, payloadLen: nat) returns (payload: seq<u8>)
    requires forall i :: 0 <= i < |rowIds| ==> base <= rowIds[i]
    requires Fits(Deltas(rowIds, base), width) && payloadLen == DivCeil(|rowIds| * width, 8)
    ensures |payload| == payloadLen && FromLE(payload) == Packed(Deltas(rowIds, base), width)
  {
    var buffer := new u8[payloadLen](_ => 0);
    ghost var deltas := Deltas(rowIds, base);
    ZerosValue(buffer[..]);
    for node := 0 to |rowIds|
      invariant fresh(buffer)
      invariant FromLE(buffer[..]) == Packed(deltas[..node], width)
    {
      PackedBound(deltas[..node], width);
      Room(node, |rowIds|, width);
      var ok := PackDelta(buffer, node, width, rowIds[node] - base);
      PackedSnoc(deltas[..node], deltas[node], width);
      assert deltas[..node + 1] == deltas[..node] + [deltas[node]];
    }
    assert deltas[..|rowIds|] == deltas;
    payload := buffer[..];
  }

  lemma Room(node: nat, count: nat, width: nat)
    requires node < count
    ensures (node + 1) * width <= count * width && DivCeil((node + 1) * width, 8) <= DivCeil(count * width, 8)
    ensures node * width + width == (node + 1) * width
  {
    NatMono(node + 1, count, width);
  }

  lemma NatMono(a: nat, b: nat, w: nat)
    requires a <= b
    ensures a * w <= b * w
  {
  }

  lemma {:induction false} ZerosValue(b: seq<u8>)
    requires AllZero(b)
    ensures FromLE(b) == 0
  {
    if b != [] {
      ZerosValue(b[1..]);
    }
  }

  /**
   * `RowIdStorage::encode_from_fn`. It fails only on an empty input or when the payload
   * length overflows, which no in-range node count reaches.
   */
  method Encode(rowIds: seq<i64>) returns (r: Result<Storage>)
    ensures r.Ok? ==> rowIds != [] && exists base: i64, top: i64 :: IsMinimum(base, rowIds) && IsMaximum(top, rowIds) && Encodes(r.value, rowIds, base, top)
    ensures rowIds == [] ==> r == Err(InvalidInput)
    ensures 0 < |rowIds| < U32_RANGE ==> r.Ok?
    ensures r.Err? ==> r.kind == InvalidInput
  {
    if rowIds == [] {
      return Err(InvalidInput);
    }
    var base, top := Extent(rowIds);
    var span: int := top as int - base as int;
    var width := BitLength(span);
    SpanWidth(span);
    if width == 64 {
      return Ok(Raw(rowIds));
    }
    NatMono(0, |rowIds|, width);
    var bits := |rowIds| * width;
    if |rowIds| < U32_RANGE {
      WidthSmall(|rowIds|, width);
    }
    if bits + 7 >= U64_RANGE {
      return Err(InvalidInput);
    }
    DeltasFit(rowIds, base, top);
    var payload := PackAll(rowIds, base, width, DivCeil(bits, 8));
    return Ok(ForBitPacked(base, width, |rowIds|, payload));
  }

  lemma WidthSmall(count: nat, width: nat)
    requires count < U32_RANGE && width < 64
    ensures count * width + 7 < U64_RANGE
  {
    assert count * width <= count * 64;
  }

  // ---------------------------------------------------------------------------
  // Reading back
  // ---------------------------------------------------------------------------

  lemma BytesFor(bits: nat, total: nat)
    requires bits <= total
    ensures DivCeil(bits, 8) <= DivCeil(total, 8)
  {
  }

  lemma FieldRead(payload: seq<u8>, deltas: seq<nat>, width: nat, node: nat)
    requires Fits(deltas, width) && node < |deltas| && |payload| == DivCeil(|deltas| * width, 8)
    requires FromLE(payload) == Packed(deltas, width)
    ensures UnpackAt(payload, node * width, width) == Some(deltas[node])
  {
    var bit: nat := node * width;
    Room(node, |deltas|, width);
    BytesFor(bit + width, |deltas| * width);
    PackedField(deltas, width, node);
    UnpackIsField(payload, bit, width);
  }

  /** Random access gives every row ID back, and nothing past the end. */
  lemma PackedGet(storage: Storage, rowIds: seq<i64>, node: nat)
    requires storage.ForBitPacked? && PacksTo(storage, rowIds) && storage.count * storage.bitWidth < U64_RANGE
    ensures storage.Get(node) == if node < |rowIds| then Some(rowIds[node]) else None
  {
    if node < |rowIds| {
      FieldRead(storage.payload, Deltas(rowIds, storage.base), storage.bitWidth, node);
      NatMono(node, |rowIds|, storage.bitWidth);
    }
  }

  /** Encoding and reading back by random access is the identity. */
  lemma EncodedGet(storage: Storage, rowIds: seq<i64>, base: int, top: int, node: nat)
    requires |rowIds| < U32_RANGE && Encodes(storage, rowIds, base, top)
    ensures storage.Len() == |rowIds|
    ensures storage.Get(node) == if node < |rowIds| then Some(rowIds[node]) else None
  {
    if storage.ForBitPacked? {
      WidthSmall(storage.count, storage.bitWidth);
      PackedGet(storage, rowIds, node);
    }
  }

  /**
   * `RowIdStorage::try_for_each` with a visitor that records what it is given. On every
   * storage whose bit offsets fit, the sequential reader agrees with random access.
   */
  method ForEach(storage: Storage) returns (r: Result<seq<i64>>)
    requires storage.ForBitPacked? ==> storage.count * storage.bitWidth + 63 < U64_RANGE && storage.bitWidth < 64
    ensures r.Ok? <==> forall node :: 0 <= node < storage.Len() ==> storage.Get(node).Some?
    ensures r.Ok? ==> |r.value| == storage.Len() && forall node :: 0 <= node < storage.Len() ==> storage.Get(node) == Some(r.value[node])
    ensures r.Err? ==> r.kind == InvalidData
  {
    match storage {
      case Raw(rowIds) =>
        return Ok(rowIds);
      case ForBitPacked(base, bitWidth, count, payload) =>
        var visited: seq<i64> := [];
        var bitOffset := 0;
        for node := 0 to count
          invariant bitOffset == node * bitWidth && |visited| == node
          invariant forall i :: 0 <= i < node ==> storage.Get(i) == Some(visited[i])
        {
          NatMono(node, count, bitWidth);
          var delta := UnpackAt(payload, bitOffset, bitWidth);
          if delta.None? {
            assert storage.Get(node).None?;
            return Err(InvalidData);
          }
          var rowId := ToI64(base + delta.value);
          if rowId.None? {
            assert storage.Get(node).None?;
            return Err(InvalidData);
          }
          visited := visited + [rowId.value];
          assert node * bitWidth + bitWidth == (node + 1) * bitWidth;
          bitOffset := bitOffset + bitWidth;
        }
        return Ok(visited);
    }
  }

  /**
   * The width is the narrowest: every row ID fits it above the base, and one would not fit a bit
   * less. Raw storage is used only if some row ID needs all 64 bits.
   */
  lemma WidthIsNarrowest(storage: Storage, rowIds: seq<i64>, base: i64, top: i64)
    requires IsMinimum(base, rowIds) && IsMaximum(top, rowIds) && Encodes(storage, rowIds, base, top)
    ensures storage.ForBitPacked? ==> storage.base == base && forall i :: 0 <= i < |rowIds| ==> rowIds[i] - base < Pow2(storage.bitWidth)
    ensures storage.ForBitPacked? && storage.bitWidth > 0 ==> exists i :: 0 <= i < |rowIds| && rowIds[i] - base >= Pow2(storage.bitWidth - 1)
    ensures storage.Raw? <==> exists i :: 0 <= i < |rowIds| && rowIds[i] - base >= 0x8000_0000_0000_0000
  {
    var k :| 0 <= k < |rowIds| && rowIds[k] == top;
    SixtyFour();
    SpanWidth(top - base);
    BitLengthBounds(top - base);
    if storage.ForBitPacked? {
      assert rowIds[k] - base == top - base;
    }
  }
}
