/** The row-ID section: a 32-byte header and a raw or packed payload. */
module RowIdSection {
  import opened Prelude
  import opened Bits
  import opened Bytes
  import opened BitPacking
  import opened PackedBytes
  import opened RowIds

  const HEADER_SIZE: nat := 32
  const ENCODING_RAW_I64: nat := 0
  const ENCODING_FOR_BITPACK: nat := 1

  /** `as u64` of an `i64`, and back. */
  function ToU64(x: i64): u64 {
    if x < 0 then x + U64_RANGE else x
  }

  function FromU64(x: u64): i64 {
    if x < 0x8000_0000_0000_0000 then x else x - U64_RANGE
  }

  function ToU64s(xs: seq<i64>): (r: seq<u64>)
    ensures |r| == |xs|
  {
    seq(|xs|, i requires 0 <= i < |xs| => ToU64(xs[i]))
  }

  // ---------------------------------------------------------------------------
  // Writing
  // ---------------------------------------------------------------------------

  /** `RowIdStorage::section_header`. */
  function Header(encoding: nat, width: nat, count: nat, base: nat): (h: seq<u8>)
    ensures |h| == HEADER_SIZE
  {
    ToLE(encoding, 4) + ToLE(width, 4) + ToLE(count, 8) + ToLE(base, 8) + Zeros(8)
  }

  /** `write_row_id_section`. */
  function Section(storage: Storage): seq<u8> {
    match storage
    case Raw(rowIds) => Header(ENCODING_RAW_I64, 64, |rowIds|, 0) + EncodeAll(ToU64s(rowIds), 8)
    case ForBitPacked(base, width, count, payload) => Header(ENCODING_FOR_BITPACK, width, count, ToU64(base)) + payload
  }

  // ---------------------------------------------------------------------------
  // Reading
  // ---------------------------------------------------------------------------

  function Field(bytes: seq<u8>, offset: nat, width: nat): nat
    requires offset + width <= |bytes|
  {
    FromLE(bytes[offset..offset + width])
  }

  /** `decode_row_id_section_header` and the split that follows it. */
  function Split(bytes: seq<u8>, expected: nat): Result<Storage> {
    if |bytes| < HEADER_SIZE || !AllZero(bytes[24..32]) || Field(bytes, 8, 8) != expected then Err(InvalidData)
    else
      var payload := bytes[HEADER_SIZE..];
      var (encoding, width, base) := (Field(bytes, 0, 4), Field(bytes, 4, 4), Field(bytes, 16, 8));
      if encoding == ENCODING_RAW_I64 then
        if width != 64 || base != 0 || |payload| != expected * 8 then Err(InvalidData)
        else Ok(Raw(RawIds(payload)))
      else if encoding == ENCODING_FOR_BITPACK then
        if width >= 64 || expected * width + 7 >= U64_RANGE || |payload| != DivCeil(expected * width, 8) then Err(InvalidData)
        else
          Base64Bits(bytes);
          Ok(ForBitPacked(FromU64(base), width, expected, payload))
      else Err(InvalidData)
  }

  lemma Base64Bits(bytes: seq<u8>)
    requires |bytes| >= HEADER_SIZE
    ensures Field(bytes, 16, 8) < U64_RANGE
  {
    WidthRanges();
    FromLEBound(bytes[16..24]);
  }

  function RawIds(payload: seq<u8>): (ids: seq<i64>)
    ensures |ids| == |payload| / 8
  {
    var words := DecodeAll(payload, 8);
    seq(|words|, i requires 0 <= i < |words| => (RawWordFits(payload, i); FromU64(words[i])))
  }

  lemma RawWordFits(payload: seq<u8>, i: nat)
    requires i < |DecodeAll(payload, 8)|
    ensures DecodeAll(payload, 8)[i] < U64_RANGE
  {
    WidthRanges();
    DecodeAllBound(payload, 8, i);
  }

  /** The unused high bits of the last byte are zero. */
  predicate TailClear(storage: Storage) {
    storage.ForBitPacked? && storage.count * storage.bitWidth % 8 != 0 && storage.payload != [] ==>
      Shr(storage.payload[|storage.payload| - 1], storage.count * storage.bitWidth % 8) == 0
  }

  /** `validate_row_id_storage`. */
  predicate StorageAccepted(storage: Storage) {
    TailClear(storage) && forall node :: 0 <= node < storage.Len() ==> storage.Get(node).Some?
  }

  method ValidateStorage(storage: Storage) returns (ok: bool)
    requires storage.ForBitPacked? ==> storage.count * storage.bitWidth + 63 < U64_RANGE && storage.bitWidth < 64
    ensures ok <==> StorageAccepted(storage)
  {
    if !TailClear(storage) {
      return false;
    }
    var visited := ForEach(storage);
    return visited.Ok?;
  }

  /** `decode_row_id_section_owned`, for a node count a header allows. */
  method DecodeSection(bytes: seq<u8>, expected: nat) returns (r: Result<Storage>)
    requires expected < U32_RANGE
    ensures r == Decoded(bytes, expected)
  {
    var storage := Split(bytes, expected);
    if storage.Err? {
      return Err(storage.kind);
    }
    if storage.value.ForBitPacked? {
      CountSmall(expected, storage.value.bitWidth);
    }
    var ok := ValidateStorage(storage.value);
    if !ok {
      return Err(InvalidData);
    }
    return storage;
  }

  lemma CountSmall(count: nat, width: nat)
    requires count < U32_RANGE && width < 64
    ensures count * width + 63 < U64_RANGE
  {
    assert count * width <= count * 64;
  }

  /** The outcome of reading a section. */
  function Decoded(bytes: seq<u8>, expected: nat): Result<Storage> {
    var storage :- Split(bytes, expected);
    if StorageAccepted(storage) then Ok(storage) else Err(InvalidData)
  }

  // ---------------------------------------------------------------------------
  // Reading what was written
  // ---------------------------------------------------------------------------

  lemma HeaderFields(encoding: nat, width: nat, count: nat, base: nat, payload: seq<u8>)
    requires encoding < U32_RANGE && width < U32_RANGE && count < U64_RANGE && base < U64_RANGE
    ensures var bytes := Header(encoding, width, count, base) + payload;
            && Field(bytes, 0, 4) == encoding && Field(bytes, 4, 4) == width
            && Field(bytes, 8, 8) == count && Field(bytes, 16, 8) == base
            && AllZero(bytes[24..32]) && bytes[HEADER_SIZE..] == payload
  {
    var bytes := Header(encoding, width, count, base) + payload;
    assert bytes[0..4] == ToLE(encoding, 4) && bytes[4..8] == ToLE(width, 4);
    assert bytes[8..16] == ToLE(count, 8) && bytes[16..24] == ToLE(base, 8);
    assert bytes[24..32] == Zeros(8);
    WidthRanges();
    FromToLE(encoding, 4);
    FromToLE(width, 4);
    FromToLE(count, 8);
    FromToLE(base, 8);
  }

  lemma RawIdsBack(rowIds: seq<i64>)
    ensures RawIds(EncodeAll(ToU64s(rowIds), 8)) == rowIds
  {
    WidthRanges();
    DecodeEncodeAll(ToU64s(rowIds), 8);
  }

  /** Storages as encoding makes them. */
  predicate WellSized(storage: Storage) {
    match storage
    case Raw(rowIds) => |rowIds| < U32_RANGE
    case ForBitPacked(_, width, count, payload) => count < U32_RANGE && width < 64 && |payload| == DivCeil(count * width, 8)
  }

  lemma SplitWritten(storage: Storage)
    requires WellSized(storage)
    ensures Split(Section(storage), storage.Len()) == Ok(storage)
  {
    match storage
    case Raw(rowIds) =>
      HeaderFields(ENCODING_RAW_I64, 64, |rowIds|, 0, EncodeAll(ToU64s(rowIds), 8));
      RawIdsBack(rowIds);
    case ForBitPacked(base, width, count, payload) =>
      HeaderFields(ENCODING_FOR_BITPACK, width, count, ToU64(base), payload);
      CountSmall(count, width);
  }

  /** A packing of row IDs leaves no bit set past its last field. */
  lemma PackedTailClear(storage: Storage, rowIds: seq<i64>)
    requires storage.ForBitPacked? && PacksTo(storage, rowIds)
    ensures TailClear(storage)
  {
    var used: nat := storage.count * storage.bitWidth;
    if used % 8 != 0 && storage.payload != [] {
      PackedBound(Deltas(rowIds, storage.base), storage.bitWidth);
      LastByteHolds(used, |storage.payload|);
      LastByteBelow(storage.payload, used % 8);
    }
  }

  lemma LastByteHolds(used: nat, length: nat)
    requires used % 8 != 0 && length == DivCeil(used, 8)
    ensures length > 0 && 8 * (length - 1) + used % 8 == used
  {
  }

  lemma LastByteBelow(payload: seq<u8>, tail: nat)
    requires payload != [] && FromLE(payload) < Pow2(8 * (|payload| - 1) + tail)
    ensures Shr(payload[|payload| - 1], tail) == 0
  {
    var (init, last) := (payload[..|payload| - 1], payload[|payload| - 1]);
    assert payload == init + [last] + [];
    MiddleBelow(init, [last], [], tail);
    assert FromLE([last]) == last;
    ShrBound(last, 0, tail);
    assert Pow2(0) == 1;
  }

  /** Writing encoded row IDs and reading the section gives the same storage. */
  lemma SectionRoundTrip(storage: Storage, rowIds: seq<i64>, base: int, top: int)
    requires |rowIds| < U32_RANGE && Encodes(storage, rowIds, base, top)
    ensures Decoded(Section(storage), |rowIds|) == Ok(storage)
  {
    SplitWritten(storage);
    if storage.ForBitPacked? {
      PackedTailClear(storage, rowIds);
    }
    forall node | 0 <= node < storage.Len() ensures storage.Get(node).Some? {
      EncodedGet(storage, rowIds, base, top, node);
    }
  }

  // ---------------------------------------------------------------------------
  // Only what was written is read
  // ---------------------------------------------------------------------------

  lemma HeaderRebuilt(bytes: seq<u8>)
    requires |bytes| >= HEADER_SIZE && AllZero(bytes[24..32])
    ensures bytes == Header(Field(bytes, 0, 4), Field(bytes, 4, 4), Field(bytes, 8, 8), Field(bytes, 16, 8)) + bytes[HEADER_SIZE..]
  {
    ToFromLE(bytes[0..4]);
    ToFromLE(bytes[4..8]);
    ToFromLE(bytes[8..16]);
    ToFromLE(bytes[16..24]);
    assert bytes[24..32] == Zeros(8);
    assert bytes == bytes[0..4] + bytes[4..8] + bytes[8..16] + bytes[16..24] + bytes[24..32] + bytes[32..];
  }

  lemma RawPayloadBack(payload: seq<u8>)
    requires |payload| % 8 == 0
    ensures EncodeAll(ToU64s(RawIds(payload)), 8) == payload
  {
    var words := DecodeAll(payload, 8);
    forall i | 0 <= i < |words| ensures ToU64s(RawIds(payload))[i] == words[i] {
      RawWordFits(payload, i);
    }
    assert ToU64s(RawIds(payload)) == words;
    EncodeDecodeAll(payload, 8);
  }

  /** A section that is accepted is, byte for byte, the section of the storage it yields. */
  lemma SectionIsExact(bytes: seq<u8>, expected: nat)
    requires Decoded(bytes, expected).Ok?
    ensures Section(Decoded(bytes, expected).value) == bytes
  {
    HeaderRebuilt(bytes);
    Base64Bits(bytes);
    if Split(bytes, expected).value.Raw? {
      RawPayloadBack(bytes[HEADER_SIZE..]);
    }
  }

  lemma ShrZero(v: nat, k: nat)
    requires Shr(v, k) == 0
    ensures v < Pow2(k)
  {
    SplitAtBit(v, k);
    assert Shl(0, k) == 0;
  }

  lemma TopByteBound(init: seq<u8>, top: seq<u8>, tail: nat)
    requires FromLE(top) < Pow2(tail)
    ensures FromLE(init + top) < Pow2(8 * |init| + tail)
  {
    ConcatSum(init, top);
    ShlBound(FromLE(init), FromLE(top), 8 * |init|, tail);
  }

  lemma LastByteBound(payload: seq<u8>, tail: nat)
    requires payload != [] && Shr(payload[|payload| - 1], tail) == 0
    ensures FromLE(payload) < Pow2(8 * (|payload| - 1) + tail)
  {
    var (init, last) := (payload[..|payload| - 1], payload[|payload| - 1]);
    ShrZero(last, tail);
    assert FromLE([last]) == last;
    TopByteBound(init, [last], tail);
    assert payload == init + [last];
  }

  lemma TailClearBound(payload: seq<u8>, used: nat)
    requires |payload| == DivCeil(used, 8)
    requires used % 8 != 0 && payload != [] ==> Shr(payload[|payload| - 1], used % 8) == 0
    ensures FromLE(payload) < Pow2(used)
  {
    var tail := used % 8;
    if tail == 0 {
      assert used == 8 * |payload|;
      ConcatSum(payload, []);
    } else {
      assert used == 8 * (|payload| - 1) + tail;
      LastByteBound(payload, tail);
    }
  }

  /** The row IDs an accepted packed storage stands for. */
  function Unpacked(storage: Storage): (rowIds: seq<i64>)
    requires storage.ForBitPacked? && StorageAccepted(storage)
    ensures |rowIds| == storage.count
    ensures forall node :: 0 <= node < storage.count ==> storage.Get(node) == Some(rowIds[node])
  {
    seq(storage.count, node requires 0 <= node < storage.count => storage.Get(node).value)
  }

  lemma UnpackedField(storage: Storage, node: nat)
    requires storage.ForBitPacked? && WellSized(storage) && StorageAccepted(storage) && node < storage.count
    ensures Unpacked(storage)[node] == storage.base + FieldsOf(FromLE(storage.payload), storage.bitWidth, storage.count)[node]
  {
    var (width, count) := (storage.bitWidth, storage.count);
    var bit: nat := node * width;
    assert DivCeil(bit + width, 8) <= |storage.payload| by {
      Room(node, count, width);
    }
    UnpackIsField(storage.payload, bit, width);
    FieldAt(FromLE(storage.payload), width, count, node);
    assert storage.Get(node).Some?;
  }

  /**
   * No slack in an accepted packed storage: its payload is exactly the packing, at its base
   * and width, of the row IDs it yields.
   */
  lemma AcceptedIsPacking(storage: Storage)
    requires storage.ForBitPacked? && WellSized(storage) && StorageAccepted(storage)
    ensures PacksTo(storage, Unpacked(storage))
  {
    var (width, count, value) := (storage.bitWidth, storage.count, FromLE(storage.payload));
    TailClearBound(storage.payload, count * width);
    PackedFieldsOf(value, width, count);
    forall node | 0 <= node < count ensures Unpacked(storage)[node] == storage.base + FieldsOf(value, width, count)[node] {
      UnpackedField(storage, node);
    }
    assert Deltas(Unpacked(storage), storage.base) == FieldsOf(value, width, count);
  }

  /** Where the fields of the section are, and two's complement for the base. */
  lemma SectionFields(storage: Storage)
    requires storage.Len() < U64_RANGE && (storage.ForBitPacked? ==> storage.bitWidth < 64)
    ensures var bytes := Section(storage);
            && |bytes| >= 32
            && Field(bytes, 0, 4) == (if storage.Raw? then 0 else 1) && Field(bytes, 4, 4) == (if storage.Raw? then 64 else storage.bitWidth)
            && Field(bytes, 8, 8) == storage.Len() && AllZero(bytes[24..32])
            && (storage.Raw? ==> Field(bytes, 16, 8) == 0)
            && (storage.ForBitPacked? ==> Field(bytes, 16, 8) == storage.base % 0x1_0000_0000_0000_0000 && bytes[32..] == storage.payload)
  {
    match storage
    case Raw(rowIds) => HeaderFields(ENCODING_RAW_I64, 64, |rowIds|, 0, EncodeAll(ToU64s(rowIds), 8));
    case ForBitPacked(base, width, count, payload) => HeaderFields(ENCODING_FOR_BITPACK, width, count, ToU64(base), payload);
  }
}
