/** The PQ codebook section and the padding of PQ codes. */
module PqCodebook {
  import opened AdjacencyIndex
  import opened Bytes
  import opened HeaderLayout
  import opened Prelude
  import opened RawVector
  import opened Slots

  const MAGIC: nat := 0x3151_5044
  const VERSION: nat := 1

  /** Chunk boundaries within a vector, and the centroids as bit patterns. */
  datatype Codebook = Codebook(offsets: seq<u32>, centroids: seq<u32>)

  /** What a header says about the codebook. */
  datatype Quantizer = Quantizer(dimension: u32, m: u32, bits: u32) {
    predicate Supported() {
      m + 1 < U32_RANGE && (bits == 4 || bits == 8)
    }
  }

  /** Chunks that cover the dimension, in order, none of them empty. */
  predicate ChunksCover(offsets: seq<u32>, q: Quantizer) {
    && |offsets| == q.m + 1 >= 2 && offsets[0] == 0 && offsets[q.m] == q.dimension
    && forall i :: 0 < i < |offsets| ==> offsets[i - 1] < offsets[i]
  }

  predicate AllFinite(centroids: seq<u32>) {
    forall i :: 0 <= i < |centroids| ==> F32.FiniteBits(centroids[i])
  }

  predicate Accepted(b: Codebook, q: Quantizer) {
    ChunksCover(b.offsets, q) && |b.centroids| == q.dimension * Centroids(q.bits) && AllFinite(b.centroids)
  }

  function Meta(q: Quantizer): seq<nat> {
    [MAGIC, VERSION, q.dimension, q.m, q.bits, Centroids(q.bits), q.m + 1, 0]
  }

  /** `write_pq_codebook`: everything is a little-endian u32. */
  function Encode(b: Codebook, q: Quantizer): seq<u8> {
    EncodeAll(Meta(q) + b.offsets + b.centroids, 4)
  }

  function Length(q: Quantizer): int {
    CODEBOOK_HEADER_SIZE + (q.m + 1) * 4 + q.dimension * Centroids(q.bits) * 4
  }

  function Words(bytes: seq<u8>): (words: seq<u32>)
    ensures |words| == |bytes| / 4
  {
    WidthRanges();
    assert forall i :: 0 <= i < |DecodeAll(bytes, 4)| ==> DecodeAll(bytes, 4)[i] < U32_RANGE by {
      forall i | 0 <= i < |DecodeAll(bytes, 4)|
        ensures DecodeAll(bytes, 4)[i] < U32_RANGE
      {
        DecodeAllBound(bytes, 4, i);
      }
    }
    DecodeAll(bytes, 4)
  }

  /** `decode_pq_codebook`. */
  function Decoded(bytes: seq<u8>, q: Quantizer): (r: Result<Codebook>)
    requires q.Supported()
    ensures r.Err? ==> r.kind == InvalidData
  {
    var words := Words(bytes);
    if |bytes| < CODEBOOK_HEADER_SIZE || words[..8] != Meta(q) || |bytes| != Length(q) then Err(InvalidData) else
    var b := Codebook(words[8..9 + q.m], words[9 + q.m..]);
    if Accepted(b, q) then Ok(b) else Err(InvalidData)
  }

  lemma LengthInWords(q: Quantizer)
    ensures q.dimension * Centroids(q.bits) >= 0 && Length(q) == 4 * (9 + q.m + q.dimension * Centroids(q.bits))
  {
  }

  lemma DecodedIsEncoded(bytes: seq<u8>, q: Quantizer)
    requires q.Supported() && Decoded(bytes, q).Ok?
    ensures Accepted(Decoded(bytes, q).value, q) && bytes == Encode(Decoded(bytes, q).value, q)
  {
    var (words, b) := (Words(bytes), Decoded(bytes, q).value);
    LengthInWords(q);
    EncodeDecodeAll(bytes, 4);
    assert words == words[..8] + words[8..9 + q.m] + words[9 + q.m..];
  }

  lemma EncodedDecodes(b: Codebook, q: Quantizer)
    requires q.Supported() && Accepted(b, q)
    ensures Decoded(Encode(b, q), q) == Ok(b)
  {
    var words: seq<nat> := Meta(q) + b.offsets + b.centroids;
    WidthRanges();
    assert forall i :: 0 <= i < |words| ==> words[i] < U32_RANGE;
    DecodeEncodeAll(words, 4);
    LengthInWords(q);
    assert words[..8] == Meta(q) && words[8..9 + q.m] == b.offsets && words[9 + q.m..] == b.centroids;
  }

  /** The reader accepts exactly the encodings of accepted codebooks. */
  lemma CodebookIsExact(bytes: seq<u8>, q: Quantizer, b: Codebook)
    requires q.Supported()
    ensures Decoded(bytes, q) == Ok(b) <==> Accepted(b, q) && bytes == Encode(b, q)
  {
    if Decoded(bytes, q) == Ok(b) {
      DecodedIsEncoded(bytes, q);
    } else if Accepted(b, q) {
      EncodedDecodes(b, q);
    }
  }

  /** Different codebooks of one shape have different bytes. */
  lemma EncodeInjective(a: Codebook, b: Codebook, q: Quantizer)
    requires q.Supported() && |a.offsets| == |b.offsets| && Encode(a, q) == Encode(b, q)
    ensures a == b
  {
    WidthRanges();
    var x: seq<nat>, y: seq<nat> := Meta(q) + a.offsets + a.centroids, Meta(q) + b.offsets + b.centroids;
    DecodeEncodeAll(x, 4);
    DecodeEncodeAll(y, 4);
    assert a.offsets == x[8..8 + |a.offsets|] && a.centroids == x[8 + |a.offsets|..];
    assert b.offsets == y[8..8 + |b.offsets|] && b.centroids == y[8 + |b.offsets|..];
  }

  method CheckChunks(offsets: seq<u32>, q: Quantizer) returns (ok: bool)
    requires |offsets| == q.m + 1
    ensures ok <==> ChunksCover(offsets, q)
  {
    if |offsets| < 2 || offsets[0] != 0 || offsets[q.m] != q.dimension {
      return false;
    }
    for i := 1 to |offsets|
      invariant forall k :: 0 < k < i ==> offsets[k - 1] < offsets[k]
    {
      if offsets[i - 1] >= offsets[i] {
        return false;
      }
    }
    return true;
  }

  method DecodeCodebook(bytes: seq<u8>, q: Quantizer) returns (r: Result<Codebook>)
    requires q.Supported()
    ensures r == Decoded(bytes, q)
  {
    var words := Words(bytes);
    if |bytes| < CODEBOOK_HEADER_SIZE || words[..8] != Meta(q) || |bytes| != Length(q) {
      return Err(InvalidData);
    }
    LengthInWords(q);
    var offsets, centroids := words[8..9 + q.m], words[9 + q.m..];
    var covers := CheckChunks(offsets, q);
    if !covers {
      return Err(InvalidData);
    }
    for i := 0 to |centroids|
      invariant forall k :: 0 <= k < i ==> F32.FiniteBits(centroids[k])
    {
      if !F32.FiniteBits(centroids[i]) {
        return Err(InvalidData);
      }
    }
    return Ok(Codebook(offsets, centroids));
  }

  /** `write_pq_codebook`, which refuses a quantizer without a valid layout. */
  method WriteCodebook(b: Codebook, q: Quantizer) returns (r: Result<seq<u8>>)
    requires q.Supported()
    ensures r.Ok? <==> ChunksCover(b.offsets, q) && |b.centroids| == q.dimension * Centroids(q.bits)
    ensures if r.Ok? then r.value == Encode(b, q) else r.kind == InvalidInput
  {
    if |b.offsets| != q.m + 1 || |b.centroids| != q.dimension * Centroids(q.bits) {
      return Err(InvalidInput);
    }
    var covers := CheckChunks(b.offsets, q);
    if !covers {
      return Err(InvalidInput);
    }
    var words: seq<nat> := Meta(q) + b.offsets + b.centroids;
    var bytes: seq<u8> := [];
    for i := 0 to |words|
      invariant bytes == EncodeAll(words[..i], 4)
    {
      EncodeAllSnoc(words[..i], words[i], 4);
      assert words[..i + 1] == words[..i] + [words[i]];
      bytes := bytes + ToLE(words[i], 4);
    }
    assert words[..|words|] == words;
    return Ok(bytes);
  }

  // ---------------------------------------------------------------------------------------
  // Codes.

  /** An odd number of 4-bit codes leaves the high nibble of the last byte unused, and it is zero. */
  predicate Padded(code: seq<u8>, q: Quantizer) {
    q.bits == 4 && q.m % 2 == 1 && code != [] ==> code[|code| - 1] < 0x10
  }

  /** Each of `count` codes. */
  predicate AllPadded(codes: seq<u8>, q: Quantizer, count: nat) {
    forall k :: 0 <= k < count ==> Padded(Slot(codes, k, CodeSize(q.m, q.bits)), q)
  }

  /** `validate_pq_code_padding`. */
  method ValidatePadding(codes: seq<u8>, q: Quantizer, count: nat) returns (ok: bool)
    ensures ok <==> AllPadded(codes, q, count)
  {
    if q.bits != 4 || q.m % 2 == 0 {
      return true;
    }
    var size := CodeSize(q.m, q.bits);
    for k := 0 to count
      invariant forall i :: 0 <= i < k ==> Padded(Slot(codes, i, size), q)
    {
      var code := Slot(codes, k, size);
      if code != [] && code[|code| - 1] >= 0x10 {
        assert !Padded(code, q);
        return false;
      }
    }
    return true;
  }

  /** Where the words of the section are: eight of metadata, the offsets, the centroids. */
  lemma CodebookWords(b: Codebook, q: Quantizer, i: nat)
    requires i < 8 + |b.offsets| + |b.centroids|
    ensures 4 * i + 4 <= |Encode(b, q)|
    ensures Encode(b, q)[4 * i..4 * i + 4] ==
            ToLE(if i == 0 then 0x3151_5044 else if i == 1 then 1 else if i == 2 then q.dimension else if i == 3 then q.m else if i == 4 then q.bits
                 else if i == 5 then (if q.bits == 4 then 16 else 256) else if i == 6 then q.m + 1 else if i == 7 then 0
                 else if i < 8 + |b.offsets| then b.offsets[i - 8] else b.centroids[i - 8 - |b.offsets|], 4)
  {
    EncodeAllAt(Meta(q) + b.offsets + b.centroids, 4, i);
  }

  /** What the reader accepts, in plain terms: chunk boundaries that rise from 0 to the dimension, and finite centroids. */
  lemma AcceptedMeans(b: Codebook, q: Quantizer)
    requires Accepted(b, q)
    ensures |b.offsets| == q.m + 1 >= 2 && b.offsets[0] == 0 && b.offsets[q.m] == q.dimension
    ensures forall i, j :: 0 <= i < j < |b.offsets| ==> b.offsets[i] < b.offsets[j]
    ensures forall i :: 0 <= i < |b.centroids| ==> F32.FiniteBits(b.centroids[i])
    ensures |b.centroids| == q.dimension * (if q.bits == 4 then 16 else 256)
  {
    forall i, j | 0 <= i < j < |b.offsets|
      ensures b.offsets[i] < b.offsets[j]
    {
      OffsetsRise(b.offsets, i, j);
    }
  }

  lemma {:induction false} OffsetsRise(offsets: seq<u32>, i: nat, j: nat)
    requires i < j < |offsets| && forall k :: 0 < k < |offsets| ==> offsets[k - 1] < offsets[k]
    ensures offsets[i] < offsets[j]
    decreases j
  {
    if i < j - 1 {
      OffsetsRise(offsets, i, j - 1);
    }
  }

  /** The unused high nibble of an odd number of 4-bit codes is clear, and other codes are not restricted. */
  lemma PaddedMeans(code: seq<u8>, q: Quantizer)
    requires code != []
    ensures Padded(code, q) <==> q.bits != 4 || q.m % 2 == 0 || code[|code| - 1] / 16 == 0
  {
  }
}
