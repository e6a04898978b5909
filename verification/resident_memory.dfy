/** The steady size that the memory budget is reckoned with, against what an open file keeps in memory. */
module ResidentMemory {
  import opened AdjacencyIndex
  import opened HeaderLayout
  import opened IndexReader
  import opened MemoryBudget
  import opened Prelude
  import HeaderCodec
  import PqCodebook
  import RowIdSection
  import RowIds

  function RowIdBytes(storage: RowIds.Storage): nat {
    match storage
    case Raw(rowIds) => 8 * |rowIds|
    case ForBitPacked(_, _, _, payload) => |payload|
  }

  function IndexBytes(index: Index): nat {
    8 * |index.blockOffsets| + 2 * |index.relativeOffsets| + 2 * |index.degreeAndFlags|
  }

  function CodebookBytes(codebook: PqCodebook.Codebook): nat {
    8 * |codebook.offsets| + 4 * |codebook.centroids|
  }

  /** One float per centroid of every subquantizer. */
  function NormBytes(h: Header): int {
    4 * (h.pqM * Centroids(h.pqBits))
  }

  /** The sections of an accepted header have the lengths its fields say, and lie within the file. */
  lemma SectionLengths(file: seq<u8>, h: Header)
    requires HeaderCodec.Decode(file) == Ok(h) && h.fileLen <= |file|
    ensures HeaderCodec.Supported(h)
    ensures |Slice(file, h.sections.codebook)| == h.sections.codebook.length && |Slice(file, h.sections.rowIds)| == h.sections.rowIds.length
    ensures |Slice(file, h.sections.pqCodes)| == h.sections.pqCodes.length
    ensures |Slice(file, h.sections.adjacencyIndex)| == h.sections.adjacencyIndex.length
  {
    assert Consecutive(h.sections, h.fileLen);
  }

  lemma RowIdsCounted(bytes: seq<u8>, n: nat, storage: RowIds.Storage)
    requires n < U32_RANGE && RowIdSection.Decoded(bytes, n) == Ok(storage)
    ensures |bytes| == RowIdSection.HEADER_SIZE + RowIdBytes(storage)
  {
    RowIdSection.SectionIsExact(bytes, n);
  }

  lemma IndexCounted(shape: Shape, bytes: seq<u8>, index: Index)
    requires IndexIn(shape, bytes) == Ok(index)
    ensures |bytes| == IndexBytes(index)
  {
    SerializeParsed(bytes, shape.vectorCount);
  }

  lemma CodebookCounted(bytes: seq<u8>, h: Header, codebook: PqCodebook.Codebook)
    requires QuantizerOf(h).Supported() && PqCodebook.Decoded(bytes, QuantizerOf(h)) == Ok(codebook)
    ensures CodebookBytes(codebook) == DecodedCodebook(h)
  {
  }

  /** What each resident section of an open file takes, read and decoded. */
  lemma SectionsCounted(file: seq<u8>, r: Resident)
    requires Opened(file) == Ok(r)
    ensures HeaderCodec.Supported(r.header)
    ensures var (h, s) := (r.header, r.header.sections);
            && |Slice(file, s.codebook)| == s.codebook.length && CodebookBytes(r.codebook) == DecodedCodebook(h)
            && |Slice(file, s.rowIds)| == s.rowIds.length == RowIdSection.HEADER_SIZE + RowIdBytes(r.rowIds)
            && |Slice(file, s.pqCodes)| == s.pqCodes.length
            && |Slice(file, s.adjacencyIndex)| == s.adjacencyIndex.length == IndexBytes(r.index)
  {
    var h := r.header;
    DecodedHeader(file);
    SectionLengths(file, h);
    assert h.vectorCount < U32_RANGE;
    RowIdsCounted(Slice(file, h.sections.rowIds), h.vectorCount, r.rowIds);
    IndexCounted(ShapeOf(h), Slice(file, h.sections.adjacencyIndex), r.index);
    CodebookCounted(Slice(file, h.sections.codebook), h, r.codebook);
  }

  /**
   * For every file that opens, the steady size is what stays resident: the codebook, the row IDs,
   * the codes and the index as they are kept, the norms, and one byte of state per adjacency page.
   */
  lemma SteadyCountsResident(file: seq<u8>, r: Resident)
    requires Opened(file) == Ok(r)
    ensures HeaderCodec.Supported(r.header)
    ensures Steady(r.header) ==
            CodebookBytes(r.codebook) + RowIdBytes(r.rowIds) + |Slice(file, r.header.sections.pqCodes)| + IndexBytes(r.index)
            + NormBytes(r.header) + ShapeOf(r.header).PageCount()
  {
    SectionsCounted(file, r);
  }

  /**
   * The peak covers every stage of opening: the bytes read with the decoded codebook, the rest
   * with the decoded row IDs, and then with the decoded index; a byte more probes the length.
   */
  lemma PeakCoversStages(file: seq<u8>, r: Resident)
    requires Opened(file) == Ok(r)
    ensures var s := r.header.sections;
            var (codebook, rowIds, codes, index) :=
              (|Slice(file, s.codebook)|, |Slice(file, s.rowIds)|, |Slice(file, s.pqCodes)|, |Slice(file, s.adjacencyIndex)|);
            && codebook + rowIds + codes + index + 1 + CodebookBytes(r.codebook) <= Peak(r.header)
            && rowIds + codes + index + 1 + CodebookBytes(r.codebook) + RowIdBytes(r.rowIds) <= Peak(r.header)
            && codes + index + 1 + CodebookBytes(r.codebook) + RowIdBytes(r.rowIds) + IndexBytes(r.index) <= Peak(r.header)
            && Steady(r.header) <= Peak(r.header)
  {
    SectionsCounted(file, r);
  }
}
