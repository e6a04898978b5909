/** The DiskANN v1 header and the layout its constructor derives: seven consecutive sections. */
module HeaderLayout {
  import opened AdjacencyIndex
  import opened Prelude
  import opened RawVector
  import RowIdSection

  const HEADER_SIZE: nat := 256
  const LOCATOR_SIZE: nat := 4
  const LOCATOR_ENCODING: nat := 3
  const CODEBOOK_HEADER_SIZE: nat := 32

  const COMPACT_FLAGS: nat := 0x1f
  const INTERLEAVED_FLAGS: nat := 0x3d

  datatype Section = Section(offset: u64, length: u64) {
    function End(): nat {
      offset + length
    }
  }

  datatype Sections = Sections(codebook: Section, rowIds: Section, pqCodes: Section, rowIdOrder: Section,
                               adjacencyIndex: Section, adjacency: Section, vectors: Section)

  datatype Metric = L2 | InnerProduct | Cosine {
    function Code(): u32 {
      match this case L2 => 0 case InnerProduct => 1 case Cosine => 2
    }
  }

  function MetricOf(code: u32): (r: Option<Metric>)
    ensures r.Some? ==> r.value.Code() == code
  {
    if code == 0 then Some(L2) else if code == 1 then Some(InnerProduct) else if code == 2 then Some(Cosine) else None
  }

  function ElementCode(element: Element): u32 {
    if element.F32? then 1 else 2
  }

  function ElementOf(code: u32): (r: Option<Element>)
    ensures r.Some? ==> ElementCode(r.value) == code
  {
    if code == 1 then Some(F32) else if code == 2 then Some(F16) else None
  }

  /** `alpha` is its bit pattern. */
  datatype Header = Header(
    flags: u32, dimension: u32, metric: u32, vectorCount: u64, entryNode: u32, maxDegree: u32, buildSearchListSize: u32,
    alpha: u32, seed: u64, pqM: u32, pqBits: u32, pageSize: u32, locatorSize: u32, locatorEncoding: u32,
    rawVectorEncoding: u32, vectorRecordSize: u32, fileLen: u64, sections: Sections
  )

  /** What the layout constructor is given. */
  datatype Params = Params(
    dimension: nat, vectorCount: nat, entryNode: u32, pqM: nat, pqBits: nat, metric: Metric,
    maxDegree: nat, buildSearchListSize: nat, alpha: u32, seed: u64, interleaved: bool, element: Element,
    rowIdsLen: nat, adjacencyPages: nat
  )

  /** Finite and at least one: the positive floats are ordered as their bit patterns. */
  predicate AlphaAccepted(alpha: u32) {
    0x3f80_0000 <= alpha < 0x7f80_0000
  }

  predicate FormatAccepted(p: Params) {
    && 0 < p.pqM <= p.dimension && (p.pqBits == 4 || p.pqBits == 8)
    && 0 < p.maxDegree <= 1023 && p.maxDegree <= p.buildSearchListSize < U32_RANGE
    && AlphaAccepted(p.alpha)
    && (p.interleaved ==> p.dimension * p.element.Size() + p.maxDegree * 4 <= PAGE_SIZE)
  }

  predicate ParamsAccepted(p: Params) {
    && FormatAccepted(p)
    && 0 < p.vectorCount < U32_RANGE && p.entryNode < p.vectorCount
    && 0 < p.adjacencyPages < U32_RANGE
    && RowIdSection.HEADER_SIZE <= p.rowIdsLen <= RowIdSection.HEADER_SIZE + 8 * p.vectorCount
    && p.dimension * p.element.Size() < U32_RANGE
  }

  function Centroids(pqBits: nat): nat {
    if pqBits == 4 then 16 else 256
  }

  function CodeSize(pqM: nat, pqBits: nat): nat {
    if pqBits == 4 then DivCeil(pqM, 2) else pqM
  }

  function CodebookLen(p: Params): int {
    CODEBOOK_HEADER_SIZE + (p.pqM + 1) * 4 + p.dimension * Centroids(p.pqBits) * 4
  }

  function CheckedU64(value: nat): (r: Result<u64>)
    ensures r.Ok? <==> value < U64_RANGE
    ensures if r.Ok? then r.value == value else r.kind == InvalidInput
  {
    if value < U64_RANGE then Ok(value) else Err(InvalidInput)
  }

  function AlignUp(value: u64): (r: Result<u64>)
    ensures r.Ok? ==> value <= r.value < value + PAGE_SIZE && r.value % PAGE_SIZE == 0
    ensures r.Err? ==> r.kind == InvalidInput
  {
    var bumped :- CheckedU64(value + (PAGE_SIZE - 1));
    Ok(bumped - bumped % PAGE_SIZE)
  }

  /** One section of the given length starting where another ends. */
  function Next(section: Section, length: nat): (r: Result<Section>)
    ensures r.Ok? ==> r.value.offset == section.End() && r.value.length == length
    ensures r.Err? ==> r.kind == InvalidInput
  {
    var offset :- CheckedU64(section.End());
    var checked :- CheckedU64(length);
    Ok(Section(offset, checked))
  }

  function AlignedNext(section: Section, length: nat): (r: Result<Section>)
    ensures r.Ok? ==> section.End() <= r.value.offset < section.End() + PAGE_SIZE && r.value.offset % PAGE_SIZE == 0
    ensures if r.Ok? then r.value.length == length else r.kind == InvalidInput
  {
    var end :- CheckedU64(section.End());
    var offset :- AlignUp(end);
    var checked :- CheckedU64(length);
    Ok(Section(offset, checked))
  }

  /** The sections follow one another from the first page on; only adjacency is aligned. */
  predicate Consecutive(s: Sections, fileLen: nat) {
    && s.codebook.offset == PAGE_SIZE && s.rowIds.offset == s.codebook.End() && s.pqCodes.offset == s.rowIds.End()
    && s.rowIdOrder.offset == s.pqCodes.End() && s.adjacencyIndex.offset == s.rowIdOrder.End()
    && s.adjacencyIndex.End() <= s.adjacency.offset < s.adjacencyIndex.End() + PAGE_SIZE && s.adjacency.offset % PAGE_SIZE == 0
    && s.vectors.offset == s.adjacency.End() && fileLen == s.vectors.End()
  }

  /** The byte lengths of the seven sections. */
  datatype Sizes = Sizes(codebook: nat, rowIds: nat, pqCodes: nat, rowIdOrder: nat, adjacencyIndex: nat, adjacency: nat, vectors: nat)

  function SizesOf(p: Params): Sizes {
    var codebook: nat := CodebookLen(p);
    var pqCodes: nat := p.vectorCount * CodeSize(p.pqM, p.pqBits);
    var vectors: nat := if p.interleaved then 0 else p.vectorCount * (p.dimension * p.element.Size());
    Sizes(codebook, p.rowIdsLen, pqCodes, p.vectorCount * 4, SerializedLen(p.vectorCount), p.adjacencyPages * PAGE_SIZE, vectors)
  }

  predicate HasSizes(s: Sections, z: Sizes) {
    && s.codebook.length == z.codebook && s.rowIds.length == z.rowIds && s.pqCodes.length == z.pqCodes
    && s.rowIdOrder.length == z.rowIdOrder && s.adjacencyIndex.length == z.adjacencyIndex
    && s.adjacency.length == z.adjacency && s.vectors.length == z.vectors
  }

  function LayOut(z: Sizes): (r: Result<Sections>)
    ensures r.Ok? ==> Consecutive(r.value, r.value.vectors.End()) && HasSizes(r.value, z) && r.value.vectors.End() < U64_RANGE
    ensures r.Err? ==> r.kind == InvalidInput
  {
    var codebookLen :- CheckedU64(z.codebook);
    var codebook := Section(PAGE_SIZE, codebookLen);
    var rowIds :- Next(codebook, z.rowIds);
    var pqCodes :- Next(rowIds, z.pqCodes);
    var rowIdOrder :- Next(pqCodes, z.rowIdOrder);
    var adjacencyIndex :- Next(rowIdOrder, z.adjacencyIndex);
    var adjacency :- AlignedNext(adjacencyIndex, z.adjacency);
    var vectors :- Next(adjacency, z.vectors);
    var fileLen :- CheckedU64(vectors.End());
    Ok(Sections(codebook, rowIds, pqCodes, rowIdOrder, adjacencyIndex, adjacency, vectors))
  }

  /** `for_layout_with_adjacency_pages_and_pq_bits`. */
  function ForLayout(p: Params): (r: Result<Header>)
    ensures r.Ok? ==> Consecutive(r.value.sections, r.value.fileLen) && HasSizes(r.value.sections, SizesOf(p))
    ensures r.Err? ==> r.kind == InvalidInput
  {
    if !ParamsAccepted(p) then Err(InvalidInput) else
    var sections :- LayOut(SizesOf(p));
    Ok(Header(if p.interleaved then INTERLEAVED_FLAGS else COMPACT_FLAGS, p.dimension, p.metric.Code(), p.vectorCount, p.entryNode,
              p.maxDegree, p.buildSearchListSize, p.alpha, p.seed, p.pqM, p.pqBits, PAGE_SIZE, LOCATOR_SIZE, LOCATOR_ENCODING,
              ElementCode(p.element), p.dimension * p.element.Size(), sections.vectors.End(), sections))
  }

  /** A code takes the fewest bytes that hold its numbers. */
  lemma CodeSizeIsLeast(pqM: nat, pqBits: nat)
    requires pqBits == 4 || pqBits == 8
    ensures 8 * CodeSize(pqM, pqBits) - 8 < pqM * pqBits <= 8 * CodeSize(pqM, pqBits)
  {
  }

  /** The bytes in front of the adjacency, before its alignment. */
  function Unaligned(z: Sizes): nat {
    4096 + z.codebook + z.rowIds + z.pqCodes + z.rowIdOrder + z.adjacencyIndex
  }

  lemma AlignedUp(value: u64)
    ensures AlignUp(value).Ok? <==> DivCeil(value, 4096) * 4096 < 0x1_0000_0000_0000_0000
    ensures AlignUp(value).Ok? ==> AlignUp(value).value == DivCeil(value, 4096) * 4096
  {
  }

  /** The sections are laid out if and only if the file length fits 64 bits. */
  lemma LaidOutIffFits(z: Sizes)
    ensures LayOut(z).Ok? <==> DivCeil(Unaligned(z), 4096) * 4096 + z.adjacency + z.vectors < 0x1_0000_0000_0000_0000
  {
    assert DivCeil(Unaligned(z), 4096) * 4096 >= Unaligned(z);
    if Unaligned(z) < U64_RANGE {
      AlignedUp(Unaligned(z));
    }
  }

  /** What the constructor accepts, in plain terms. */
  lemma AcceptedParameters(p: Params)
    ensures ForLayout(p).Ok? <==>
            && 1 <= p.pqM <= p.dimension && (p.pqBits == 4 || p.pqBits == 8) && 1 <= p.maxDegree <= 1023
            && p.maxDegree <= p.buildSearchListSize < 0x1_0000_0000 && 1 <= p.vectorCount < 0x1_0000_0000 && p.entryNode < p.vectorCount
            && 1 <= p.adjacencyPages < 0x1_0000_0000 && 32 <= p.rowIdsLen <= 32 + 8 * p.vectorCount
            && (p.interleaved ==> p.dimension * p.element.Size() + 4 * p.maxDegree <= 4096)
            && p.dimension * p.element.Size() < 0x1_0000_0000 && 0x3f80_0000 <= p.alpha < 0x7f80_0000
            && LayOut(SizesOf(p)).Ok?
  {
  }
}
