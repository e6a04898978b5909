/** The whole DiskANN file: what the writer emits, section by section. */
module IndexFile {
  import opened AdjacencyIndex
  import opened AdjacencyIndexRoundTrip
  import opened AdjacencyLayout
  import opened Bytes
  import opened HeaderLayout
  import opened Prelude
  import opened RowIds
  import AdjacencyPages
  import HeaderCodec
  import RowIdOrder
  import RowIdSection

  /** The bytes of each section. */
  datatype Content = Content(codebook: seq<u8>, rowIds: seq<u8>, pqCodes: seq<u8>, rowIdOrder: seq<u8>,
                             adjacencyIndex: seq<u8>, adjacency: seq<u8>, vectors: seq<u8>)

  predicate Fills(c: Content, s: Sections) {
    && |c.codebook| == s.codebook.length && |c.rowIds| == s.rowIds.length && |c.pqCodes| == s.pqCodes.length
    && |c.rowIdOrder| == s.rowIdOrder.length && |c.adjacencyIndex| == s.adjacencyIndex.length
    && |c.adjacency| == s.adjacency.length && |c.vectors| == s.vectors.length
  }

  predicate HoldsAt(file: seq<u8>, section: Section, bytes: seq<u8>) {
    section.End() <= |file| && file[section.offset..section.End()] == bytes
  }

  /** The file is the header, then each section at its place, with zeros in both gaps and nothing else. */
  predicate Holds(file: seq<u8>, h: Header, c: Content) {
    var s := h.sections;
    && |file| == h.fileLen && HeaderCodec.Encode(h) <= file
    && HoldsAt(file, s.codebook, c.codebook) && HoldsAt(file, s.rowIds, c.rowIds) && HoldsAt(file, s.pqCodes, c.pqCodes)
    && HoldsAt(file, s.rowIdOrder, c.rowIdOrder) && HoldsAt(file, s.adjacencyIndex, c.adjacencyIndex)
    && HoldsAt(file, s.adjacency, c.adjacency) && HoldsAt(file, s.vectors, c.vectors)
    && HEADER_SIZE <= s.codebook.offset <= |file| && AllZero(file[HEADER_SIZE..s.codebook.offset])
    && s.adjacencyIndex.End() <= s.adjacency.offset <= |file| && AllZero(file[s.adjacencyIndex.End()..s.adjacency.offset])
  }

  /** Zeros up to a section offset, in writes of at most a page; an error if the offset is passed already. */
  method PadOut(out: seq<u8>, target: nat) returns (r: Result<seq<u8>>)
    ensures r.Ok? <==> |out| <= target
    ensures r.Ok? ==> r.value == out + Zeros(target - |out|)
  {
    if |out| > target {
      return Err(InvalidInput);
    }
    var padded := out;
    while |padded| < target
      invariant |padded| <= target && padded == out + Zeros(|padded| - |out|)
      decreases target - |padded|
    {
      padded := padded + Zeros(Min(target - |padded|, PAGE_SIZE));
    }
    return Ok(padded);
  }

  function Concat(parts: seq<seq<u8>>): seq<u8> {
    if parts == [] then [] else Concat(parts[..|parts| - 1]) + parts[|parts| - 1]
  }

  lemma {:induction false} ConcatLength(parts: seq<seq<u8>>, size: nat)
    requires forall i :: 0 <= i < |parts| ==> |parts[i]| == size
    ensures |Concat(parts)| == |parts| * size
  {
    if parts != [] {
      ConcatLength(parts[..|parts| - 1], size);
      assert |parts| * size == (|parts| - 1) * size + size;
    }
  }

  method WriteAll(parts: seq<seq<u8>>) returns (bytes: seq<u8>)
    ensures bytes == Concat(parts)
  {
    bytes := [];
    for i := 0 to |parts|
      invariant bytes == Concat(parts[..i])
    {
      assert parts[..i + 1][..i] == parts[..i];
      bytes := bytes + parts[i];
    }
    assert parts[..|parts|] == parts;
  }

  // ---------------------------------------------------------------------------------------
  // Assembling.

  function Resident(h: Header, c: Content): seq<u8> {
    HeaderCodec.Encode(h) + Zeros(PAGE_SIZE - HEADER_SIZE) + c.codebook + c.rowIds + c.pqCodes + c.rowIdOrder + c.adjacencyIndex
  }

  lemma ResidentHolds(h: Header, c: Content)
    requires Consecutive(h.sections, h.fileLen) && Fills(c, h.sections)
    ensures var file := Resident(h, c);
            && |file| == h.sections.adjacencyIndex.End() && HeaderCodec.Encode(h) <= file
            && HoldsAt(file, h.sections.codebook, c.codebook) && HoldsAt(file, h.sections.rowIds, c.rowIds)
            && HoldsAt(file, h.sections.pqCodes, c.pqCodes) && HoldsAt(file, h.sections.rowIdOrder, c.rowIdOrder)
            && HoldsAt(file, h.sections.adjacencyIndex, c.adjacencyIndex) && AllZero(file[HEADER_SIZE..PAGE_SIZE])
  {
  }

  function Assemble(h: Header, c: Content): seq<u8>
    requires |Resident(h, c)| <= h.sections.adjacency.offset
  {
    Resident(h, c) + Zeros(h.sections.adjacency.offset - |Resident(h, c)|) + c.adjacency + c.vectors
  }

  lemma AssembledHolds(h: Header, c: Content)
    requires Consecutive(h.sections, h.fileLen) && Fills(c, h.sections)
    ensures |Resident(h, c)| <= h.sections.adjacency.offset && Holds(Assemble(h, c), h, c)
  {
    ResidentHolds(h, c);
    var (resident, file) := (Resident(h, c), Assemble(h, c));
    assert resident <= file;
    StillHolds(resident, file, h.sections.codebook, c.codebook);
    StillHolds(resident, file, h.sections.rowIds, c.rowIds);
    StillHolds(resident, file, h.sections.pqCodes, c.pqCodes);
    StillHolds(resident, file, h.sections.rowIdOrder, c.rowIdOrder);
    StillHolds(resident, file, h.sections.adjacencyIndex, c.adjacencyIndex);
    assert file[HEADER_SIZE..PAGE_SIZE] == resident[HEADER_SIZE..PAGE_SIZE];
  }

  lemma StillHolds(file: seq<u8>, longer: seq<u8>, section: Section, bytes: seq<u8>)
    requires file <= longer && HoldsAt(file, section, bytes)
    ensures HoldsAt(longer, section, bytes)
  {
    assert longer[section.offset..section.End()] == file[section.offset..section.End()];
  }

  // ---------------------------------------------------------------------------------------
  // The writer.

  /** What the builder hands over, node by node in file order; vectors are encoded already. */
  datatype Graph = Graph(codebook: seq<u8>, rowIds: seq<i64>, codes: seq<seq<u8>>, adjacency: seq<seq<u32>>, vectors: seq<seq<u8>>)

  predicate Uniform(parts: seq<seq<u8>>, count: nat, size: nat) {
    |parts| == count && forall i :: 0 <= i < |parts| ==> |parts[i]| == size
  }

  predicate Matches(g: Graph, p: Params) {
    && |g.codebook| == CodebookLen(p) && |g.rowIds| == |g.adjacency| == p.vectorCount
    && Uniform(g.codes, p.vectorCount, CodeSize(p.pqM, p.pqBits))
    && Uniform(g.vectors, p.vectorCount, p.dimension * p.element.Size())
  }

  function Prefix(p: Params): nat {
    var vectorBytes: nat := p.dimension * p.element.Size();
    if p.interleaved then vectorBytes else 0
  }

  /** The vectors stored in front of the lists: none when vectors have their own section. */
  function PagedVectors(g: Graph, p: Params): seq<seq<u8>> {
    if p.interleaved then g.vectors else seq(|g.adjacency|, _ => [])
  }

  /** Sorted lists whose records fit a page. */
  predicate Plannable(g: Graph, p: Params) {
    Sortable(g.adjacency) && FitPages(RecordSizes(g.adjacency, Prefix(p))) && 0 < |g.adjacency| < U32_RANGE
  }

  /** A plan of the graph's lists. */
  ghost predicate PlanOf(g: Graph, p: Params, layout: Layout) {
    Plannable(g, p) && IsLayout(layout, g.adjacency, Prefix(p))
  }

  ghost predicate StorageOf(g: Graph, storage: Storage) {
    exists base: i64, top: i64 :: IsMinimum(base, g.rowIds) && IsMaximum(top, g.rowIds) && Encodes(storage, g.rowIds, base, top)
  }

  function Sized(p: Params, storage: Storage, layout: Layout): Params {
    p.(rowIdsLen := |RowIdSection.Section(storage)|, adjacencyPages := layout.pageCount)
  }

  /** Planned locators always serialize. */
  lemma PlanFits(g: Graph, p: Params, layout: Layout)
    requires PlanOf(g, p, layout)
    ensures RelativesFit(layout.locators)
  {
    var shape := Shape(|g.adjacency|, PAGE_SIZE, p.interleaved && Prefix(p) > 0, Prefix(p), p.element, 0, layout.pageCount * PAGE_SIZE);
    forall k | 0 <= k < |g.adjacency|
      ensures |g.adjacency[k]| <= PAGE_SIZE
    {
      CanonicalHoldsDegree(g.adjacency[k]);
      assert RecordSizes(g.adjacency, Prefix(p))[k] <= PAGE_SIZE;
    }
    RelativesAlwaysFit(shape, g.adjacency, layout);
  }

  lemma RecordsFit(g: Graph, p: Params, layout: Layout)
    requires Matches(g, p) && PlanOf(g, p, layout)
    ensures |PagedVectors(g, p)| == |g.adjacency| && AdjacencyPages.UniformVectors(PagedVectors(g, p), Prefix(p))
    ensures AdjacencyPages.Lengths(AdjacencyPages.RecordsOf(PagedVectors(g, p), g.adjacency)) == RecordSizes(g.adjacency, Prefix(p))
  {
    AdjacencyPages.RecordLengths(PagedVectors(g, p), g.adjacency, Prefix(p));
  }

  ghost function ContentOf(g: Graph, p: Params, storage: Storage, layout: Layout): Content
    requires Matches(g, p) && PlanOf(g, p, layout)
  {
    PlanFits(g, p, layout);
    RecordsFit(g, p, layout);
    Content(g.codebook, RowIdSection.Section(storage), Concat(g.codes), EncodeAll(RowIdOrder.OrderOf(g.rowIds), 4), Serialize(IndexOf(layout.locators)),
            AdjacencyPages.Section(AdjacencyPages.RecordsOf(PagedVectors(g, p), g.adjacency)),
            if p.interleaved then [] else Concat(g.vectors))
  }

  lemma CodesFill(g: Graph, p: Params, z: Sizes)
    requires Matches(g, p) && z.pqCodes == p.vectorCount * CodeSize(p.pqM, p.pqBits)
    ensures |Concat(g.codes)| == z.pqCodes
  {
    ConcatLength(g.codes, CodeSize(p.pqM, p.pqBits));
  }

  lemma VectorsFill(g: Graph, p: Params, z: Sizes)
    requires Matches(g, p) && z.vectors == if p.interleaved then 0 else p.vectorCount * (p.dimension * p.element.Size())
    ensures !p.interleaved ==> |Concat(g.vectors)| == z.vectors
  {
    ConcatLength(g.vectors, p.dimension * p.element.Size());
  }

  lemma IndexFills(locators: seq<Locator>)
    requires RelativesFit(locators)
    ensures |Serialize(IndexOf(locators))| == SerializedLen(|locators|)
  {
  }

  lemma PagesFill(g: Graph, p: Params, layout: Layout)
    requires Matches(g, p) && PlanOf(g, p, layout)
    ensures |PagedVectors(g, p)| == |g.adjacency|
    ensures AdjacencyPages.Lengths(AdjacencyPages.RecordsOf(PagedVectors(g, p), g.adjacency)) == RecordSizes(g.adjacency, Prefix(p))
    ensures |AdjacencyPages.Section(AdjacencyPages.RecordsOf(PagedVectors(g, p), g.adjacency))| == layout.pageCount * PAGE_SIZE
  {
    RecordsFit(g, p, layout);
  }

  lemma ContentFills(g: Graph, p: Params, storage: Storage, layout: Layout, s: Sections, z: Sizes)
    requires Matches(g, p) && PlanOf(g, p, layout) && z == SizesOf(Sized(p, storage, layout)) && HasSizes(s, z)
    ensures Fills(ContentOf(g, p, storage, layout), s)
  {
    PlanFits(g, p, layout);
    CodesFill(g, p, z);
    VectorsFill(g, p, z);
    IndexFills(layout.locators);
    PagesFill(g, p, layout);
  }

  method WriteOrder(order: seq<nat>) returns (bytes: seq<u8>)
    ensures bytes == EncodeAll(order, 4)
  {
    bytes := [];
    for i := 0 to |order|
      invariant bytes == EncodeAll(order[..i], 4)
    {
      EncodeAllSnoc(order[..i], order[i], 4);
      assert order[..i + 1] == order[..i] + [order[i]];
      bytes := bytes + ToLE(order[i], 4);
    }
    assert order[..|order|] == order;
  }

  method WriteResident(g: Graph, h: Header, storage: Storage, locators: seq<Locator>, ghost c: Content) returns (r: Result<seq<u8>>)
    requires Consecutive(h.sections, h.fileLen) && Fills(c, h.sections) && RelativesFit(locators)
    requires c.codebook == g.codebook && c.rowIds == RowIdSection.Section(storage) && c.pqCodes == Concat(g.codes)
    requires c.rowIdOrder == EncodeAll(RowIdOrder.OrderOf(g.rowIds), 4) && c.adjacencyIndex == Serialize(IndexOf(locators))
    ensures r == Ok(Resident(h, c))
  {
    var out := HeaderCodec.Encode(h);
    var padded := PadOut(out, h.sections.codebook.offset);
    if padded.Err? {
      return padded;
    }
    out := padded.value + g.codebook + RowIdSection.Section(storage);
    var codes := WriteAll(g.codes);
    var order := WriteOrder(RowIdOrder.OrderOf(g.rowIds));
    out := out + codes + order;
    var index := WriteIndex(locators);
    if index.Err? {
      return index;
    }
    return Ok(out + index.value);
  }

  /** What is left after the resident sections; the writer compares its position with the header at the end. */
  method WriteRest(g: Graph, p: Params, h: Header, resident: seq<u8>, layout: Layout, ghost c: Content) returns (r: Result<seq<u8>>)
    requires Matches(g, p) && PlanOf(g, p, layout)
    requires Consecutive(h.sections, h.fileLen) && Fills(c, h.sections) && resident == Resident(h, c)
    requires |PagedVectors(g, p)| == |g.adjacency| && AdjacencyPages.UniformVectors(PagedVectors(g, p), Prefix(p))
    requires FitPages(AdjacencyPages.Lengths(AdjacencyPages.RecordsOf(PagedVectors(g, p), g.adjacency)))
    requires c.adjacency == AdjacencyPages.Section(AdjacencyPages.RecordsOf(PagedVectors(g, p), g.adjacency))
    requires c.vectors == if p.interleaved then [] else Concat(g.vectors)
    ensures |Resident(h, c)| <= h.sections.adjacency.offset && r == Ok(Assemble(h, c)) && |r.value| == h.fileLen
  {
    AssembledHolds(h, c);
    ResidentHolds(h, c);
    var padded := PadOut(resident, h.sections.adjacency.offset);
    if padded.Err? {
      return padded;
    }
    var pages := AdjacencyPages.WritePages(g.adjacency, PagedVectors(g, p), p.interleaved, Prefix(p), layout);
    var out := padded.value + pages;
    if p.interleaved {
      out := out + [];
    } else {
      var vectors := WriteAll(g.vectors);
      out := out + vectors;
    }
    if |out| != h.fileLen {
      return Err(InvalidInput);
    }
    return Ok(out);
  }

  /**
   * `write_diskann_index`. It fails only where a part of it fails on its own: the plan, the
   * row-ID packing or the layout. The emitted bytes always end at the header's file length.
   */
  method Write(g: Graph, p: Params) returns (r: Result<(Header, seq<u8>)>, ghost storage: Storage, ghost layout: Layout)
    requires Matches(g, p)
    ensures r.Ok? ==> WrittenFile(g, p, storage, layout, r.value.0, r.value.1)
    ensures r.Err? ==> r.kind == InvalidInput
    ensures r.Err? && Plannable(g, p) ==>
              PlanOf(g, p, layout) && StorageOf(g, storage) && ForLayout(Sized(p, storage, layout)).Err?
  {
    storage, layout := Raw([]), Layout([], 0);
    if p.vectorCount == 0 || p.vectorCount >= U32_RANGE {
      return Err(InvalidInput), storage, layout;
    }
    var plan := PlanLayout(g.adjacency, Prefix(p));
    if plan.Err? {
      return Err(InvalidInput), storage, layout;
    }
    layout := plan.value;
    var packed := RowIds.Encode(g.rowIds);
    if packed.Err? {
      return Err(InvalidInput), storage, layout;
    }
    storage := packed.value;
    var header := ForLayout(Sized(p, packed.value, plan.value));
    if header.Err? {
      return Err(InvalidInput), storage, layout;
    }
    ghost var c := ContentOf(g, p, storage, layout);
    ContentFills(g, p, storage, layout, header.value.sections, SizesOf(Sized(p, storage, layout)));
    PlanFits(g, p, layout);
    RecordsFit(g, p, layout);
    var resident := WriteResident(g, header.value, packed.value, plan.value.locators, c);
    var file := WriteRest(g, p, header.value, resident.value, plan.value, c);
    AssembledHolds(header.value, c);
    return Ok((header.value, file.value)), storage, layout;
  }

  ghost predicate WrittenFile(g: Graph, p: Params, storage: Storage, layout: Layout, h: Header, file: seq<u8>) {
    && Matches(g, p) && PlanOf(g, p, layout) && StorageOf(g, storage) && ForLayout(Sized(p, storage, layout)) == Ok(h)
    && Holds(file, h, ContentOf(g, p, storage, layout))
  }
}
