/** Reading the DiskANN file: what a reader makes of a file alone, and that it gets back what the writer was given. */
module IndexReader {
  import opened AdjacencyIndex
  import opened AdjacencyIndexRoundTrip
  import opened AdjacencyLayout
  import opened AdjacencyValidation
  import opened Bytes
  import opened HeaderLayout
  import opened IndexFile
  import opened Prelude
  import opened RawVector
  import opened RowIds
  import opened Slots
  import AdjacencyExact
  import AdjacencyList
  import AdjacencyPages
  import AdjacencyRoundTrip
  import HeaderCodec
  import PqCodebook
  import RowIdOrder
  import RowIdSection

  /** What stays in memory of an open file. */
  datatype Resident = Resident(header: Header, codebook: PqCodebook.Codebook, rowIds: Storage, index: Index)

  function Slice(file: seq<u8>, section: Section): seq<u8> {
    if section.End() <= |file| then file[section.offset..section.End()] else []
  }

  /** The header fields the adjacency readers consult. */
  function ShapeOf(h: Header): Shape
    requires HeaderCodec.Supported(h)
  {
    var claimed := HeaderCodec.Claimed(h);
    Shape(h.vectorCount, h.maxDegree, claimed.interleaved, h.vectorRecordSize, claimed.element, h.sections.adjacencyIndex.length,
          h.sections.adjacency.length)
  }

  function IndexIn(shape: Shape, bytes: seq<u8>): Result<Index> {
    if shape.indexLength != SerializedLen(shape.vectorCount) || |bytes| != shape.indexLength then Err(InvalidData) else
    var index := Parse(bytes, shape.vectorCount);
    if IndexAccepted(shape, index) then Ok(index) else Err(InvalidData)
  }

  method ReadIndex(shape: Shape, bytes: seq<u8>) returns (r: Result<Index>)
    ensures r == IndexIn(shape, bytes)
  {
    r := DecodeIndex(shape, bytes);
    if r.Ok? {
      ParseSerialized(r.value);
    } else if |bytes| == SerializedLen(shape.vectorCount) {
      SerializeParsed(bytes, shape.vectorCount);
    }
  }

  function QuantizerOf(h: Header): PqCodebook.Quantizer {
    PqCodebook.Quantizer(h.dimension, h.pqM, h.pqBits)
  }

  lemma DecodedHeader(file: seq<u8>)
    requires HeaderCodec.Decode(file).Ok?
    ensures HeaderCodec.Supported(HeaderCodec.Decode(file).value) && QuantizerOf(HeaderCodec.Decode(file).value).Supported()
  {
    var h := HeaderCodec.Decode(file).value;
    assert ParamsAccepted(HeaderCodec.Claimed(h));
    assert h.dimension <= h.dimension * HeaderCodec.Claimed(h).element.Size();
  }

  /** The resident sections of a file; the file must reach the length the header states. */
  function Opened(file: seq<u8>): Result<Resident> {
    var h :- HeaderCodec.Decode(file);
    DecodedHeader(file);
    if |file| < h.fileLen then Err(InvalidData) else
    var codebook :- PqCodebook.Decoded(Slice(file, h.sections.codebook), QuantizerOf(h));
    var rowIds :- RowIdSection.Decoded(Slice(file, h.sections.rowIds), h.vectorCount);
    var index :- IndexIn(ShapeOf(h), Slice(file, h.sections.adjacencyIndex));
    if PqCodebook.AllPadded(Slice(file, h.sections.pqCodes), QuantizerOf(h), h.vectorCount) then Ok(Resident(h, codebook, rowIds, index))
    else Err(InvalidData)
  }

  /** The header, `read_resident_sections` and the padding of the codes. */
  method Open(file: seq<u8>) returns (r: Result<Resident>)
    ensures r == Opened(file)
  {
    var h := HeaderCodec.Decode(file);
    if h.Err? {
      return Err(h.kind);
    }
    if |file| < h.value.fileLen {
      return Err(InvalidData);
    }
    DecodedHeader(file);
    var codebook := PqCodebook.DecodeCodebook(Slice(file, h.value.sections.codebook), QuantizerOf(h.value));
    if codebook.Err? {
      return Err(codebook.kind);
    }
    var rowIds := RowIdSection.DecodeSection(Slice(file, h.value.sections.rowIds), h.value.vectorCount);
    if rowIds.Err? {
      return Err(rowIds.kind);
    }
    var index := ReadIndex(ShapeOf(h.value), Slice(file, h.value.sections.adjacencyIndex));
    if index.Err? {
      return Err(index.kind);
    }
    var padded := PqCodebook.ValidatePadding(Slice(file, h.value.sections.pqCodes), QuantizerOf(h.value), h.value.vectorCount);
    if !padded {
      return Err(InvalidData);
    }
    return Ok(Resident(h.value, codebook.value, rowIds.value, index.value));
  }

  /** The list of a node, decoded from its page. */
  function NeighborsIn(index: Index, section: seq<u8>, node: nat): Result<seq<u32>> {
    match index.LocatorAt(node)
    case None => Err(InvalidData)
    case Some(here) =>
      var page := AdjacencyExact.Page(section, here.page);
      if here.byteOffset > |page| then Err(InvalidData) else
      var (ns, _) :- AdjacencyList.Decode(page[here.byteOffset..], here.Degree(), here.Mode());
      Ok(ns)
  }

  function Neighbors(file: seq<u8>, r: Resident, node: nat): Result<seq<u32>> {
    NeighborsIn(r.index, Slice(file, r.header.sections.adjacency), node)
  }

  /** The code of a node, by its position in the section. */
  function CodeOf(file: seq<u8>, r: Resident, node: nat): seq<u8> {
    Slot(Slice(file, r.header.sections.pqCodes), node, CodeSize(r.header.pqM, r.header.pqBits))
  }

  /** The vector in front of a node's list. */
  function PagedVector(shape: Shape, index: Index, section: seq<u8>, node: nat): seq<u8> {
    AdjacencyExact.VectorOn(shape, index, AdjacencyExact.Page(section, AdjacencyExact.StartAt(shape, index, node).page), node)
  }

  /** The encoded vector of a node: in front of its list, or by its position in the section of vectors. */
  function VectorOf(file: seq<u8>, r: Resident, node: nat): seq<u8>
    requires HeaderCodec.Supported(r.header)
  {
    var shape := ShapeOf(r.header);
    if shape.interleaved then PagedVector(shape, r.index, Slice(file, r.header.sections.adjacency), node)
    else Slot(Slice(file, r.header.sections.vectors), node, r.header.vectorRecordSize)
  }

  // ---------------------------------------------------------------------------------------
  // Header and row IDs.

  lemma HeaderReadsBack(g: Graph, p: Params, storage: Storage, layout: Layout, h: Header, file: seq<u8>)
    requires WrittenFile(g, p, storage, layout, h, file)
    ensures HeaderCodec.Decode(file) == Ok(h) && |file| == h.fileLen
    ensures HeaderCodec.Supported(h) && HeaderCodec.Claimed(h) == Sized(p, storage, layout)
  {
    HeaderCodec.FileHeaderReads(Sized(p, storage, layout), h, file);
    HeaderCodec.ClaimsItsParams(Sized(p, storage, layout), h);
  }

  /** Packed row IDs and their order come back from their sections. */
  lemma RowIdsDecode(rowIds: seq<i64>, storage: Storage, base: i64, top: i64)
    requires |rowIds| < U32_RANGE && Encodes(storage, rowIds, base, top)
    ensures RowIdSection.Decoded(RowIdSection.Section(storage), |rowIds|) == Ok(storage)
    ensures forall node :: 0 <= node < |rowIds| ==> storage.Get(node) == Some(rowIds[node])
  {
    RowIdSection.SectionRoundTrip(storage, rowIds, base, top);
    forall node | 0 <= node < |rowIds|
      ensures storage.Get(node) == Some(rowIds[node])
    {
      EncodedGet(storage, rowIds, base, top, node);
    }
  }

  lemma OrderDecodes(rowIds: seq<i64>)
    requires |rowIds| < U32_RANGE
    ensures DecodeAll(EncodeAll(RowIdOrder.OrderOf(rowIds), 4), 4) == RowIdOrder.OrderOf(rowIds)
    ensures RowIdOrder.OrderAccepted(rowIds, RowIdOrder.OrderOf(rowIds))
  {
    var order := RowIdOrder.OrderOf(rowIds);
    WidthRanges();
    DecodeEncodeAll(order, 4);
    RowIdOrder.OrderExistsOnce(rowIds, order);
    RowIdOrder.AcceptsExactlyTheOrder(rowIds, order);
  }

  lemma HeldRowIds(file: seq<u8>, h: Header, c: Content)
    requires IndexFile.Holds(file, h, c)
    ensures Slice(file, h.sections.rowIds) == c.rowIds && Slice(file, h.sections.rowIdOrder) == c.rowIdOrder
  {
  }

  lemma HeldFixed(file: seq<u8>, h: Header, c: Content)
    requires IndexFile.Holds(file, h, c)
    ensures Slice(file, h.sections.pqCodes) == c.pqCodes && Slice(file, h.sections.vectors) == c.vectors
  {
  }

  lemma StorageExtent(g: Graph, storage: Storage) returns (base: i64, top: i64)
    requires StorageOf(g, storage)
    ensures Encodes(storage, g.rowIds, base, top)
  {
    base, top :| IsMinimum(base, g.rowIds) && IsMaximum(top, g.rowIds) && Encodes(storage, g.rowIds, base, top);
  }

  lemma RowIdSlices(g: Graph, p: Params, storage: Storage, layout: Layout, h: Header, file: seq<u8>)
      returns (base: i64, top: i64)
    requires WrittenFile(g, p, storage, layout, h, file)
    ensures Slice(file, h.sections.rowIds) == RowIdSection.Section(storage)
    ensures Slice(file, h.sections.rowIdOrder) == EncodeAll(RowIdOrder.OrderOf(g.rowIds), 4)
    ensures |g.rowIds| < U32_RANGE && h.vectorCount == |g.rowIds| && Encodes(storage, g.rowIds, base, top)
  {
    base, top := StorageExtent(g, storage);
    HeldRowIds(file, h, ContentOf(g, p, storage, layout));
  }

  /** The row IDs of every node come back, and so does the one order that the validator accepts. */
  lemma RowIdsReadBack(g: Graph, p: Params, storage: Storage, layout: Layout, h: Header, file: seq<u8>)
    requires WrittenFile(g, p, storage, layout, h, file)
    ensures RowIdSection.Decoded(Slice(file, h.sections.rowIds), h.vectorCount) == Ok(storage)
    ensures forall node :: 0 <= node < |g.rowIds| ==> storage.Get(node) == Some(g.rowIds[node])
    ensures DecodeAll(Slice(file, h.sections.rowIdOrder), 4) == RowIdOrder.OrderOf(g.rowIds)
    ensures RowIdOrder.OrderAccepted(g.rowIds, RowIdOrder.OrderOf(g.rowIds))
  {
    var base, top := RowIdSlices(g, p, storage, layout, h, file);
    RowIdsDecode(g.rowIds, storage, base, top);
    OrderDecodes(g.rowIds);
  }

  // ---------------------------------------------------------------------------------------
  // The adjacency index.

  /** The graph's lists respect the degree bound that the header states. */
  predicate DegreesBounded(g: Graph, p: Params) {
    forall k :: 0 <= k < |g.adjacency| ==> |g.adjacency[k]| <= p.maxDegree
  }

  lemma ShapeFields(p: Params, q: Params, h: Header)
    requires ForLayout(q) == Ok(h) && q.vectorCount == p.vectorCount && q.maxDegree == p.maxDegree
    requires q.dimension == p.dimension && q.interleaved == p.interleaved && q.element == p.element
    requires HeaderCodec.Supported(h) && HeaderCodec.Claimed(h) == q
    ensures ShapeOf(h).vectorCount == p.vectorCount && ShapeOf(h).maxDegree == p.maxDegree
    ensures ShapeOf(h).interleaved == p.interleaved && ShapeOf(h).element == p.element
    ensures ShapeOf(h).indexLength == SerializedLen(p.vectorCount) && ShapeOf(h).adjacencyLength == q.adjacencyPages * PAGE_SIZE
    ensures ShapeOf(h).Prefix() == Prefix(p) && (p.interleaved ==> ShapeOf(h).recordSize > 0)
  {
    assert p.dimension * p.element.Size() > 0;
  }

  /** The header describes the written graph to the adjacency readers. */
  lemma ShapeDescribes(g: Graph, p: Params, storage: Storage, layout: Layout, h: Header, file: seq<u8>)
    requires WrittenFile(g, p, storage, layout, h, file) && DegreesBounded(g, p)
    ensures HeaderCodec.Supported(h) && Describes(ShapeOf(h), g.adjacency, layout) && ShapeOf(h).Prefix() == Prefix(p)
    ensures ShapeOf(h).indexLength == SerializedLen(|g.adjacency|)
    ensures ShapeOf(h).interleaved == p.interleaved && ShapeOf(h).element == p.element
  {
    HeaderReadsBack(g, p, storage, layout, h, file);
    ShapeFields(p, Sized(p, storage, layout), h);
  }

  /** The index section decodes to the planned index, or is refused, exactly as the plan is readable or not. */
  lemma IndexReadsBack(g: Graph, p: Params, storage: Storage, layout: Layout, h: Header, file: seq<u8>)
    requires WrittenFile(g, p, storage, layout, h, file) && DegreesBounded(g, p)
    ensures HeaderCodec.Supported(h) && RelativesFit(layout.locators) && |layout.locators| == |g.adjacency| > 0
    ensures IndexIn(ShapeOf(h), Slice(file, h.sections.adjacencyIndex))
            == if Readable(ShapeOf(h), layout) then Ok(IndexOf(layout.locators)) else Err(InvalidData)
  {
    ShapeDescribes(g, p, storage, layout, h, file);
    PlannedIndexAccepted(ShapeOf(h), g.adjacency, layout);
    assert Slice(file, h.sections.adjacencyIndex) == Serialize(IndexOf(layout.locators));
    ParseSerialized(IndexOf(layout.locators));
  }

  // ---------------------------------------------------------------------------------------
  // The codebook and the codes.

  /** The codebook bytes decode, and every code has clear padding. */
  predicate QuantizerAccepted(g: Graph, q: PqCodebook.Quantizer)
    requires q.Supported()
  {
    PqCodebook.Decoded(g.codebook, q).Ok? && forall k :: 0 <= k < |g.codes| ==> PqCodebook.Padded(g.codes[k], q)
  }

  lemma PaddingOfParts(codes: seq<seq<u8>>, q: PqCodebook.Quantizer)
    requires Uniform(codes, |codes|, CodeSize(q.m, q.bits))
    ensures PqCodebook.AllPadded(Concat(codes), q, |codes|) <==> forall k :: 0 <= k < |codes| ==> PqCodebook.Padded(codes[k], q)
  {
    forall k | 0 <= k < |codes|
      ensures Slot(Concat(codes), k, CodeSize(q.m, q.bits)) == codes[k]
    {
      ConcatSlot(codes, CodeSize(q.m, q.bits), k);
    }
  }

  /** Both sections come back as they were written. */
  lemma QuantizerReadsBack(g: Graph, p: Params, storage: Storage, layout: Layout, h: Header, file: seq<u8>)
    requires WrittenFile(g, p, storage, layout, h, file)
    ensures QuantizerOf(h).Supported() && Slice(file, h.sections.codebook) == g.codebook
    ensures PqCodebook.AllPadded(Slice(file, h.sections.pqCodes), QuantizerOf(h), h.vectorCount) <==>
            forall k :: 0 <= k < |g.codes| ==> PqCodebook.Padded(g.codes[k], QuantizerOf(h))
  {
    HeaderReadsBack(g, p, storage, layout, h, file);
    DecodedHeader(file);
    FixedSections(g, p, storage, layout, h, file);
    PaddingOfParts(g.codes, QuantizerOf(h));
  }

  // ---------------------------------------------------------------------------------------
  // Opening.

  /** The sections a written file is opened with. */
  ghost function Written(g: Graph, storage: Storage, layout: Layout, h: Header): Resident
    requires QuantizerOf(h).Supported() && QuantizerAccepted(g, QuantizerOf(h)) && RelativesFit(layout.locators)
  {
    Resident(h, PqCodebook.Decoded(g.codebook, QuantizerOf(h)).value, storage, IndexOf(layout.locators))
  }

  /** Opening a file, by what its sections decode to. */
  lemma OpenedFrom(file: seq<u8>, h: Header, codebook: Result<PqCodebook.Codebook>, rowIds: Storage, index: Result<Index>)
    requires HeaderCodec.Decode(file) == Ok(h) && h.fileLen <= |file| && HeaderCodec.Supported(h) && QuantizerOf(h).Supported()
    requires codebook == PqCodebook.Decoded(Slice(file, h.sections.codebook), QuantizerOf(h))
    requires Ok(rowIds) == RowIdSection.Decoded(Slice(file, h.sections.rowIds), h.vectorCount)
    requires index == IndexIn(ShapeOf(h), Slice(file, h.sections.adjacencyIndex))
    ensures Opened(file) ==
            if codebook.Ok? && index.Ok? && PqCodebook.AllPadded(Slice(file, h.sections.pqCodes), QuantizerOf(h), h.vectorCount)
            then Ok(Resident(h, codebook.value, rowIds, index.value)) else Err(InvalidData)
  {
  }

  lemma SectionsReadBack(g: Graph, p: Params, storage: Storage, layout: Layout, h: Header, file: seq<u8>)
    requires WrittenFile(g, p, storage, layout, h, file) && DegreesBounded(g, p)
    ensures HeaderCodec.Decode(file) == Ok(h) && h.fileLen == |file| && HeaderCodec.Supported(h) && QuantizerOf(h).Supported()
    ensures Slice(file, h.sections.codebook) == g.codebook
    ensures RowIdSection.Decoded(Slice(file, h.sections.rowIds), h.vectorCount) == Ok(storage)
    ensures RelativesFit(layout.locators) && |layout.locators| > 0
    ensures IndexIn(ShapeOf(h), Slice(file, h.sections.adjacencyIndex))
            == if Readable(ShapeOf(h), layout) then Ok(IndexOf(layout.locators)) else Err(InvalidData)
    ensures PqCodebook.AllPadded(Slice(file, h.sections.pqCodes), QuantizerOf(h), h.vectorCount) <==>
            forall k :: 0 <= k < |g.codes| ==> PqCodebook.Padded(g.codes[k], QuantizerOf(h))
  {
    HeaderReadsBack(g, p, storage, layout, h, file);
    QuantizerReadsBack(g, p, storage, layout, h, file);
    RowIdsReadBack(g, p, storage, layout, h, file);
    IndexReadsBack(g, p, storage, layout, h, file);
  }

  /**
   * A written file opens if and only if the plan is readable, the codebook decodes and the codes
   * have clear padding; and then with the header, codebook, row IDs and index that were written.
   */
  lemma OpensIffReadable(g: Graph, p: Params, storage: Storage, layout: Layout, h: Header, file: seq<u8>)
    requires WrittenFile(g, p, storage, layout, h, file) && DegreesBounded(g, p)
    ensures HeaderCodec.Supported(h) && QuantizerOf(h).Supported() && RelativesFit(layout.locators) && |layout.locators| > 0
    ensures Opened(file) == if Readable(ShapeOf(h), layout) && QuantizerAccepted(g, QuantizerOf(h))
                            then Ok(Written(g, storage, layout, h)) else Err(InvalidData)
  {
    SectionsReadBack(g, p, storage, layout, h, file);
    OpenedFrom(file, h, PqCodebook.Decoded(g.codebook, QuantizerOf(h)), storage,
               if Readable(ShapeOf(h), layout) then Ok(IndexOf(layout.locators)) else Err(InvalidData));
  }

  /** Without an empty list in the wrong place, every written file with such a codebook and codes opens. */
  lemma NonEmptyOpens(g: Graph, p: Params, storage: Storage, layout: Layout, h: Header, file: seq<u8>)
    requires WrittenFile(g, p, storage, layout, h, file) && DegreesBounded(g, p)
    requires QuantizerOf(h).Supported() && QuantizerAccepted(g, QuantizerOf(h))
    requires forall k :: 0 <= k < |g.adjacency| && (p.interleaved || k == |g.adjacency| - 1) ==> g.adjacency[k] != []
    ensures Opened(file).Ok?
  {
    ShapeDescribes(g, p, storage, layout, h, file);
    NonEmptyIsReadable(ShapeOf(h), g.adjacency, layout);
    OpensIffReadable(g, p, storage, layout, h, file);
  }

  // ---------------------------------------------------------------------------------------
  // Pages, neighbour lists and vectors.

  ghost predicate GraphAccepted(g: Graph, p: Params) {
    && DegreesBounded(g, p)
    && (forall k :: 0 <= k < |g.adjacency| ==> NeighborsAccepted(g.adjacency[k], |g.adjacency|, k))
    && (p.interleaved ==> forall k :: 0 <= k < |g.vectors| ==> VectorAccepted(g.vectors[k], p.element))
  }

  /** A written graph in a file that opens: its index, shape and section of pages. */
  ghost predicate InFile(g: Graph, p: Params, shape: Shape, index: Index, section: seq<u8>) {
    && AdjacencyRoundTrip.Stored(shape, g.adjacency, PagedVectors(g, p), index)
    && AdjacencyPages.Lengths(AdjacencyPages.RecordsOf(PagedVectors(g, p), g.adjacency)) == RecordSizes(g.adjacency, shape.Prefix())
    && section == AdjacencyPages.Section(AdjacencyPages.RecordsOf(PagedVectors(g, p), g.adjacency))
    && |section| == shape.PageCount() * PAGE_SIZE && |g.adjacency| > 0 && shape.interleaved == p.interleaved
  }

  /** What the file's adjacency section holds. */
  lemma AdjacencySlice(g: Graph, p: Params, storage: Storage, layout: Layout, h: Header, file: seq<u8>)
    requires WrittenFile(g, p, storage, layout, h, file)
    ensures |PagedVectors(g, p)| == |g.adjacency| && AdjacencyPages.UniformVectors(PagedVectors(g, p), Prefix(p))
    ensures FitPages(AdjacencyPages.Lengths(AdjacencyPages.RecordsOf(PagedVectors(g, p), g.adjacency)))
    ensures Slice(file, h.sections.adjacency) == AdjacencyPages.Section(AdjacencyPages.RecordsOf(PagedVectors(g, p), g.adjacency))
  {
    RecordsFit(g, p, layout);
  }

  lemma WrittenGraph(g: Graph, p: Params, storage: Storage, layout: Layout, h: Header, file: seq<u8>)
    requires WrittenFile(g, p, storage, layout, h, file) && GraphAccepted(g, p)
    requires HeaderCodec.Supported(h) && |layout.locators| > 0 && Readable(ShapeOf(h), layout)
    ensures RelativesFit(layout.locators)
    ensures InFile(g, p, ShapeOf(h), IndexOf(layout.locators), Slice(file, h.sections.adjacency))
  {
    ShapeDescribes(g, p, storage, layout, h, file);
    AdjacencySlice(g, p, storage, layout, h, file);
    AdjacencyRoundTrip.WrittenIsStored(ShapeOf(h), g.adjacency, PagedVectors(g, p), layout);
  }

  lemma PageInFile(g: Graph, p: Params, shape: Shape, index: Index, section: seq<u8>, i: nat)
    requires InFile(g, p, shape, index, section) && i < shape.PageCount()
    ensures PageAccepted(shape, index, i, AdjacencyExact.Page(section, i))
  {
    var _, _ := AdjacencyRoundTrip.StoredPageAccepted(shape, g.adjacency, PagedVectors(g, p), index, section, i);
  }

  lemma PagesInFile(g: Graph, p: Params, shape: Shape, index: Index, section: seq<u8>)
    requires InFile(g, p, shape, index, section)
    ensures AdjacencyExact.PagesAccepted(shape, index, section)
  {
    forall i | 0 <= i < shape.PageCount()
      ensures PageAccepted(shape, index, i, AdjacencyExact.Page(section, i))
    {
      PageInFile(g, p, shape, index, section, i);
    }
  }

  lemma ListInFile(g: Graph, p: Params, shape: Shape, index: Index, section: seq<u8>, k: nat)
    requires InFile(g, p, shape, index, section) && k < |g.adjacency|
    ensures NeighborsIn(index, section, k) == Ok(g.adjacency[k])
  {
    var here := AdjacencyRoundTrip.StoredListDecodes(shape, g.adjacency, PagedVectors(g, p), index, section, k);
  }

  lemma VectorInFile(g: Graph, p: Params, shape: Shape, index: Index, section: seq<u8>, k: nat)
    requires InFile(g, p, shape, index, section) && k < |g.adjacency| && p.interleaved
    ensures PagedVector(shape, index, section, k) == g.vectors[k]
  {
    AdjacencyExact.StoredVectorReads(shape, g.adjacency, PagedVectors(g, p), index, section, k);
  }

  lemma {:induction false} ConcatSlot(parts: seq<seq<u8>>, size: nat, k: nat)
    requires k < |parts| && forall i :: 0 <= i < |parts| ==> |parts[i]| == size
    ensures Slot(Concat(parts), k, size) == parts[k]
  {
    var last := |parts| - 1;
    ConcatLength(parts[..last], size);
    SlotOfAppend(Concat(parts[..last]), parts[last], last, size);
    if k < last {
      ConcatSlot(parts[..last], size, k);
    }
  }

  /** The sections of equal-sized items, and the sizes the header gives for them. */
  lemma FixedSections(g: Graph, p: Params, storage: Storage, layout: Layout, h: Header, file: seq<u8>)
    requires WrittenFile(g, p, storage, layout, h, file)
    ensures Slice(file, h.sections.pqCodes) == Concat(g.codes) && Uniform(g.codes, |g.adjacency|, CodeSize(h.pqM, h.pqBits))
    ensures !p.interleaved ==> Slice(file, h.sections.vectors) == Concat(g.vectors)
    ensures Uniform(g.vectors, |g.adjacency|, h.vectorRecordSize)
  {
    HeldFixed(file, h, ContentOf(g, p, storage, layout));
  }

  // ---------------------------------------------------------------------------------------
  // End to end.

  /** Node k of the open file is node k of the graph. */
  ghost predicate NodeReadsBack(g: Graph, file: seq<u8>, r: Resident, k: nat)
    requires HeaderCodec.Supported(r.header) && k < |g.rowIds| == |g.adjacency| == |g.codes| == |g.vectors|
  {
    && r.rowIds.Get(k) == Some(g.rowIds[k]) && Neighbors(file, r, k) == Ok(g.adjacency[k])
    && CodeOf(file, r, k) == g.codes[k] && VectorOf(file, r, k) == g.vectors[k]
  }

  lemma NodeInFile(g: Graph, p: Params, storage: Storage, layout: Layout, h: Header, file: seq<u8>, r: Resident, k: nat)
    requires WrittenFile(g, p, storage, layout, h, file) && GraphAccepted(g, p) && k < |g.adjacency|
    requires HeaderCodec.Supported(h) && RelativesFit(layout.locators) && |layout.locators| > 0 && Readable(ShapeOf(h), layout)
    requires r.header == h && r.rowIds == storage && r.index == IndexOf(layout.locators)
    ensures NodeReadsBack(g, file, r, k)
  {
    RowIdsReadBack(g, p, storage, layout, h, file);
    WrittenGraph(g, p, storage, layout, h, file);
    FixedSections(g, p, storage, layout, h, file);
    NodePartsRead(g, p, file, r, k);
  }

  lemma NodePartsRead(g: Graph, p: Params, file: seq<u8>, r: Resident, k: nat)
    requires HeaderCodec.Supported(r.header) && k < |g.rowIds| == |g.adjacency| && r.rowIds.Get(k) == Some(g.rowIds[k])
    requires Slice(file, r.header.sections.pqCodes) == Concat(g.codes)
    requires Uniform(g.codes, |g.adjacency|, CodeSize(r.header.pqM, r.header.pqBits))
    requires !p.interleaved ==> Slice(file, r.header.sections.vectors) == Concat(g.vectors)
    requires Uniform(g.vectors, |g.adjacency|, r.header.vectorRecordSize)
    requires InFile(g, p, ShapeOf(r.header), r.index, Slice(file, r.header.sections.adjacency))
    ensures NodeReadsBack(g, file, r, k)
  {
    var section := Slice(file, r.header.sections.adjacency);
    ListInFile(g, p, ShapeOf(r.header), r.index, section, k);
    ConcatSlot(g.codes, CodeSize(r.header.pqM, r.header.pqBits), k);
    if p.interleaved {
      VectorInFile(g, p, ShapeOf(r.header), r.index, section, k);
    } else {
      ConcatSlot(g.vectors, r.header.vectorRecordSize, k);
    }
  }

  /**
   * From the file alone: a written file that opens gives back the codebook and, for every node,
   * its row ID, its neighbour list, its PQ code and its vector; every page of it passes validation.
   */
  lemma FileReadsBack(g: Graph, p: Params, storage: Storage, layout: Layout, h: Header, file: seq<u8>, r: Resident)
    requires WrittenFile(g, p, storage, layout, h, file) && GraphAccepted(g, p) && Opened(file) == Ok(r)
    ensures HeaderCodec.Supported(r.header) && r.header == h
    ensures QuantizerOf(h).Supported() && PqCodebook.Decoded(g.codebook, QuantizerOf(h)) == Ok(r.codebook)
    ensures forall k :: 0 <= k < |g.adjacency| ==> NodeReadsBack(g, file, r, k)
    ensures AdjacencyExact.PagesAccepted(ShapeOf(r.header), r.index, Slice(file, r.header.sections.adjacency))
  {
    OpensIffReadable(g, p, storage, layout, h, file);
    ReadableReadsBack(g, p, storage, layout, h, file, r);
  }

  lemma ReadableReadsBack(g: Graph, p: Params, storage: Storage, layout: Layout, h: Header, file: seq<u8>, r: Resident)
    requires WrittenFile(g, p, storage, layout, h, file) && GraphAccepted(g, p)
    requires HeaderCodec.Supported(h) && RelativesFit(layout.locators) && |layout.locators| > 0 && Readable(ShapeOf(h), layout)
    requires r.header == h && r.rowIds == storage && r.index == IndexOf(layout.locators)
    ensures forall k :: 0 <= k < |g.adjacency| ==> NodeReadsBack(g, file, r, k)
    ensures AdjacencyExact.PagesAccepted(ShapeOf(h), r.index, Slice(file, h.sections.adjacency))
  {
    forall k | 0 <= k < |g.adjacency|
      ensures NodeReadsBack(g, file, r, k)
    {
      NodeInFile(g, p, storage, layout, h, file, r, k);
    }
    WrittenGraph(g, p, storage, layout, h, file);
    PagesInFile(g, p, ShapeOf(h), r.index, Slice(file, h.sections.adjacency));
  }

  /** No proper prefix of a written file opens, even one that holds all resident sections. */
  lemma TruncatedRefused(g: Graph, p: Params, storage: Storage, layout: Layout, h: Header, file: seq<u8>, n: nat)
    requires WrittenFile(g, p, storage, layout, h, file) && n < |file|
    ensures Opened(file[..n]).Err?
  {
    HeaderReadsBack(g, p, storage, layout, h, file);
    ShortRefused(file, h, n);
  }

  lemma ShortRefused(file: seq<u8>, h: Header, n: nat)
    requires HeaderCodec.Decode(file) == Ok(h) && n < |file| && n < h.fileLen
    ensures Opened(file[..n]).Err?
  {
    var short := file[..n];
    if n >= HEADER_SIZE {
      HeaderCodec.DecodeOfPrefix(file, file[..HEADER_SIZE]);
      HeaderCodec.DecodeOfPrefix(short, file[..HEADER_SIZE]);
    }
  }
}
