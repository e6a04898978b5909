/**
 * From an index in memory to its file and back. The builder relabels only the graph; row IDs,
 * PQ codes and vectors stay in flat buffers in the old order and are read through the
 * permutation. Every node keeps its data and its neighbours.
 */
module PreparedIndex {
  import opened AdjacencyLayout
  import opened AdjacencyList
  import opened AdjacencyValidation
  import opened BfsLocality
  import opened HeaderLayout
  import opened IndexFile
  import opened IndexReader
  import opened LocalityRemap
  import opened Prelude
  import opened RawVector
  import opened RowIds
  import opened Slots
  import HeaderCodec
  import PqCodebook

  /** The PQ codebook, row IDs, and vectors and PQ codes as flat buffers; vector components are bit patterns. */
  datatype Index = Index(codebook: PqCodebook.Codebook, ids: seq<i64>, vectors: seq<u32>, codes: seq<u8>)

  /** A quantizer of u32 shape, as the codebook writer demands. */
  predicate Quantized(p: Params) {
    p.dimension < U32_RANGE && p.pqM + 1 < U32_RANGE && (p.pqBits == 4 || p.pqBits == 8)
  }

  function QuantizerIn(p: Params): (q: PqCodebook.Quantizer)
    requires Quantized(p)
    ensures q.Supported()
  {
    PqCodebook.Quantizer(p.dimension, p.pqM, p.pqBits)
  }

  /** Every buffer has the size that the parameters say, and the quantizer has a valid layout. */
  predicate WellSized(index: Index, p: Params) {
    && |index.ids| == p.vectorCount && |index.vectors| == p.vectorCount * p.dimension
    && |index.codes| == p.vectorCount * CodeSize(p.pqM, p.pqBits)
    && Quantized(p) && PqCodebook.ChunksCover(index.codebook.offsets, QuantizerIn(p))
    && |index.codebook.centroids| == p.dimension * Centroids(p.pqBits)
  }

  // ---------------------------------------------------------------------------------------
  // The accessors of a prepared index, by new ID.

  function RowId(index: Index, newToOld: seq<nat>, newId: nat): i64
    requires newId < |newToOld| && newToOld[newId] < |index.ids|
  {
    index.ids[newToOld[newId]]
  }

  function Vector(index: Index, p: Params, newToOld: seq<nat>, newId: nat): seq<u32>
    requires newId < |newToOld|
  {
    Slot(index.vectors, newToOld[newId], p.dimension)
  }

  function PqCode(index: Index, p: Params, newToOld: seq<nat>, newId: nat): seq<u8>
    requires newId < |newToOld|
  {
    Slot(index.codes, newToOld[newId], CodeSize(p.pqM, p.pqBits))
  }

  /** Component j of the item of node v in a flat buffer of items of the same width. */
  lemma FlatItem<T>(buffer: seq<T>, n: nat, width: nat, v: nat, j: nat)
    requires |buffer| == n * width && v < n && j < width
    ensures 0 <= v * width + j < |buffer| && |Slot(buffer, v, width)| == width && Slot(buffer, v, width)[j] == buffer[v * width + j]
  {
    SlotFits(v, n, width);
  }

  /**
   * The accessors are aligned with the relabelled graph: at the new ID of node v they read the
   * row ID of v, and component by component its vector and its code.
   */
  lemma AccessorsAligned(index: Index, p: Params, newToOld: seq<nat>, oldToNew: seq<nat>, v: nat, j: nat)
    requires WellSized(index, p) && Inverse(newToOld, oldToNew, p.vectorCount) && v < p.vectorCount
    ensures RowId(index, newToOld, oldToNew[v]) == index.ids[v]
    ensures j < p.dimension ==>
              var vector := Vector(index, p, newToOld, oldToNew[v]);
              |vector| == p.dimension && 0 <= v * p.dimension + j < |index.vectors| && vector[j] == index.vectors[v * p.dimension + j]
    ensures var size := CodeSize(p.pqM, p.pqBits);
            j < size ==>
              var code := PqCode(index, p, newToOld, oldToNew[v]);
              |code| == size && 0 <= v * size + j < |index.codes| && code[j] == index.codes[v * size + j]
  {
    if j < p.dimension {
      FlatItem(index.vectors, p.vectorCount, p.dimension, v, j);
    }
    if j < CodeSize(p.pqM, p.pqBits) {
      FlatItem(index.codes, p.vectorCount, CodeSize(p.pqM, p.pqBits), v, j);
    }
  }

  // ---------------------------------------------------------------------------------------
  // What the writer is given.

  /** The raw-vector encoding gives every vector the bytes the layout expects. */
  ghost predicate Encodes(encode: seq<u32> -> seq<u8>, p: Params) {
    forall vector: seq<u32> :: |vector| == p.dimension ==> |encode(vector)| == p.dimension * p.element.Size()
  }

  /** The prepared index, node by node in file order. */
  function Prepared(index: Index, p: Params, encode: seq<u32> -> seq<u8>, newToOld: seq<nat>, g': Adjacency): Graph
    requires Quantized(p) && |index.ids| == |newToOld| && InRange(newToOld, |newToOld|)
  {
    var n := |newToOld|;
    Graph(PqCodebook.Encode(index.codebook, QuantizerIn(p)),
          seq(n, a requires 0 <= a < n => RowId(index, newToOld, a)),
          seq(n, a requires 0 <= a < n => PqCode(index, p, newToOld, a)),
          g',
          seq(n, a requires 0 <= a < n => encode(Vector(index, p, newToOld, a))))
  }

  lemma PreparedMatches(index: Index, p: Params, encode: seq<u32> -> seq<u8>, newToOld: seq<nat>, oldToNew: seq<nat>, g': Adjacency)
    requires WellSized(index, p) && Encodes(encode, p) && Inverse(newToOld, oldToNew, p.vectorCount) && |g'| == p.vectorCount
    ensures Matches(Prepared(index, p, encode, newToOld, g'), p)
  {
    PqCodebook.LengthInWords(QuantizerIn(p));
    forall a | 0 <= a < p.vectorCount
      ensures |PqCode(index, p, newToOld, a)| == CodeSize(p.pqM, p.pqBits)
      ensures |encode(Vector(index, p, newToOld, a))| == p.dimension * p.element.Size()
    {
      SlotFits(newToOld[a], p.vectorCount, p.dimension);
      SlotFits(newToOld[a], p.vectorCount, CodeSize(p.pqM, p.pqBits));
    }
  }

  /** Interleaved vectors must be finite once encoded. */
  ghost predicate VectorsAccepted(index: Index, p: Params, encode: seq<u32> -> seq<u8>) {
    p.interleaved ==> forall v :: 0 <= v < p.vectorCount ==> VectorAccepted(encode(Slot(index.vectors, v, p.dimension)), p.element)
  }

  /** What relabelling leaves behind is what the planner and the validators ask for. */
  lemma PreparedAccepted(index: Index, p: Params, encode: seq<u32> -> seq<u8>, newToOld: seq<nat>, oldToNew: seq<nat>,
                         g: Adjacency, g': Adjacency)
    requires WellSized(index, p) && |g| == p.vectorCount && Relabelled(g, g', newToOld, oldToNew) && Clean(g, p.maxDegree)
    requires VectorsAccepted(index, p, encode)
    ensures Sortable(g') && GraphAccepted(Prepared(index, p, encode, newToOld, g'), p)
  {
    forall a | 0 <= a < |g'|
      ensures |g'[a]| <= p.maxDegree && NeighborsAccepted(g'[a], |g'|, a)
    {
      RelabelledAccepted(g, g', newToOld, oldToNew, p.maxDegree, a);
    }
    if p.interleaved {
      forall a | 0 <= a < |newToOld|
        ensures VectorAccepted(encode(Vector(index, p, newToOld, a)), p.element)
      {
        assert Vector(index, p, newToOld, a) == Slot(index.vectors, newToOld[a], p.dimension);
      }
    }
  }

  /** Records of a clean graph fit their pages under accepted format parameters, so planning never fails. */
  lemma PreparedPlannable(index: Index, p: Params, encode: seq<u32> -> seq<u8>, newToOld: seq<nat>, oldToNew: seq<nat>,
                          g: Adjacency, g': Adjacency)
    requires Quantized(p) && |index.ids| == |g| == p.vectorCount && 0 < |g| < U32_RANGE && FormatAccepted(p)
    requires Relabelled(g, g', newToOld, oldToNew) && Clean(g, p.maxDegree)
    ensures Plannable(Prepared(index, p, encode, newToOld, g'), p)
  {
    forall a | 0 <= a < |g'|
      ensures StrictlyIncreasing(g'[a]) && Prefix(p) + |Canonical(g'[a])| <= PAGE_SIZE
    {
      RelabelledAccepted(g, g', newToOld, oldToNew, p.maxDegree, a);
      CanonicalNeverLonger(g'[a]);
    }
  }

  // ---------------------------------------------------------------------------------------
  // End to end.

  /** The file gives node u, at its new ID, its own row ID, code and vector, and its neighbours under their new IDs. */
  ghost predicate NodeComesBack(index: Index, p: Params, encode: seq<u32> -> seq<u8>, oldToNew: seq<nat>, g: Adjacency,
                                file: seq<u8>, r: Resident, u: nat)
    requires HeaderCodec.Supported(r.header) && u < |g| == |oldToNew| == |index.ids|
  {
    var a := oldToNew[u];
    && r.rowIds.Get(a) == Some(index.ids[u])
    && CodeOf(file, r, a) == Slot(index.codes, u, CodeSize(p.pqM, p.pqBits))
    && VectorOf(file, r, a) == encode(Slot(index.vectors, u, p.dimension))
    && Neighbors(file, r, a).Ok? && |Neighbors(file, r, a).value| == |g[u]|
    && forall v :: 0 <= v < |g| ==> (oldToNew[v] in Neighbors(file, r, a).value <==> v in g[u])
  }

  /** What the writer is given for the new ID of node u is what node u has, its neighbours under their new IDs. */
  ghost predicate MirrorsNode(graph: Graph, index: Index, p: Params, encode: seq<u32> -> seq<u8>, oldToNew: seq<nat>, g: Adjacency, u: nat)
    requires u < |g| == |oldToNew| == |index.ids| == |graph.rowIds| == |graph.codes| == |graph.vectors| == |graph.adjacency|
  {
    var a := oldToNew[u];
    && a < |g| && graph.rowIds[a] == index.ids[u]
    && graph.codes[a] == Slot(index.codes, u, CodeSize(p.pqM, p.pqBits))
    && graph.vectors[a] == encode(Slot(index.vectors, u, p.dimension))
    && |graph.adjacency[a]| == |g[u]| && forall v :: 0 <= v < |g| ==> (oldToNew[v] in graph.adjacency[a] <==> v in g[u])
  }

  ghost predicate Mirrors(graph: Graph, index: Index, p: Params, encode: seq<u32> -> seq<u8>, oldToNew: seq<nat>, g: Adjacency) {
    && Quantized(p) && graph.codebook == PqCodebook.Encode(index.codebook, QuantizerIn(p))
    && |g| == |oldToNew| == |index.ids| == |graph.rowIds| == |graph.codes| == |graph.vectors| == |graph.adjacency|
    && forall u :: 0 <= u < |g| ==> MirrorsNode(graph, index, p, encode, oldToNew, g, u)
  }

  /** The neighbours of node u under their new IDs. */
  lemma RelabelledList(g: Adjacency, g': Adjacency, newToOld: seq<nat>, oldToNew: seq<nat>, maxDegree: nat, u: nat)
    requires Relabelled(g, g', newToOld, oldToNew) && Clean(g, maxDegree) && u < |g|
    ensures |g'[oldToNew[u]]| == |g[u]| && forall v :: 0 <= v < |g| ==> (oldToNew[v] in g'[oldToNew[u]] <==> v in g[u])
  {
    RelabelledAccepted(g, g', newToOld, oldToNew, maxDegree, oldToNew[u]);
    forall v | 0 <= v < |g|
      ensures oldToNew[v] in g'[oldToNew[u]] <==> v in g[u]
    {
      EdgesKept(g, g', newToOld, oldToNew, u, v);
    }
  }

  /** Reading through the permutation mirrors the index and the graph in the order of the new IDs. */
  lemma PreparedMirrors(index: Index, p: Params, encode: seq<u32> -> seq<u8>, newToOld: seq<nat>, oldToNew: seq<nat>, g: Adjacency, g': Adjacency)
    requires Quantized(p) && |index.ids| == |g| && Relabelled(g, g', newToOld, oldToNew) && Clean(g, p.maxDegree)
    ensures Mirrors(Prepared(index, p, encode, newToOld, g'), index, p, encode, oldToNew, g)
  {
    var graph := Prepared(index, p, encode, newToOld, g');
    forall u | 0 <= u < |g|
      ensures MirrorsNode(graph, index, p, encode, oldToNew, g, u)
    {
      RelabelledList(g, g', newToOld, oldToNew, p.maxDegree, u);
      assert Vector(index, p, newToOld, oldToNew[u]) == Slot(index.vectors, u, p.dimension);
    }
  }

  lemma SameQuantizer(graph: Graph, p: Params, storage: Storage, layout: Layout, h: Header, file: seq<u8>)
    requires Quantized(p) && WrittenFile(graph, p, storage, layout, h, file)
    ensures QuantizerOf(h) == QuantizerIn(p)
  {
  }

  lemma CodebookComesBack(bytes: seq<u8>, codebook: PqCodebook.Codebook, q: PqCodebook.Quantizer, read: PqCodebook.Codebook)
    requires q.Supported() && bytes == PqCodebook.Encode(codebook, q) && |codebook.offsets| == q.m + 1
    requires PqCodebook.Decoded(bytes, q) == Ok(read)
    ensures read == codebook
  {
    PqCodebook.DecodedIsEncoded(bytes, q);
    PqCodebook.EncodeInjective(read, codebook, q);
  }

  /** Writing and reading back keeps the codebook, every node's data and every edge. */
  lemma IndexComesBack(graph: Graph, index: Index, p: Params, encode: seq<u32> -> seq<u8>, oldToNew: seq<nat>, g: Adjacency,
                       storage: Storage, layout: Layout, h: Header, file: seq<u8>, r: Resident)
    requires Mirrors(graph, index, p, encode, oldToNew, g) && GraphAccepted(graph, p) && |index.codebook.offsets| == p.pqM + 1
    requires WrittenFile(graph, p, storage, layout, h, file) && Opened(file) == Ok(r)
    ensures HeaderCodec.Supported(r.header) && r.codebook == index.codebook
    ensures forall u :: 0 <= u < |g| ==> NodeComesBack(index, p, encode, oldToNew, g, file, r, u)
  {
    FileReadsBack(graph, p, storage, layout, h, file, r);
    SameQuantizer(graph, p, storage, layout, h, file);
    CodebookComesBack(graph.codebook, index.codebook, QuantizerIn(p), r.codebook);
    forall u | 0 <= u < |g|
      ensures NodeComesBack(index, p, encode, oldToNew, g, file, r, u)
    {
      assert MirrorsNode(graph, index, p, encode, oldToNew, g, u);
      assert NodeReadsBack(graph, file, r, oldToNew[u]);
    }
  }

  lemma CleanIsValid(g: Adjacency, maxDegree: nat)
    requires Clean(g, maxDegree)
    ensures Valid(g)
  {
    forall u | 0 <= u < |g|
      ensures InRange(g[u], |g|)
    {
      assert CleanList(g[u], |g|, u, maxDegree);
    }
  }

  predicate NoEmpty(g: Adjacency) {
    forall u :: 0 <= u < |g| ==> g[u] != []
  }

  /** A graph without an empty list still has none after relabelling. */
  lemma NoEmptyRelabelled(g: Adjacency, g': Adjacency, newToOld: seq<nat>, oldToNew: seq<nat>, maxDegree: nat)
    requires Relabelled(g, g', newToOld, oldToNew) && Clean(g, maxDegree) && NoEmpty(g)
    ensures NoEmpty(g')
  {
    forall a | 0 <= a < |g'|
      ensures g'[a] != []
    {
      RelabelledAccepted(g, g', newToOld, oldToNew, maxDegree, a);
    }
  }

  /** The codebook and every node of the index come back from the file, if the file opens. */
  ghost predicate ComesBack(index: Index, p: Params, encode: seq<u32> -> seq<u8>, oldToNew: seq<nat>, g: Adjacency, file: seq<u8>) {
    && |g| == |oldToNew| == |index.ids|
    && match Opened(file)
       case Err(_) => true
       case Ok(r) =>
         && HeaderCodec.Supported(r.header) && r.codebook == index.codebook
         && forall u :: 0 <= u < |g| ==> NodeComesBack(index, p, encode, oldToNew, g, file, r, u)
  }

  lemma WrittenComesBack(graph: Graph, index: Index, p: Params, encode: seq<u32> -> seq<u8>, oldToNew: seq<nat>, g: Adjacency,
                         storage: Storage, layout: Layout, h: Header, file: seq<u8>)
    requires Mirrors(graph, index, p, encode, oldToNew, g) && GraphAccepted(graph, p) && |index.codebook.offsets| == p.pqM + 1
    requires WrittenFile(graph, p, storage, layout, h, file)
    ensures ComesBack(index, p, encode, oldToNew, g, file)
  {
    if Opened(file).Ok? {
      IndexComesBack(graph, index, p, encode, oldToNew, g, storage, layout, h, file, Opened(file).value);
    }
  }

  /** Finite centroids, codes with clear padding, and no node without neighbours. */
  predicate Openable(index: Index, p: Params, g: Adjacency)
    requires Quantized(p)
  {
    PqCodebook.AllFinite(index.codebook.centroids) && PqCodebook.AllPadded(index.codes, QuantizerIn(p), p.vectorCount) && NoEmpty(g)
  }

  /** What that says about the prepared graph. */
  ghost predicate OpenableGraph(graph: Graph, p: Params)
    requires Quantized(p)
  {
    QuantizerAccepted(graph, QuantizerIn(p)) && NoEmpty(graph.adjacency)
  }

  lemma OpenablePrepared(index: Index, p: Params, encode: seq<u32> -> seq<u8>, newToOld: seq<nat>, oldToNew: seq<nat>,
                         g: Adjacency, g': Adjacency)
    requires WellSized(index, p) && |g| == p.vectorCount && Openable(index, p, g)
    requires Relabelled(g, g', newToOld, oldToNew) && Clean(g, p.maxDegree)
    ensures OpenableGraph(Prepared(index, p, encode, newToOld, g'), p)
  {
    PqCodebook.EncodedDecodes(index.codebook, QuantizerIn(p));
    NoEmptyRelabelled(g, g', newToOld, oldToNew, p.maxDegree);
    forall a | 0 <= a < |newToOld|
      ensures PqCodebook.Padded(PqCode(index, p, newToOld, a), QuantizerIn(p))
    {
      assert PqCodebook.Padded(Slot(index.codes, newToOld[a], CodeSize(p.pqM, p.pqBits)), QuantizerIn(p));
    }
  }

  /**
   * Relabels the graph from its entry, remaps it and writes the file; the header's entry node is
   * the new ID of the entry, which is always 0. It fails exactly if the format parameters are not
   * accepted or the header's layout does not fit its fields. Whenever the file opens, the index
   * comes back, and it always opens with finite centroids, padded codes and no empty list.
   */
  method Build(index: Index, p: Params, encode: seq<u32> -> seq<u8>, g: Adjacency, entry: nat)
    returns (r: Result<(Header, seq<u8>)>, oldToNew: seq<nat>, ghost graph: Graph, ghost storage: Storage, ghost layout: Layout)
    requires WellSized(index, p) && Encodes(encode, p) && VectorsAccepted(index, p, encode) && p.entryNode == 0
    requires entry < |g| == p.vectorCount < U32_RANGE && Clean(g, p.maxDegree)
    ensures |oldToNew| == |g| && oldToNew[entry] == 0 && Mirrors(graph, index, p, encode, oldToNew, g)
    ensures r.Ok? <==> FormatAccepted(p) && ForLayout(Sized(p, storage, layout)).Ok?
    ensures FormatAccepted(p) ==> PlanOf(graph, p, layout) && StorageOf(graph, storage)
    ensures r.Ok? ==> ComesBack(index, p, encode, oldToNew, g, r.value.1) && (Openable(index, p, g) ==> Opened(r.value.1).Ok?)
  {
    var newToOld: seq<nat>;
    ghost var reached;
    newToOld, oldToNew, reached := Relabel(g, entry);
    var rows := new seq<u32>[|g|](i requires 0 <= i < |g| => g[i]);
    assert rows[..] == g;
    CleanIsValid(g, p.maxDegree);
    Remap(rows, oldToNew, newToOld);
    var prepared := Prepared(index, p, encode, newToOld, rows[..]);
    graph := prepared;
    PreparedIsReady(index, p, encode, newToOld, oldToNew, g, rows[..]);
    r, storage, layout := WriteMirror(prepared, index, p, encode, oldToNew, g);
  }

  lemma PreparedIsReady(index: Index, p: Params, encode: seq<u32> -> seq<u8>, newToOld: seq<nat>, oldToNew: seq<nat>,
                        g: Adjacency, g': Adjacency)
    requires WellSized(index, p) && Encodes(encode, p) && VectorsAccepted(index, p, encode)
    requires 0 < |g| == p.vectorCount < U32_RANGE && Relabelled(g, g', newToOld, oldToNew) && Clean(g, p.maxDegree)
    ensures var graph := Prepared(index, p, encode, newToOld, g');
            && Matches(graph, p) && GraphAccepted(graph, p) && Mirrors(graph, index, p, encode, oldToNew, g)
            && (FormatAccepted(p) ==> Plannable(graph, p)) && (Openable(index, p, g) ==> OpenableGraph(graph, p))
  {
    PreparedMatches(index, p, encode, newToOld, oldToNew, g');
    PreparedAccepted(index, p, encode, newToOld, oldToNew, g, g');
    PreparedMirrors(index, p, encode, newToOld, oldToNew, g, g');
    if FormatAccepted(p) {
      PreparedPlannable(index, p, encode, newToOld, oldToNew, g, g');
    }
    if Openable(index, p, g) {
      OpenablePrepared(index, p, encode, newToOld, oldToNew, g, g');
    }
  }

  lemma OpenableOpens(graph: Graph, p: Params, storage: Storage, layout: Layout, h: Header, file: seq<u8>)
    requires Quantized(p) && OpenableGraph(graph, p) && GraphAccepted(graph, p) && WrittenFile(graph, p, storage, layout, h, file)
    ensures Opened(file).Ok?
  {
    SameQuantizer(graph, p, storage, layout, h, file);
    NonEmptyOpens(graph, p, storage, layout, h, file);
  }

  method WriteMirror(graph: Graph, ghost index: Index, p: Params, ghost encode: seq<u32> -> seq<u8>, ghost oldToNew: seq<nat>, ghost g: Adjacency)
    returns (r: Result<(Header, seq<u8>)>, ghost storage: Storage, ghost layout: Layout)
    requires Matches(graph, p) && GraphAccepted(graph, p) && Mirrors(graph, index, p, encode, oldToNew, g)
    requires (FormatAccepted(p) ==> Plannable(graph, p)) && |index.codebook.offsets| == p.pqM + 1
    ensures r.Ok? <==> FormatAccepted(p) && ForLayout(Sized(p, storage, layout)).Ok?
    ensures FormatAccepted(p) ==> PlanOf(graph, p, layout) && StorageOf(graph, storage)
    ensures r.Ok? ==> ComesBack(index, p, encode, oldToNew, g, r.value.1) && (OpenableGraph(graph, p) ==> Opened(r.value.1).Ok?)
  {
    r, storage, layout := Write(graph, p);
    if r.Ok? {
      WrittenComesBack(graph, index, p, encode, oldToNew, g, storage, layout, r.value.0, r.value.1);
      if OpenableGraph(graph, p) {
        OpenableOpens(graph, p, storage, layout, r.value.0, r.value.1);
      }
    }
  }
}
