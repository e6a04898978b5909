/**
 * The block-compressed adjacency index: one `u64` base per 16 nodes, then a `u16`
 * relative offset and a `u16` degree-and-mode word per node.
 */
module AdjacencyIndex {
  import opened Prelude
  import opened Bytes
  import opened AdjacencyList
  import opened AdjacencyLayout
  import opened RawVector

  const BLOCK_NODES: nat := 16

  /** The header fields that adjacency readers consult. */
  datatype Shape = Shape(
    vectorCount: nat,
    maxDegree: nat,
    interleaved: bool,
    recordSize: nat,
    element: Element,
    indexLength: nat,
    adjacencyLength: nat)
  {
    /** Bytes of raw vector in front of every list. */
    function Prefix(): nat {
      if interleaved then recordSize else 0
    }

    function PageCount(): nat {
      adjacencyLength / PAGE_SIZE
    }
  }

  datatype Index = Index(blockOffsets: seq<u64>, relativeOffsets: seq<u16>, degreeAndFlags: seq<u16>) {
    function Len(): nat {
      |relativeOffsets|
    }

    /** `AdjacencyIndex::locator`. */
    function LocatorAt(node: nat): (r: Option<Locator>)
      ensures r.Some? ==> r.value.byteOffset < PAGE_SIZE && node < Len() && node < |degreeAndFlags|
    {
      if node < |relativeOffsets| && node < |degreeAndFlags| && node / BLOCK_NODES < |blockOffsets| then
        var absolute := blockOffsets[node / BLOCK_NODES] + relativeOffsets[node];
        if absolute >= U64_RANGE || absolute / PAGE_SIZE >= U32_RANGE then None
        else Some(Locator(absolute / PAGE_SIZE, absolute % PAGE_SIZE, degreeAndFlags[node]))
      else None
    }
  }

  // ---------------------------------------------------------------------------
  // Serialization
  // ---------------------------------------------------------------------------

  function BlockStart(node: nat): nat {
    node / BLOCK_NODES * BLOCK_NODES
  }

  function SerializedLen(vectorCount: nat): nat {
    8 * DivCeil(vectorCount, BLOCK_NODES) + 4 * vectorCount
  }

  /** Distance of a node's list from its block base. */
  function Relative(locators: seq<Locator>, node: nat): int
    requires node < |locators|
  {
    locators[node].AbsoluteOffset() - locators[BlockStart(node)].AbsoluteOffset()
  }

  /** Every offset stays within 16 bits of its block base, and never before it. */
  predicate RelativesFit(locators: seq<Locator>) {
    forall k :: 0 <= k < |locators| ==> 0 <= Relative(locators, k) < U16_RANGE
  }

  /** The index of a sequence of locators. */
  function IndexOf(locators: seq<Locator>): (index: Index)
    requires RelativesFit(locators)
    ensures index.Len() == |locators|
  {
    Index(
      seq(DivCeil(|locators|, BLOCK_NODES), b requires 0 <= b < DivCeil(|locators|, BLOCK_NODES) =>
        locators[b * BLOCK_NODES].AbsoluteOffset()),
      seq(|locators|, k requires 0 <= k < |locators| => Relative(locators, k)),
      seq(|locators|, k requires 0 <= k < |locators| => locators[k].degreeAndFlags))
  }

  function Serialize(index: Index): seq<u8> {
    EncodeAll(index.blockOffsets, 8) + EncodeAll(index.relativeOffsets, 2) + EncodeAll(index.degreeAndFlags, 2)
  }

  lemma {:induction false} EncodeAllSnoc(vs: seq<nat>, v: nat, width: nat)
    ensures EncodeAll(vs + [v], width) == EncodeAll(vs, width) + ToLE(v, width)
  {
    if vs == [] {
      assert vs + [v] == [v] + [];
      EncodeAllCons(v, [], width);
      assert ToLE(v, width) + [] == [] + ToLE(v, width);
    } else {
      EncodeAllSnoc(vs[1..], v, width);
      assert (vs + [v])[1..] == vs[1..] + [v];
      ConcatAssoc(ToLE(vs[0], width), EncodeAll(vs[1..], width), ToLE(v, width));
    }
  }

  /** The block bases, written by the first loop of `write_adjacency_index`. */
  method WriteBlockBases(locators: seq<Locator>) returns (written: seq<u8>)
    requires RelativesFit(locators)
    ensures written == EncodeAll(IndexOf(locators).blockOffsets, 8)
  {
    written := [];
    ghost var bases := IndexOf(locators).blockOffsets;
    var blockStart, block := 0, 0;
    while blockStart < |locators|
      invariant blockStart == block * BLOCK_NODES && block <= |bases|
      invariant written == EncodeAll(bases[..block], 8)
    {
      EncodeAllSnoc(bases[..block], bases[block], 8);
      assert bases[..block + 1] == bases[..block] + [bases[block]];
      written := written + ToLE(locators[blockStart].AbsoluteOffset(), 8);
      blockStart, block := blockStart + BLOCK_NODES, block + 1;
    }
    assert bases[..block] == bases;
  }

  /** The relative offsets, written by the second loop of `write_adjacency_index`. */
  method WriteRelatives(locators: seq<Locator>) returns (r: Result<seq<u8>>)
    ensures r.Ok? <==> RelativesFit(locators)
    ensures r.Ok? ==> r.value == EncodeAll(IndexOf(locators).relativeOffsets, 2)
    ensures r.Err? ==> r.kind == InvalidInput
  {
    var written: seq<u8> := [];
    ghost var relatives: seq<u16> := [];
    for node := 0 to |locators|
      invariant |relatives| == node
      invariant forall k :: 0 <= k < node ==> relatives[k] == Relative(locators, k)
      invariant written == EncodeAll(relatives, 2)
    {
      var relative := Relative(locators, node);
      if !(0 <= relative < U16_RANGE) {
        return Err(InvalidInput);
      }
      EncodeAllSnoc(relatives, relative, 2);
      relatives := relatives + [relative];
      written := written + ToLE(relative, 2);
    }
    assert RelativesFit(locators);
    assert relatives == IndexOf(locators).relativeOffsets;
    return Ok(written);
  }

  /** The degree-and-mode words, written by the last loop of `write_adjacency_index`. */
  method WriteDegreeWords(locators: seq<Locator>) returns (written: seq<u8>)
    requires RelativesFit(locators)
    ensures written == EncodeAll(IndexOf(locators).degreeAndFlags, 2)
  {
    written := [];
    ghost var words := IndexOf(locators).degreeAndFlags;
    for node := 0 to |locators|
      invariant written == EncodeAll(words[..node], 2)
    {
      EncodeAllSnoc(words[..node], words[node], 2);
      assert words[..node + 1] == words[..node] + [words[node]];
      written := written + ToLE(locators[node].degreeAndFlags, 2);
    }
    assert words[..|locators|] == words;
  }

  /** `write_adjacency_index`. */
  method WriteIndex(locators: seq<Locator>) returns (r: Result<seq<u8>>)
    ensures r.Ok? <==> RelativesFit(locators)
    ensures r.Ok? ==> r.value == Serialize(IndexOf(locators))
    ensures r.Err? ==> r.kind == InvalidInput
  {
    var relatives := WriteRelatives(locators);
    if relatives.Err? {
      return Err(relatives.kind);
    }
    var bases := WriteBlockBases(locators);
    var words := WriteDegreeWords(locators);
    return Ok(bases + relatives.value + words);
  }

  /** The three arrays at the head, middle and tail of the section. */
  function Parse(bytes: seq<u8>, count: nat): (index: Index)
    requires |bytes| == SerializedLen(count)
    ensures index.Len() == |index.degreeAndFlags| == count
    ensures |index.blockOffsets| == DivCeil(count, BLOCK_NODES)
  {
    var relative := 8 * DivCeil(count, BLOCK_NODES);
    var metadata := relative + 2 * count;
    Index(Words64(bytes[..relative]), Words16(bytes[relative..metadata]), Words16(bytes[metadata..]))
  }

  function Words64(b: seq<u8>): (vs: seq<u64>)
    ensures |vs| == |b| / 8
  {
    WidthRanges();
    assert forall i :: 0 <= i < |DecodeAll(b, 8)| ==> DecodeAll(b, 8)[i] < U64_RANGE by {
      forall i | 0 <= i < |DecodeAll(b, 8)| ensures DecodeAll(b, 8)[i] < U64_RANGE {
        DecodeAllBound(b, 8, i);
      }
    }
    DecodeAll(b, 8)
  }

  function Words16(b: seq<u8>): (vs: seq<u16>)
    ensures |vs| == |b| / 2
  {
    WidthRanges();
    assert forall i :: 0 <= i < |DecodeAll(b, 2)| ==> DecodeAll(b, 2)[i] < U16_RANGE by {
      forall i | 0 <= i < |DecodeAll(b, 2)| ensures DecodeAll(b, 2)[i] < U16_RANGE {
        DecodeAllBound(b, 2, i);
      }
    }
    DecodeAll(b, 2)
  }

  lemma ParseSerialized(index: Index)
    requires index.Len() == |index.degreeAndFlags|
    requires |index.blockOffsets| == DivCeil(index.Len(), BLOCK_NODES)
    ensures |Serialize(index)| == SerializedLen(index.Len())
    ensures Parse(Serialize(index), index.Len()) == index
  {
    var bytes := Serialize(index);
    var (a, b, c) := (EncodeAll(index.blockOffsets, 8), EncodeAll(index.relativeOffsets, 2), EncodeAll(index.degreeAndFlags, 2));
    assert bytes[..|a|] == a && bytes[|a|..|a| + |b|] == b && bytes[|a| + |b|..] == c;
    WidthRanges();
    DecodeEncodeAll(index.blockOffsets, 8);
    DecodeEncodeAll(index.relativeOffsets, 2);
    DecodeEncodeAll(index.degreeAndFlags, 2);
  }

  lemma SerializeParsed(bytes: seq<u8>, count: nat)
    requires |bytes| == SerializedLen(count)
    ensures Serialize(Parse(bytes, count)) == bytes
  {
    var relative := 8 * DivCeil(count, BLOCK_NODES);
    var metadata := relative + 2 * count;
    EncodeDecodeAll(bytes[..relative], 8);
    EncodeDecodeAll(bytes[relative..metadata], 2);
    EncodeDecodeAll(bytes[metadata..], 2);
    assert bytes == bytes[..relative] + bytes[relative..metadata] + bytes[metadata..];
  }

  // ---------------------------------------------------------------------------
  // Structural validation
  // ---------------------------------------------------------------------------

  /** What `validate_adjacency_index` asks of one locator and its predecessor. */
  predicate FollowsOn(shape: Shape, previous: Locator, here: Locator) {
    && previous.page <= here.page <= previous.page + 1
    && (if here.page != previous.page then here.byteOffset == shape.Prefix()
        else if previous.Mode().DeltaVarint? then
          here.byteOffset >= previous.byteOffset + (if previous.Degree() != 0 then 1 else 0) + shape.Prefix()
        else here.byteOffset == previous.byteOffset + previous.Degree() * 4 + shape.Prefix())
  }

  /** What it asks of a locator by itself. */
  predicate InBounds(shape: Shape, here: Locator) {
    && here.page < shape.PageCount()
    && here.Degree() <= shape.maxDegree
    && shape.Prefix() <= here.byteOffset <= PAGE_SIZE
    && (here.Mode().RawU32? ==> here.byteOffset + here.Degree() * 4 <= PAGE_SIZE)
  }

  predicate NodeAccepted(shape: Shape, index: Index, node: nat)
    requires node < index.Len()
  {
    && (node % BLOCK_NODES == 0 ==> index.relativeOffsets[node] == 0)
    && index.LocatorAt(node).Some?
    && var here := index.LocatorAt(node).value;
    && InBounds(shape, here)
    && (if node == 0 then here.page == 0 && here.byteOffset == shape.Prefix()
        else index.LocatorAt(node - 1).Some? && FollowsOn(shape, index.LocatorAt(node - 1).value, here))
  }

  /** The page of the last node, zero when there is none. */
  function LastPage(index: Index): nat {
    if index.Len() == 0 then 0
    else match index.LocatorAt(index.Len() - 1)
         case Some(last) => last.page
         case None => 0
  }

  /** The indexes that `validate_adjacency_index` accepts. */
  predicate IndexAccepted(shape: Shape, index: Index) {
    && index.Len() == shape.vectorCount == |index.degreeAndFlags|
    && |index.blockOffsets| == DivCeil(index.Len(), BLOCK_NODES)
    && shape.PageCount() < U32_RANGE
    && (forall node :: 0 <= node < index.Len() ==> NodeAccepted(shape, index, node))
    && LastPage(index) + 1 == shape.PageCount()
  }

  /** `validate_adjacency_index`. */
  method ValidateIndex(shape: Shape, index: Index) returns (ok: bool)
    ensures ok <==> IndexAccepted(shape, index)
  {
    if index.Len() != shape.vectorCount || |index.degreeAndFlags| != index.Len()
       || |index.blockOffsets| != DivCeil(index.Len(), BLOCK_NODES)
    {
      return false;
    }
    var pageCount := shape.PageCount();
    if pageCount >= U32_RANGE {
      return false;
    }
    var previous := Locator(0, 0, 0);
    for node := 0 to index.Len()
      invariant forall k :: 0 <= k < node ==> NodeAccepted(shape, index, k)
      invariant node == 0 ==> previous == Locator(0, 0, 0)
      invariant node > 0 ==> index.LocatorAt(node - 1) == Some(previous) && previous.page < pageCount
    {
      if node % BLOCK_NODES == 0 && index.relativeOffsets[node] != 0 {
        assert !NodeAccepted(shape, index, node);
        return false;
      }
      var located := index.LocatorAt(node);
      if located.None? {
        assert !NodeAccepted(shape, index, node);
        return false;
      }
      var here := located.value;
      if here.page >= pageCount || (node == 0 && here.page != 0)
         || here.page < previous.page || here.page > previous.page + (if node != 0 then 1 else 0)
         || here.Degree() > shape.maxDegree
         || here.byteOffset < shape.Prefix() || here.byteOffset > PAGE_SIZE
         || (here.Mode().RawU32? && here.byteOffset + here.Degree() * 4 > PAGE_SIZE)
         || (node == 0 && here.byteOffset != shape.Prefix())
      {
        assert !NodeAccepted(shape, index, node);
        return false;
      }
      if here.page == previous.page {
        if node != 0 {
          match previous.Mode() {
            case DeltaVarint =>
              if here.byteOffset < previous.byteOffset + (if previous.Degree() != 0 then 1 else 0) + shape.Prefix() {
                assert !NodeAccepted(shape, index, node);
                return false;
              }
            case RawU32 =>
              if here.byteOffset != previous.byteOffset + previous.Degree() * 4 + shape.Prefix() {
                assert !NodeAccepted(shape, index, node);
                return false;
              }
          }
        }
      } else if here.byteOffset != shape.Prefix() {
        assert !NodeAccepted(shape, index, node);
        return false;
      }
      assert NodeAccepted(shape, index, node);
      previous := here;
    }
    return previous.page + 1 == pageCount;
  }

  /** `decode_adjacency_index`: accepted bytes are exactly the serialization of an accepted index. */
  method DecodeIndex(shape: Shape, bytes: seq<u8>) returns (r: Result<Index>)
    ensures r.Ok? ==> IndexAccepted(shape, r.value) && bytes == Serialize(r.value)
    ensures r.Err? ==> r.kind == InvalidData
    ensures forall index: Index ::
      (IndexAccepted(shape, index) && bytes == Serialize(index) && shape.indexLength == |bytes|) ==> r == Ok(index)
    ensures r.Ok? ==> shape.indexLength == SerializedLen(shape.vectorCount)
  {
    var expected := SerializedLen(shape.vectorCount);
    forall index: Index | IndexAccepted(shape, index) && bytes == Serialize(index)
      ensures |bytes| == expected && Parse(bytes, shape.vectorCount) == index
    {
      ParseSerialized(index);
    }
    if shape.indexLength != expected || |bytes| != shape.indexLength {
      return Err(InvalidData);
    }
    var index := Parse(bytes, shape.vectorCount);
    SerializeParsed(bytes, shape.vectorCount);
    var ok := ValidateIndex(shape, index);
    if !ok {
      return Err(InvalidData);
    }
    return Ok(index);
  }

  /** What acceptance means for one node: where its list may start and how long it may be. */
  lemma AcceptedIndexIsSound(shape: Shape, index: Index, k: nat)
    requires IndexAccepted(shape, index) && k < index.Len()
    ensures index.LocatorAt(k).Some?
    ensures var here := index.LocatorAt(k).value;
            && here.page < shape.PageCount() && here.Degree() <= shape.maxDegree && shape.Prefix() <= here.byteOffset
            && (here.Mode().RawU32? ==> here.byteOffset + 4 * here.Degree() <= PAGE_SIZE)
            && (k == 0 ==> here.page == 0) && (k + 1 == index.Len() ==> here.page + 1 == shape.PageCount())
    ensures k == 0 ==> index.LocatorAt(k).value.byteOffset == shape.Prefix()
    ensures k > 0 ==> index.LocatorAt(k - 1).Some?
    ensures k > 0 ==>
              var (before, here) := (index.LocatorAt(k - 1).value, index.LocatorAt(k).value);
              || (here.page == before.page + 1 && here.byteOffset == shape.Prefix())
              || (here.page == before.page && before.Mode().RawU32? && here.byteOffset == before.byteOffset + 4 * before.Degree() + shape.Prefix())
              || (here.page == before.page && before.Mode().DeltaVarint?
                  && here.byteOffset >= before.byteOffset + shape.Prefix() + if before.Degree() > 0 then 1 else 0)
  {
    assert NodeAccepted(shape, index, k);
  }

  lemma SliceOfMiddle(a: seq<u8>, b: seq<u8>, c: seq<u8>, at: nat, width: nat)
    requires at + width <= |b|
    ensures (a + b + c)[|a| + at..|a| + at + width] == b[at..at + width]
  {
  }

  /** Item i of an array between other bytes. */
  lemma ItemAt(before: seq<u8>, vs: seq<nat>, width: nat, after: seq<u8>, i: nat, at: nat)
    requires i < |vs| && at == |before| + i * width
    ensures var bytes := before + EncodeAll(vs, width) + after;
            at + width <= |bytes| && bytes[at..at + width] == ToLE(vs[i], width)
  {
    EncodeAllAt(vs, width, i);
    SliceOfMiddle(before, EncodeAll(vs, width), after, i * width, width);
  }

  lemma SliceOfFront(a: seq<u8>, b: seq<u8>, c: seq<u8>, at: nat, width: nat)
    requires at + width <= |a|
    ensures (a + b + c)[at..at + width] == a[at..at + width]
  {
  }

  /** The section begins with the block bases. */
  lemma BaseAt(index: Index, block: nat)
    requires block < |index.blockOffsets|
    ensures 8 * block + 8 <= |Serialize(index)| && Serialize(index)[8 * block..8 * block + 8] == ToLE(index.blockOffsets[block], 8)
  {
    EncodeAllAt(index.blockOffsets, 8, block);
    SliceOfFront(EncodeAll(index.blockOffsets, 8), EncodeAll(index.relativeOffsets, 2), EncodeAll(index.degreeAndFlags, 2), 8 * block, 8);
  }

  /** The relative offsets follow. */
  lemma RelativeAt(index: Index, k: nat)
    requires k < index.Len()
    ensures var at := 8 * |index.blockOffsets| + 2 * k;
            at + 2 <= |Serialize(index)| && Serialize(index)[at..at + 2] == ToLE(index.relativeOffsets[k], 2)
  {
    ItemAt(EncodeAll(index.blockOffsets, 8), index.relativeOffsets, 2, EncodeAll(index.degreeAndFlags, 2), k, 8 * |index.blockOffsets| + 2 * k);
  }

  /** The degree words come last. */
  lemma DegreeWordAt(index: Index, k: nat)
    requires k < |index.degreeAndFlags|
    ensures var at := 8 * |index.blockOffsets| + 2 * index.Len() + 2 * k;
            at + 2 <= |Serialize(index)| && Serialize(index)[at..at + 2] == ToLE(index.degreeAndFlags[k], 2)
  {
    var before := EncodeAll(index.blockOffsets, 8) + EncodeAll(index.relativeOffsets, 2);
    ItemAt(before, index.degreeAndFlags, 2, [], k, |before| + 2 * k);
    assert before + EncodeAll(index.degreeAndFlags, 2) + [] == Serialize(index);
  }
}
