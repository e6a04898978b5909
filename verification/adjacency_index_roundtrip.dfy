/**
 * What the reader makes of an index that the writer planned. A list that starts exactly
 * at the end of its page (an empty list after a full page) is stored as an absolute
 * offset, so the reader sees it at the start of the next page. Whether the index is
 * accepted depends on that case alone.
 */
module AdjacencyIndexRoundTrip {
  import opened Prelude
  import opened AdjacencyList
  import opened AdjacencyLayout
  import opened AdjacencyIndex

  /** A header shape that goes with a planned graph. */
  ghost predicate Describes(shape: Shape, adjacency: seq<seq<u32>>, layout: Layout)
    requires Sortable(adjacency)
  {
    && 0 < |adjacency| < U32_RANGE
    && shape.vectorCount == |adjacency|
    && (forall k :: 0 <= k < |adjacency| ==> |adjacency[k]| <= shape.maxDegree)
    && (shape.interleaved ==> shape.recordSize > 0)
    && FitPages(RecordSizes(adjacency, shape.Prefix()))
    && IsLayout(layout, adjacency, shape.Prefix())
    && shape.adjacencyLength == layout.pageCount * PAGE_SIZE
  }

  /**
   * The layouts a reader can follow. With separate vectors only the last list must start
   * inside its page; with interleaved vectors every list must.
   */
  predicate Readable(shape: Shape, layout: Layout)
    requires |layout.locators| > 0
  {
    if shape.interleaved then forall k :: 0 <= k < |layout.locators| ==> layout.locators[k].byteOffset < PAGE_SIZE
    else layout.locators[|layout.locators| - 1].byteOffset < PAGE_SIZE
  }

  lemma Planned(shape: Shape, adjacency: seq<seq<u32>>, layout: Layout, k: nat)
    requires Sortable(adjacency) && Describes(shape, adjacency, layout) && k < |adjacency|
    ensures IsPlanned(layout.locators[k], adjacency, shape.Prefix(), k)
    ensures RecordSizes(adjacency, shape.Prefix())[k] == shape.Prefix() + |Canonical(adjacency[k])|
    ensures layout.locators[k].byteOffset + |Canonical(adjacency[k])| <= PAGE_SIZE
    ensures layout.locators[k].page < layout.pageCount <= |adjacency|
  {
    var sizes := RecordSizes(adjacency, shape.Prefix());
    AfterInPage(sizes, k);
    var last := |adjacency| - 1;
    AfterInPage(sizes, last);
    StartSpread(sizes, k, last);
    StartSpread(sizes, 0, last);
  }

  /** Sixteen page-contained records span at most fifteen pages, so relative offsets always fit. */
  lemma RelativesAlwaysFit(shape: Shape, adjacency: seq<seq<u32>>, layout: Layout)
    requires Sortable(adjacency) && Describes(shape, adjacency, layout)
    ensures RelativesFit(layout.locators)
    ensures forall k :: 0 <= k < |adjacency| ==> Relative(layout.locators, k) <= 15 * PAGE_SIZE
  {
    forall k | 0 <= k < |adjacency| ensures 0 <= Relative(layout.locators, k) <= 15 * PAGE_SIZE {
      var base := BlockStart(k);
      var sizes := RecordSizes(adjacency, shape.Prefix());
      Planned(shape, adjacency, layout, k);
      Planned(shape, adjacency, layout, base);
      AfterInPage(sizes, k);
      StartSpread(sizes, base, k);
    }
  }

  /** A position as the reader computes it from an absolute offset. */
  lemma Folded(page: nat, offset: nat)
    requires offset <= PAGE_SIZE
    ensures offset < PAGE_SIZE ==> (page * PAGE_SIZE + offset) / PAGE_SIZE == page && (page * PAGE_SIZE + offset) % PAGE_SIZE == offset
    ensures offset == PAGE_SIZE ==> (page * PAGE_SIZE + offset) / PAGE_SIZE == page + 1 && (page * PAGE_SIZE + offset) % PAGE_SIZE == 0
  {
  }

  function ReadBack(locator: Locator): Option<Locator> {
    var absolute := locator.AbsoluteOffset();
    if absolute / PAGE_SIZE >= U32_RANGE then None
    else Some(Locator(absolute / PAGE_SIZE, absolute % PAGE_SIZE, locator.degreeAndFlags))
  }

  lemma LocatorsReadBack(locators: seq<Locator>, k: nat)
    requires RelativesFit(locators) && k < |locators|
    ensures IndexOf(locators).LocatorAt(k) == ReadBack(locators[k])
    ensures k % BLOCK_NODES == 0 ==> IndexOf(locators).relativeOffsets[k] == 0
  {
    var index := IndexOf(locators);
    assert index.relativeOffsets[k] == Relative(locators, k);
    assert index.blockOffsets[k / BLOCK_NODES] == locators[BlockStart(k)].AbsoluteOffset();
  }

  lemma CanonicalSize(ns: seq<u32>)
    requires StrictlyIncreasing(ns)
    ensures Ascending(ns, 0)
    ensures MinimalEncoding(ns).RawU32? ==> |Canonical(ns)| == 4 * |ns|
    ensures |Canonical(ns)| >= |ns| && (ns == [] ==> |Canonical(ns)| == 0 && MinimalEncoding(ns).DeltaVarint?)
  {
    StrictIsAscending(ns, 0);
    CanonicalHoldsDegree(ns);
    CanonicalNeverLonger(ns);
  }

  /** A list at the very end of a page is empty. */
  lemma AtPageEndIsEmpty(shape: Shape, adjacency: seq<seq<u32>>, layout: Layout, k: nat)
    requires Sortable(adjacency) && Describes(shape, adjacency, layout) && k < |adjacency|
    requires layout.locators[k].byteOffset == PAGE_SIZE
    ensures adjacency[k] == []
  {
    Planned(shape, adjacency, layout, k);
    CanonicalSize(adjacency[k]);
  }

  /** The lists that decide readability are not empty: any list when vectors are interleaved, else the last. */
  predicate NoEmptyList(shape: Shape, adjacency: seq<seq<u32>>) {
    forall k :: 0 <= k < |adjacency| && (shape.interleaved || k == |adjacency| - 1) ==> adjacency[k] != []
  }

  /** Graphs without such an empty list are always readable. */
  lemma NonEmptyIsReadable(shape: Shape, adjacency: seq<seq<u32>>, layout: Layout)
    requires Sortable(adjacency) && Describes(shape, adjacency, layout) && NoEmptyList(shape, adjacency)
    ensures Readable(shape, layout)
  {
    forall k | 0 <= k < |adjacency| && (shape.interleaved || k == |adjacency| - 1)
      ensures layout.locators[k].byteOffset < PAGE_SIZE
    {
      Planned(shape, adjacency, layout, k);
      CanonicalSize(adjacency[k]);
    }
  }

  /** Consecutive records, as planned positions, follow on as read positions. */
  lemma StepArithmetic(shape: Shape, previous: Locator, here: Locator, listBytes: nat)
    requires || (here.page == previous.page && here.byteOffset == previous.byteOffset + listBytes + shape.Prefix())
             || (here.page == previous.page + 1 && here.byteOffset == shape.Prefix())
    requires previous.byteOffset + listBytes <= PAGE_SIZE && here.byteOffset <= PAGE_SIZE
    requires previous.Mode().RawU32? ==> listBytes == previous.Degree() * 4
    requires listBytes >= previous.Degree()
    requires shape.interleaved ==> shape.Prefix() > 0 && previous.byteOffset < PAGE_SIZE && here.byteOffset < PAGE_SIZE
    requires ReadBack(previous).Some? && ReadBack(here).Some?
    ensures FollowsOn(shape, ReadBack(previous).value, ReadBack(here).value)
  {
    Folded(previous.page, previous.byteOffset);
    Folded(here.page, here.byteOffset);
  }

  lemma StepAccepted(shape: Shape, adjacency: seq<seq<u32>>, layout: Layout, k: nat)
    requires Sortable(adjacency) && Describes(shape, adjacency, layout) && 0 < k < |adjacency|
    requires Readable(shape, layout)
    requires ReadBack(layout.locators[k - 1]).Some? && ReadBack(layout.locators[k]).Some?
    ensures FollowsOn(shape, ReadBack(layout.locators[k - 1]).value, ReadBack(layout.locators[k]).value)
  {
    Planned(shape, adjacency, layout, k - 1);
    Planned(shape, adjacency, layout, k);
    StartStep(RecordSizes(adjacency, shape.Prefix()), k - 1);
    CanonicalSize(adjacency[k - 1]);
    StepArithmetic(shape, layout.locators[k - 1], layout.locators[k], |Canonical(adjacency[k - 1])|);
  }

  lemma PageInRange(shape: Shape, adjacency: seq<seq<u32>>, layout: Layout, k: nat)
    requires Sortable(adjacency) && Describes(shape, adjacency, layout) && k < |adjacency|
    requires Readable(shape, layout)
    ensures layout.locators[k].AbsoluteOffset() / PAGE_SIZE < layout.pageCount < U32_RANGE
  {
    var last := |adjacency| - 1;
    Planned(shape, adjacency, layout, k);
    Planned(shape, adjacency, layout, last);
    StartSpread(RecordSizes(adjacency, shape.Prefix()), k, last);
    Folded(layout.locators[k].page, layout.locators[k].byteOffset);
  }

  lemma BoundsArithmetic(shape: Shape, locator: Locator, listBytes: nat)
    requires locator.AbsoluteOffset() / PAGE_SIZE < shape.PageCount() < U32_RANGE
    requires shape.Prefix() <= locator.byteOffset && locator.byteOffset + listBytes <= PAGE_SIZE
    requires locator.Degree() <= shape.maxDegree && (shape.interleaved ==> locator.byteOffset < PAGE_SIZE)
    requires locator.Mode().RawU32? ==> listBytes == locator.Degree() * 4
    ensures ReadBack(locator).Some? && InBounds(shape, ReadBack(locator).value)
    ensures locator.page == 0 && locator.byteOffset == shape.Prefix() ==>
              ReadBack(locator).value.page == 0 && ReadBack(locator).value.byteOffset == shape.Prefix()
  {
    Folded(locator.page, locator.byteOffset);
  }

  lemma ReadBackInBounds(shape: Shape, adjacency: seq<seq<u32>>, layout: Layout, k: nat)
    requires Sortable(adjacency) && Describes(shape, adjacency, layout) && k < |adjacency|
    requires Readable(shape, layout)
    ensures ReadBack(layout.locators[k]).Some? && InBounds(shape, ReadBack(layout.locators[k]).value)
    ensures k == 0 ==> ReadBack(layout.locators[k]).value.page == 0 && ReadBack(layout.locators[k]).value.byteOffset == shape.Prefix()
  {
    Planned(shape, adjacency, layout, k);
    PageInRange(shape, adjacency, layout, k);
    CanonicalSize(adjacency[k]);
    BoundsArithmetic(shape, layout.locators[k], |Canonical(adjacency[k])|);
  }

  lemma Located(shape: Shape, adjacency: seq<seq<u32>>, layout: Layout, index: Index, k: nat) returns (here: Locator)
    requires Sortable(adjacency) && Describes(shape, adjacency, layout) && k < |adjacency|
    requires RelativesFit(layout.locators) && Readable(shape, layout) && index == IndexOf(layout.locators)
    ensures index.LocatorAt(k) == Some(here) && ReadBack(layout.locators[k]) == Some(here) && InBounds(shape, here)
    ensures k == 0 ==> here.page == 0 && here.byteOffset == shape.Prefix()
    ensures k % BLOCK_NODES == 0 ==> index.relativeOffsets[k] == 0
  {
    ReadBackInBounds(shape, adjacency, layout, k);
    LocatorsReadBack(layout.locators, k);
    here := ReadBack(layout.locators[k]).value;
  }

  lemma LocatedStep(shape: Shape, adjacency: seq<seq<u32>>, layout: Layout, k: nat, previous: Locator, here: Locator)
    requires Sortable(adjacency) && Describes(shape, adjacency, layout) && 0 < k < |adjacency|
    requires Readable(shape, layout)
    requires ReadBack(layout.locators[k - 1]) == Some(previous) && ReadBack(layout.locators[k]) == Some(here)
    ensures FollowsOn(shape, previous, here)
  {
    StepAccepted(shape, adjacency, layout, k);
  }

  lemma NodeFromLocators(shape: Shape, index: Index, k: nat, here: Locator)
    requires k < index.Len() && (k % BLOCK_NODES == 0 ==> index.relativeOffsets[k] == 0)
    requires index.LocatorAt(k) == Some(here) && InBounds(shape, here)
    requires if k == 0 then here.page == 0 && here.byteOffset == shape.Prefix()
             else index.LocatorAt(k - 1).Some? && FollowsOn(shape, index.LocatorAt(k - 1).value, here)
    ensures NodeAccepted(shape, index, k)
  {
  }

  lemma NodeIsAccepted(shape: Shape, adjacency: seq<seq<u32>>, layout: Layout, index: Index, k: nat)
    requires Sortable(adjacency) && Describes(shape, adjacency, layout) && k < |adjacency|
    requires RelativesFit(layout.locators) && Readable(shape, layout) && index == IndexOf(layout.locators)
    ensures NodeAccepted(shape, index, k)
  {
    var here := Located(shape, adjacency, layout, index, k);
    if k > 0 {
      var previous := Located(shape, adjacency, layout, index, k - 1);
      LocatedStep(shape, adjacency, layout, k, previous, here);
    }
    NodeFromLocators(shape, index, k, here);
  }

  /** The last list of a readable layout is on the last page. */
  lemma LastPageRead(shape: Shape, adjacency: seq<seq<u32>>, layout: Layout, index: Index)
    requires Sortable(adjacency) && Describes(shape, adjacency, layout) && RelativesFit(layout.locators)
    requires index == IndexOf(layout.locators) && Readable(shape, layout)
    ensures LastPage(index) + 1 == shape.PageCount() < U32_RANGE
  {
    var last := |adjacency| - 1;
    Planned(shape, adjacency, layout, last);
    LocatorsReadBack(layout.locators, last);
    Folded(layout.locators[last].page, layout.locators[last].byteOffset);
    LastOnLastPage(shape, adjacency, layout);
  }

  lemma LastOnLastPage(shape: Shape, adjacency: seq<seq<u32>>, layout: Layout)
    requires Sortable(adjacency) && Describes(shape, adjacency, layout)
    ensures layout.locators[|adjacency| - 1].page + 1 == layout.pageCount == shape.PageCount() < U32_RANGE
  {
    Planned(shape, adjacency, layout, |adjacency| - 1);
  }

  lemma ReadableAccepted(shape: Shape, adjacency: seq<seq<u32>>, layout: Layout, index: Index)
    requires Sortable(adjacency) && Describes(shape, adjacency, layout) && RelativesFit(layout.locators)
    requires index == IndexOf(layout.locators) && Readable(shape, layout)
    ensures IndexAccepted(shape, index)
  {
    forall k | 0 <= k < |adjacency|
      ensures NodeAccepted(shape, index, k)
    {
      NodeIsAccepted(shape, adjacency, layout, index, k);
    }
    LastPageRead(shape, adjacency, layout, index);
  }

  /** The reader accepts the planned index exactly when the layout is readable. */
  lemma PlannedIndexAccepted(shape: Shape, adjacency: seq<seq<u32>>, layout: Layout)
    requires Sortable(adjacency) && Describes(shape, adjacency, layout)
    ensures RelativesFit(layout.locators)
    ensures IndexAccepted(shape, IndexOf(layout.locators)) <==> Readable(shape, layout)
  {
    RelativesAlwaysFit(shape, adjacency, layout);
    if Readable(shape, layout) {
      ReadableAccepted(shape, adjacency, layout, IndexOf(layout.locators));
    } else {
      UnreadableRejected(shape, adjacency, layout);
    }
  }

  lemma AtPageEndRejected(shape: Shape, locator: Locator, pageCount: nat)
    requires locator.byteOffset == PAGE_SIZE && shape.PageCount() == pageCount < U32_RANGE
    requires locator.page < pageCount && (shape.interleaved ==> shape.Prefix() > 0)
    requires !shape.interleaved ==> locator.page + 1 == pageCount
    ensures ReadBack(locator).Some? && !InBounds(shape, ReadBack(locator).value)
  {
    Folded(locator.page, locator.byteOffset);
  }

  lemma UnreadableRejected(shape: Shape, adjacency: seq<seq<u32>>, layout: Layout)
    requires Sortable(adjacency) && Describes(shape, adjacency, layout)
    requires RelativesFit(layout.locators) && !Readable(shape, layout)
    ensures !IndexAccepted(shape, IndexOf(layout.locators))
  {
    var k :| 0 <= k < |adjacency| && layout.locators[k].byteOffset >= PAGE_SIZE
             && (!shape.interleaved ==> k == |adjacency| - 1);
    Planned(shape, adjacency, layout, k);
    LocatorsReadBack(layout.locators, k);
    AtPageEndRejected(shape, layout.locators[k], layout.pageCount);
    assert !NodeAccepted(shape, IndexOf(layout.locators), k);
  }
}
