/**
 * Writing a graph and reading it back: when the layout is readable, every written page is
 * accepted and every list decodes, at the offset its stored locator gives, to itself.
 */
module AdjacencyRoundTrip {
  import opened Prelude
  import opened Bytes
  import opened AdjacencyList
  import opened AdjacencyLayout
  import opened AdjacencyIndex
  import opened AdjacencyIndexRoundTrip
  import opened AdjacencyPages
  import opened AdjacencyValidation
  import opened RawVector

  // ---------------------------------------------------------------------------
  // The written section
  // ---------------------------------------------------------------------------

  lemma PrefixTransitive(a: seq<u8>, b: seq<u8>, c: seq<u8>)
    requires a <= b <= c
    ensures a <= c
  {
  }

  lemma SlicesOfPrefix(part: seq<u8>, whole: seq<u8>, from: nat, at: nat, gap: seq<u8>, record: seq<u8>)
    requires part <= whole && from <= at <= |part| && part[from..at] == gap && part[at..] == record
    ensures whole[from..at] == gap && at + |record| <= |whole| && whole[at..at + |record|] == record
  {
    assert whole[from..at] == part[from..at];
    assert whole[at..at + |record|] == part[at..];
  }

  lemma SplitAt(s: seq<u8>, gap: seq<u8>, record: seq<u8>)
    ensures var whole := s + gap + record;
            s <= whole && whole[|s|..|s| + |gap|] == gap && whole[|s| + |gap|..] == record
  {
  }

  /** One more record: the stream so far, zeros up to its start, and the record. */
  lemma StreamStep(records: seq<seq<u8>>, starts: seq<Position>, k: nat)
    requires InOrder(records, starts) && k < |records|
    ensures var (from, at) := (EndOf(records, starts, k).Absolute(), starts[k].Absolute());
            var s := Stream(records, starts, k + 1);
            && Stream(records, starts, k) <= s && from <= at && |s| == at + |records[k]|
            && s[from..at] == Zeros(at - from) && s[at..] == records[k]
  {
    assert Follows(records, starts, k);
    var s := Stream(records, starts, k);
    SplitAt(s, Zeros(starts[k].Absolute() - |s|), records[k]);
  }

  lemma {:induction false} StreamGrows(records: seq<seq<u8>>, starts: seq<Position>, j: nat, k: nat)
    requires InOrder(records, starts) && j <= k <= |records|
    ensures Stream(records, starts, j) <= Stream(records, starts, k)
    decreases k
  {
    if j < k {
      StreamGrows(records, starts, j, k - 1);
      StreamStep(records, starts, k - 1);
      PrefixTransitive(Stream(records, starts, j), Stream(records, starts, k - 1), Stream(records, starts, k));
    }
  }

  lemma StreamInSection(records: seq<seq<u8>>, starts: seq<Position>, k: nat)
    requires InOrder(records, starts) && k <= |records|
    ensures Stream(records, starts, k) <= SectionAt(records, starts)
  {
    StreamGrows(records, starts, k, |records|);
    EndInPage(records, starts, |records|);
    PrefixTransitive(Stream(records, starts, k), Stream(records, starts, |records|), SectionAt(records, starts));
  }

  /** Record `k` is where its position says, after zeros from the end of the one before. */
  lemma RecordInSection(records: seq<seq<u8>>, starts: seq<Position>, k: nat, section: seq<u8>) returns (from: nat, at: nat)
    requires InOrder(records, starts) && k < |records| && section == SectionAt(records, starts)
    ensures from == EndOf(records, starts, k).Absolute() <= at == starts[k].Absolute()
    ensures at + |records[k]| <= |section|
    ensures section[from..at] == Zeros(at - from)
    ensures section[at..at + |records[k]|] == records[k]
  {
    StreamInSection(records, starts, k + 1);
    StreamStep(records, starts, k);
    from, at := EndOf(records, starts, k).Absolute(), starts[k].Absolute();
    SlicesOfPrefix(Stream(records, starts, k + 1), section, from, at, Zeros(at - from), records[k]);
  }

  lemma TailOfSection(records: seq<seq<u8>>, starts: seq<Position>)
    requires InOrder(records, starts)
    ensures var from := EndOf(records, starts, |records|).Absolute();
            from <= |SectionAt(records, starts)| && AllZero(SectionAt(records, starts)[from..])
  {
    EndInPage(records, starts, |records|);
  }

  lemma ZeroWithin(s: seq<u8>, from: nat, to: nat, at: nat)
    requires from <= to <= at <= |s| && AllZero(s[from..at])
    ensures AllZero(s[from..to])
  {
    assert s[from..to] == s[from..at][..to - from];
  }

  /** From the end of record `k - 1` to the start of record `k`, or to the end, all is zero. */
  lemma ZeroAfter(records: seq<seq<u8>>, starts: seq<Position>, section: seq<u8>, k: nat, from: nat, to: nat)
    requires InOrder(records, starts) && k <= |records| && section == SectionAt(records, starts)
    requires EndOf(records, starts, k).Absolute() == from <= to <= |section|
    requires k < |records| ==> to <= starts[k].Absolute()
    ensures AllZero(section[from..to])
  {
    if k < |records| {
      var _, at := RecordInSection(records, starts, k, section);
      ZeroWithin(section, from, to, at);
    } else {
      TailOfSection(records, starts);
      assert section[from..|section|] == section[from..];
      ZeroWithin(section, from, to, |section|);
    }
  }

  // ---------------------------------------------------------------------------
  // A written graph
  // ---------------------------------------------------------------------------

  /** A graph as the builder hands it over, with one encoded vector per node. */
  ghost predicate Written(shape: Shape, adjacency: seq<seq<u32>>, vectors: seq<seq<u8>>, layout: Layout) {
    && Sortable(adjacency)
    && Describes(shape, adjacency, layout)
    && (forall k :: 0 <= k < |adjacency| ==> NeighborsAccepted(adjacency[k], |adjacency|, k))
    && |vectors| == |adjacency| && UniformVectors(vectors, shape.Prefix())
    && (shape.interleaved ==> forall k :: 0 <= k < |vectors| ==> VectorAccepted(vectors[k], shape.element))
    && Readable(shape, layout)
  }

  /** Absolute start of the record of node `k`. */
  ghost function At(shape: Shape, adjacency: seq<seq<u32>>, k: nat): nat
    requires Sortable(adjacency) && k < |adjacency|
  {
    StartOf(RecordSizes(adjacency, shape.Prefix()), k).Absolute()
  }

  lemma StoredArithmetic(locator: Locator, listBytes: nat, prefix: nat)
    requires locator.byteOffset + listBytes <= PAGE_SIZE && ReadBack(locator).Some?
    ensures var here := ReadBack(locator).value;
            && here.page * PAGE_SIZE + here.byteOffset == locator.AbsoluteOffset()
            && locator.AbsoluteOffset() + listBytes <= (here.page + 1) * PAGE_SIZE
  {
    Folded(locator.page, locator.byteOffset);
  }

  /** The locator an index stores for node `k`, against the record it was made for. */
  ghost predicate StoredAt(shape: Shape, adjacency: seq<seq<u32>>, index: Index, k: nat)
    requires Sortable(adjacency) && k < |adjacency|
  {
    && index.LocatorAt(k).Some?
    && var here := index.LocatorAt(k).value;
    && here.page * PAGE_SIZE + here.byteOffset == At(shape, adjacency, k) + shape.Prefix() && shape.Prefix() <= here.byteOffset
    && At(shape, adjacency, k) + shape.Prefix() + |Canonical(adjacency[k])| <= (here.page + 1) * PAGE_SIZE
    && ListMatches(shape, here, k, adjacency[k])
  }

  lemma StoredLocator(shape: Shape, adjacency: seq<seq<u32>>, vectors: seq<seq<u8>>, layout: Layout, index: Index, k: nat)
    requires Written(shape, adjacency, vectors, layout) && k < |adjacency|
    requires RelativesFit(layout.locators) && index == IndexOf(layout.locators)
    ensures StoredAt(shape, adjacency, index, k)
  {
    var here := Located(shape, adjacency, layout, index, k);
    Planned(shape, adjacency, layout, k);
    StrictIsAscending(adjacency[k], 0);
    StoredArithmetic(layout.locators[k], |Canonical(adjacency[k])|, shape.Prefix());
  }

  /** An accepted index that stores where the records of a graph are. */
  ghost predicate Stored(shape: Shape, adjacency: seq<seq<u32>>, vectors: seq<seq<u8>>, index: Index) {
    && Sortable(adjacency) && |vectors| == |adjacency| == index.Len() && UniformVectors(vectors, shape.Prefix())
    && (shape.interleaved ==> forall k :: 0 <= k < |vectors| ==> VectorAccepted(vectors[k], shape.element))
    && FitPages(RecordSizes(adjacency, shape.Prefix())) && IndexAccepted(shape, index)
    && forall k :: 0 <= k < |adjacency| ==> StoredAt(shape, adjacency, index, k)
  }

  lemma WrittenIsStored(shape: Shape, adjacency: seq<seq<u32>>, vectors: seq<seq<u8>>, layout: Layout)
    requires Written(shape, adjacency, vectors, layout)
    ensures RelativesFit(layout.locators) && Stored(shape, adjacency, vectors, IndexOf(layout.locators))
    ensures Lengths(RecordsOf(vectors, adjacency)) == RecordSizes(adjacency, shape.Prefix())
    ensures |Section(RecordsOf(vectors, adjacency))| == layout.pageCount * PAGE_SIZE && shape.PageCount() == layout.pageCount
  {
    PlannedIndexAccepted(shape, adjacency, layout);
    forall k | 0 <= k < |adjacency|
      ensures StoredAt(shape, adjacency, IndexOf(layout.locators), k)
    {
      StoredLocator(shape, adjacency, vectors, layout, IndexOf(layout.locators), k);
    }
    RecordLengths(vectors, adjacency, shape.Prefix());
  }

  /** A node that opens its page has its record at the very start of it. */
  lemma PageOpensAtZero(shape: Shape, adjacency: seq<seq<u32>>, vectors: seq<seq<u8>>, index: Index, k: nat)
    requires Stored(shape, adjacency, vectors, index) && k < |adjacency| && index.LocatorAt(k).Some?
    requires k > 0 ==> index.LocatorAt(k - 1).Some? && index.LocatorAt(k - 1).value.page != index.LocatorAt(k).value.page
    ensures UsedAt(shape, index, k) == 0
  {
    assert NodeAccepted(shape, index, k);
  }

  lemma TouchArithmetic(at: Position, next: Position, size: nat, prefix: nat, page: nat, off: nat, off': nat)
    requires next == Position(at.page, at.offset + size) || next == Position(at.page + 1, 0)
    requires at.offset + size <= PAGE_SIZE && prefix <= size
    requires page * PAGE_SIZE + off == at.Absolute() + prefix && page * PAGE_SIZE + off' == next.Absolute() + prefix
    requires prefix <= off < PAGE_SIZE && prefix <= off' < PAGE_SIZE
    ensures next.Absolute() == at.Absolute() + size
  {
  }

  /** Neighbouring records on one page touch. */
  lemma SamePageTouches(shape: Shape, adjacency: seq<seq<u32>>, vectors: seq<seq<u8>>, index: Index, k: nat)
    requires Stored(shape, adjacency, vectors, index) && k + 1 < |adjacency|
    requires index.LocatorAt(k).Some? && index.LocatorAt(k + 1).Some?
    requires index.LocatorAt(k).value.page == index.LocatorAt(k + 1).value.page
    ensures At(shape, adjacency, k + 1) == At(shape, adjacency, k) + shape.Prefix() + |Canonical(adjacency[k])|
  {
    var sizes := RecordSizes(adjacency, shape.Prefix());
    assert StoredAt(shape, adjacency, index, k) && StoredAt(shape, adjacency, index, k + 1);
    var (here, next) := (index.LocatorAt(k).value, index.LocatorAt(k + 1).value);
    AfterInPage(sizes, k);
    StartStep(sizes, k);
    var (at, at') := (StartOf(sizes, k), StartOf(sizes, k + 1));
    var size := shape.Prefix() + |Canonical(adjacency[k])|;
    assert sizes[k] == size;
    TouchArithmetic(at, at', size, shape.Prefix(), here.page, here.byteOffset, next.byteOffset);
  }

  // ---------------------------------------------------------------------------
  // Its pages
  // ---------------------------------------------------------------------------

  function PageOf(section: seq<u8>, p: nat): (page: seq<u8>)
    requires (p + 1) * PAGE_SIZE <= |section|
    ensures |page| == PAGE_SIZE
  {
    section[p * PAGE_SIZE..(p + 1) * PAGE_SIZE]
  }

  lemma SliceOfSlice(s: seq<u8>, a: nat, b: nat, i: nat, j: nat)
    requires a <= b <= |s| && i <= j <= b - a
    ensures s[a..b][i..j] == s[a + i..a + j]
  {
    var (l, r) := (s[a..b][i..j], s[a + i..a + j]);
    assert |l| == |r|;
    forall n | 0 <= n < |l| ensures l[n] == r[n] {
      assert l[n] == s[a..b][i + n] == s[a + i + n] == r[n];
    }
  }

  lemma SliceOfPage(section: seq<u8>, p: nat, from: nat, to: nat)
    requires (p + 1) * PAGE_SIZE <= |section| && p * PAGE_SIZE <= from <= to <= (p + 1) * PAGE_SIZE
    ensures PageOf(section, p)[from - p * PAGE_SIZE..to - p * PAGE_SIZE] == section[from..to]
  {
    SliceOfSlice(section, p * PAGE_SIZE, (p + 1) * PAGE_SIZE, from - p * PAGE_SIZE, to - p * PAGE_SIZE);
  }

  /** A stored graph and its section, and the nodes of one of its pages. */
  ghost predicate WrittenPage(shape: Shape, adjacency: seq<seq<u32>>, vectors: seq<seq<u8>>, index: Index,
                              section: seq<u8>, p: nat, first: nat, end: nat)
  {
    && Stored(shape, adjacency, vectors, index)
    && Lengths(RecordsOf(vectors, adjacency)) == RecordSizes(adjacency, shape.Prefix())
    && section == Section(RecordsOf(vectors, adjacency))
    && (p + 1) * PAGE_SIZE <= |section|
    && OnPage(index, first, end, p) && first < end
  }

  lemma WrittenRecordHeld(shape: Shape, adjacency: seq<seq<u32>>, vectors: seq<seq<u8>>, index: Index,
                          section: seq<u8>, p: nat, first: nat, end: nat, k: nat) returns (used: nat)
    requires WrittenPage(shape, adjacency, vectors, index, section, p, first, end) && first <= k < end
    ensures p * PAGE_SIZE + used == At(shape, adjacency, k) && used == UsedAt(shape, index, k)
    ensures RecordHeld(shape, index, PageOf(section, p), k, used, vectors[k], adjacency[k])
    ensures |Record(vectors[k], adjacency[k])| == shape.Prefix() + |Canonical(adjacency[k])| <= PAGE_SIZE - used
  {
    assert StoredAt(shape, adjacency, index, k);
    used := At(shape, adjacency, k) - p * PAGE_SIZE;
    var records := RecordsOf(vectors, adjacency);
    PlannedInOrder(records);
    var from, at := RecordInSection(records, PlannedStarts(records), k, section);
    SliceOfPage(section, p, at, at + |records[k]|);
    assert records[k] == Record(vectors[k], adjacency[k]);
  }

  lemma NextPageStart(shape: Shape, adjacency: seq<seq<u32>>, vectors: seq<seq<u8>>, index: Index, p: nat, first: nat, end: nat)
    requires Stored(shape, adjacency, vectors, index) && OnPage(index, first, end, p) && first < end < |adjacency|
    ensures (p + 1) * PAGE_SIZE <= At(shape, adjacency, end)
  {
    assert StoredAt(shape, adjacency, index, end);
    PagesMonotone(shape, index, end - 1, end);
    assert index.LocatorAt(end - 1).value.page == p && index.LocatorAt(end).value.page != p;
    assert NodeAccepted(shape, index, end);
  }

  /** From the end of a record to the end of a page that the next record does not reach back into. */
  lemma SectionTail(records: seq<seq<u8>>, starts: seq<Position>, section: seq<u8>, end: nat, p: nat, used: nat)
    requires InOrder(records, starts) && section == SectionAt(records, starts) && end <= |records|
    requires EndOf(records, starts, end).Absolute() == p * PAGE_SIZE + used && used <= PAGE_SIZE && (p + 1) * PAGE_SIZE <= |section|
    requires end < |records| ==> (p + 1) * PAGE_SIZE <= starts[end].Absolute()
    ensures AllZero(PageOf(section, p)[used..])
  {
    var (from, to) := (p * PAGE_SIZE + used, (p + 1) * PAGE_SIZE);
    ZeroAfter(records, starts, section, end, from, to);
    SliceOfPage(section, p, from, to);
    assert PageOf(section, p)[used..] == PageOf(section, p)[used..PAGE_SIZE];
  }

  lemma EndOfRecord(adjacency: seq<seq<u32>>, vectors: seq<seq<u8>>, prefix: nat, records: seq<seq<u8>>, k: nat)
    requires Sortable(adjacency) && |vectors| == |adjacency| && UniformVectors(vectors, prefix) && k < |adjacency|
    requires records == RecordsOf(vectors, adjacency) && Lengths(records) == RecordSizes(adjacency, prefix)
    ensures EndOf(records, PlannedStarts(records), k + 1).Absolute() ==
            StartOf(RecordSizes(adjacency, prefix), k).Absolute() + prefix + |Canonical(adjacency[k])|
  {
    assert |records[k]| == prefix + |Canonical(adjacency[k])|;
  }

  lemma PageTailZero(shape: Shape, adjacency: seq<seq<u32>>, vectors: seq<seq<u8>>, index: Index,
                     section: seq<u8>, p: nat, first: nat, end: nat, used: nat)
    requires WrittenPage(shape, adjacency, vectors, index, section, p, first, end) && used <= PAGE_SIZE
    requires p * PAGE_SIZE + used == At(shape, adjacency, end - 1) + shape.Prefix() + |Canonical(adjacency[end - 1])|
    ensures AllZero(PageOf(section, p)[used..])
  {
    if end < |adjacency| {
      NextPageStart(shape, adjacency, vectors, index, p, first, end);
    }
    var records := RecordsOf(vectors, adjacency);
    PlannedInOrder(records);
    EndOfRecord(adjacency, vectors, shape.Prefix(), records, end - 1);
    SectionTail(records, PlannedStarts(records), section, end, p, used);
  }

  /** On one page the next record is right behind. */
  lemma NextUsed(shape: Shape, adjacency: seq<seq<u32>>, vectors: seq<seq<u8>>, index: Index, p: nat, first: nat, end: nat, k: nat)
    requires Stored(shape, adjacency, vectors, index) && OnPage(index, first, end, p) && first <= k && k + 1 < end
    ensures UsedAt(shape, index, k + 1) == UsedAt(shape, index, k) + shape.Prefix() + |Canonical(adjacency[k])|
  {
    SamePageTouches(shape, adjacency, vectors, index, k);
    assert StoredAt(shape, adjacency, index, k) && StoredAt(shape, adjacency, index, k + 1);
  }

  lemma NodeHeldFrom(shape: Shape, index: Index, page: seq<u8>, end: nat, k: nat, used: nat, next: nat, vector: seq<u8>, ns: seq<u32>)
    requires |page| == PAGE_SIZE && used == UsedAt(shape, index, k) && RecordHeld(shape, index, page, k, used, vector, ns)
    requires next == used + |Record(vector, ns)| <= PAGE_SIZE
    requires if k + 1 == end then AllZero(page[next..]) else UsedAt(shape, index, k + 1) == next
    ensures NodeHeld(shape, index, page, end, k, vector, ns)
  {
  }

  lemma WrittenNode(shape: Shape, adjacency: seq<seq<u32>>, vectors: seq<seq<u8>>, index: Index,
                    section: seq<u8>, p: nat, first: nat, end: nat, k: nat)
    requires WrittenPage(shape, adjacency, vectors, index, section, p, first, end) && first <= k < end
    ensures NodeHeld(shape, index, PageOf(section, p), end, k, vectors[k], adjacency[k])
  {
    var used := WrittenRecordHeld(shape, adjacency, vectors, index, section, p, first, end, k);
    var next: nat := used + shape.Prefix() + |Canonical(adjacency[k])|;
    if k + 1 == end {
      PageTailZero(shape, adjacency, vectors, index, section, p, first, end, next);
    } else {
      NextUsed(shape, adjacency, vectors, index, p, first, end, k);
    }
    NodeHeldFrom(shape, index, PageOf(section, p), end, k, used, next, vectors[k], adjacency[k]);
  }

  lemma WrittenNodes(shape: Shape, adjacency: seq<seq<u32>>, vectors: seq<seq<u8>>, index: Index,
                     section: seq<u8>, p: nat, first: nat, end: nat)
    requires WrittenPage(shape, adjacency, vectors, index, section, p, first, end)
    ensures NodesHeld(shape, index, PageOf(section, p), first, end, vectors, adjacency)
  {
    forall k | first <= k < end
      ensures NodeHeld(shape, index, PageOf(section, p), end, k, vectors[k], adjacency[k])
    {
      WrittenNode(shape, adjacency, vectors, index, section, p, first, end, k);
    }
  }

  /** The first node on the page of node `k`. */
  lemma {:induction false} FirstOnPage(shape: Shape, index: Index, p: nat, k: nat) returns (first: nat)
    requires IndexAccepted(shape, index) && k < index.Len() && index.LocatorAt(k).Some? && index.LocatorAt(k).value.page == p
    ensures first <= k && index.LocatorAt(first).Some? && index.LocatorAt(first).value.page == p
    ensures first > 0 ==> index.LocatorAt(first - 1).Some? && index.LocatorAt(first - 1).value.page < p
  {
    first := k;
    if k > 0 {
      PagesMonotone(shape, index, k - 1, k);
      if index.LocatorAt(k - 1).value.page == p {
        first := FirstOnPage(shape, index, p, k - 1);
      }
    }
  }

  /** The end of the nodes on the page of node `k`. */
  lemma {:induction false} EndOnPage(shape: Shape, index: Index, p: nat, k: nat) returns (end: nat)
    requires IndexAccepted(shape, index) && k < index.Len() && index.LocatorAt(k).Some? && index.LocatorAt(k).value.page == p
    ensures k < end <= index.Len() && index.LocatorAt(end - 1).Some? && index.LocatorAt(end - 1).value.page == p
    ensures end < index.Len() ==> index.LocatorAt(end).Some? && index.LocatorAt(end).value.page > p
    decreases index.Len() - k
  {
    end := k + 1;
    if end < index.Len() {
      PagesMonotone(shape, index, k, end);
      if index.LocatorAt(end).value.page == p {
        end := EndOnPage(shape, index, p, end);
      }
    }
  }

  /** The nodes of a page of an accepted index. */
  lemma NodesOfPage(shape: Shape, index: Index, p: nat) returns (first: nat, end: nat)
    requires IndexAccepted(shape, index) && index.Len() > 0 && p < shape.PageCount()
    ensures OnPage(index, first, end, p) && first < end
    ensures first > 0 ==> index.LocatorAt(first - 1).value.page != p
  {
    var last := index.Len() - 1;
    assert NodeAccepted(shape, index, last);
    var k := EveryPageIndexed(shape, index, p, last);
    first := FirstOnPage(shape, index, p, k);
    end := EndOnPage(shape, index, p, k);
    forall i | 0 <= i < index.Len()
      ensures index.LocatorAt(i).Some? && (index.LocatorAt(i).value.page == p <==> first <= i < end)
    {
      PageOfNode(shape, index, p, first, end, i);
    }
  }

  lemma PageOfNode(shape: Shape, index: Index, p: nat, first: nat, end: nat, i: nat)
    requires IndexAccepted(shape, index) && i < index.Len() && first < end <= index.Len()
    requires index.LocatorAt(first).Some? && index.LocatorAt(first).value.page == p
    requires index.LocatorAt(end - 1).Some? && index.LocatorAt(end - 1).value.page == p
    requires first > 0 ==> index.LocatorAt(first - 1).Some? && index.LocatorAt(first - 1).value.page < p
    requires end < index.Len() ==> index.LocatorAt(end).Some? && index.LocatorAt(end).value.page > p
    ensures index.LocatorAt(i).Some? && (index.LocatorAt(i).value.page == p <==> first <= i < end)
  {
    if i < first {
      PagesMonotone(shape, index, i, first - 1);
    } else if i >= end {
      PagesMonotone(shape, index, end, i);
    } else {
      PagesMonotone(shape, index, first, i);
      PagesMonotone(shape, index, i, end - 1);
    }
  }

  /**
   * Every page of a written graph is accepted, and the lists decoded from it are the lists
   * of its nodes.
   */
  lemma WrittenPageAccepted(shape: Shape, adjacency: seq<seq<u32>>, vectors: seq<seq<u8>>, layout: Layout, p: nat)
    returns (first: nat, end: nat)
    requires Written(shape, adjacency, vectors, layout) && p < layout.pageCount
    ensures Lengths(RecordsOf(vectors, adjacency)) == RecordSizes(adjacency, shape.Prefix())
    ensures |Section(RecordsOf(vectors, adjacency))| == layout.pageCount * PAGE_SIZE
    ensures RelativesFit(layout.locators) && IndexAccepted(shape, IndexOf(layout.locators))
    ensures OnPage(IndexOf(layout.locators), first, end, p) && first < end
    ensures PageAccepted(shape, IndexOf(layout.locators), p, PageOf(Section(RecordsOf(vectors, adjacency)), p))
    ensures CheckRecords(shape, IndexOf(layout.locators), PageOf(Section(RecordsOf(vectors, adjacency)), p), first, end, 0)
            == Ok(adjacency[first..end])
  {
    WrittenIsStored(shape, adjacency, vectors, layout);
    first, end := StoredPageAccepted(shape, adjacency, vectors, IndexOf(layout.locators), Section(RecordsOf(vectors, adjacency)), p);
  }

  lemma StoredPageAccepted(shape: Shape, adjacency: seq<seq<u32>>, vectors: seq<seq<u8>>, index: Index, section: seq<u8>, p: nat)
    returns (first: nat, end: nat)
    requires Stored(shape, adjacency, vectors, index) && index.Len() > 0 && p < shape.PageCount()
    requires Lengths(RecordsOf(vectors, adjacency)) == RecordSizes(adjacency, shape.Prefix())
    requires section == Section(RecordsOf(vectors, adjacency)) && (p + 1) * PAGE_SIZE <= |section|
    ensures OnPage(index, first, end, p) && first < end && PageAccepted(shape, index, p, PageOf(section, p))
    ensures CheckRecords(shape, index, PageOf(section, p), first, end, 0) == Ok(adjacency[first..end])
  {
    first, end := NodesOfPage(shape, index, p);
    PageOpensAtZero(shape, adjacency, vectors, index, first);
    WrittenNodes(shape, adjacency, vectors, index, section, p, first, end);
    NodesHold(shape, index, PageOf(section, p), first, end, 0, vectors, adjacency);
    HoldingPageAccepted(shape, index, p, first, end, PageOf(section, p), vectors[first..end], adjacency[first..end]);
  }

  /** A node's list, decoded at its stored locator from the page that holds it, is the list written. */
  lemma WrittenListDecodes(shape: Shape, adjacency: seq<seq<u32>>, vectors: seq<seq<u8>>, layout: Layout, k: nat)
    returns (here: Locator)
    requires Written(shape, adjacency, vectors, layout) && k < |adjacency|
    ensures Lengths(RecordsOf(vectors, adjacency)) == RecordSizes(adjacency, shape.Prefix())
    ensures RelativesFit(layout.locators) && IndexOf(layout.locators).LocatorAt(k) == Some(here)
    ensures here.page < layout.pageCount && |Section(RecordsOf(vectors, adjacency))| == layout.pageCount * PAGE_SIZE
    ensures Decode(PageOf(Section(RecordsOf(vectors, adjacency)), here.page)[here.byteOffset..], here.Degree(), here.Mode())
            == Ok((adjacency[k], |Canonical(adjacency[k])|))
  {
    WrittenIsStored(shape, adjacency, vectors, layout);
    here := StoredListDecodes(shape, adjacency, vectors, IndexOf(layout.locators), Section(RecordsOf(vectors, adjacency)), k);
  }

  lemma StoredListDecodes(shape: Shape, adjacency: seq<seq<u32>>, vectors: seq<seq<u8>>, index: Index, section: seq<u8>, k: nat)
    returns (here: Locator)
    requires Stored(shape, adjacency, vectors, index) && k < |adjacency| && shape.PageCount() * PAGE_SIZE == |section|
    requires Lengths(RecordsOf(vectors, adjacency)) == RecordSizes(adjacency, shape.Prefix())
    requires section == Section(RecordsOf(vectors, adjacency))
    ensures index.LocatorAt(k) == Some(here) && here.page < shape.PageCount()
    ensures Decode(PageOf(section, here.page)[here.byteOffset..], here.Degree(), here.Mode()) == Ok((adjacency[k], |Canonical(adjacency[k])|))
  {
    assert NodeAccepted(shape, index, k);
    here := index.LocatorAt(k).value;
    var first, end := NodesOfPage(shape, index, here.page);
    var used := WrittenRecordHeld(shape, adjacency, vectors, index, section, here.page, first, end, k);
    HeldListDecodes(shape, index, PageOf(section, here.page), k, used, vectors[k], adjacency[k], here);
  }

  lemma HeldListDecodes(shape: Shape, index: Index, page: seq<u8>, k: nat, used: nat, vector: seq<u8>, ns: seq<u32>, here: Locator)
    requires |page| == PAGE_SIZE && RecordHeld(shape, index, page, k, used, vector, ns) && index.LocatorAt(k) == Some(here)
    ensures here.byteOffset <= PAGE_SIZE
    ensures Decode(page[here.byteOffset..], here.Degree(), here.Mode()) == Ok((ns, |Canonical(ns)|))
  {
    SplitRecord(page, used, vector, Canonical(ns));
    DecodeWritten(ns, here.Mode(), page[here.byteOffset + |Canonical(ns)|..]);
  }
}
