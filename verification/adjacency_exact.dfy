/**
 * What an accepted adjacency section is: if every page passes validation, the section is, byte
 * for byte, what the writer emits for the lists decoded from it at the locators of the index.
 */
module AdjacencyExact {
  import opened Prelude
  import opened Bytes
  import opened AdjacencyList
  import opened AdjacencyLayout
  import opened AdjacencyIndex
  import opened AdjacencyPages
  import opened AdjacencyRoundTrip
  import opened AdjacencyValidation
  import opened RawVector

  // ---------------------------------------------------------------------------
  // Records that tile a section
  // ---------------------------------------------------------------------------

  /**
   * Record `k` is at its start. The next one follows right behind it, or opens the next page
   * after zeros; behind the last one there are only zeros.
   */
  ghost predicate Tiles(section: seq<u8>, records: seq<seq<u8>>, starts: seq<Position>, k: nat)
    requires k < |records| == |starts|
  {
    var (start, size) := (starts[k], |records[k]|);
    var (end, pageEnd) := (start.Absolute() + size, (start.page + 1) * PAGE_SIZE);
    && start.offset + size <= PAGE_SIZE && pageEnd <= |section|
    && section[start.Absolute()..end] == records[k]
    && if k + 1 < |records| then
         || starts[k + 1] == Position(start.page, start.offset + size)
         || (starts[k + 1] == Position(start.page + 1, 0) && AllZero(section[end..pageEnd]))
       else |section| == pageEnd && AllZero(section[end..])
  }

  ghost predicate Tiled(section: seq<u8>, records: seq<seq<u8>>, starts: seq<Position>) {
    && 0 < |records| == |starts| && starts[0] == Position(0, 0)
    && forall k :: 0 <= k < |records| ==> Tiles(section, records, starts, k)
  }

  lemma TiledInOrder(section: seq<u8>, records: seq<seq<u8>>, starts: seq<Position>)
    requires Tiled(section, records, starts)
    ensures InOrder(records, starts)
  {
    forall k | 0 <= k < |records|
      ensures Follows(records, starts, k)
    {
      assert Tiles(section, records, starts, k);
      assert k > 0 ==> Tiles(section, records, starts, k - 1);
    }
  }

  lemma AppendSlices(section: seq<u8>, from: nat, at: nat, record: seq<u8>)
    requires from <= at && at + |record| <= |section| && AllZero(section[from..at]) && section[at..at + |record|] == record
    ensures section[..from] + Zeros(at - from) + record == section[..at + |record|]
  {
    assert section[from..at] == Zeros(at - from);
    assert section[..at] == section[..from] + section[from..at];
    assert section[..at + |record|] == section[..at] + section[at..at + |record|];
  }

  /** The bytes before record `k` are zero back to the end of record `k - 1`. */
  lemma TiledGap(section: seq<u8>, records: seq<seq<u8>>, starts: seq<Position>, k: nat)
    requires Tiled(section, records, starts) && InOrder(records, starts) && k < |records|
    ensures EndOf(records, starts, k).Absolute() <= starts[k].Absolute() <= |section|
    ensures AllZero(section[EndOf(records, starts, k).Absolute()..starts[k].Absolute()])
  {
    assert Tiles(section, records, starts, k) && Follows(records, starts, k);
    if k > 0 {
      assert Tiles(section, records, starts, k - 1);
    }
  }

  lemma {:induction false} TiledStream(section: seq<u8>, records: seq<seq<u8>>, starts: seq<Position>, k: nat)
    requires Tiled(section, records, starts) && InOrder(records, starts) && k <= |records|
    ensures EndOf(records, starts, k).Absolute() <= |section|
    ensures Stream(records, starts, k) == section[..EndOf(records, starts, k).Absolute()]
  {
    if k > 0 {
      TiledStream(section, records, starts, k - 1);
      TiledGap(section, records, starts, k - 1);
      assert Tiles(section, records, starts, k - 1);
      AppendSlices(section, EndOf(records, starts, k - 1).Absolute(), starts[k - 1].Absolute(), records[k - 1]);
    }
  }

  /** A section tiled by records is the section the writer's specification gives for them. */
  lemma TiledIsSection(section: seq<u8>, records: seq<seq<u8>>, starts: seq<Position>)
    requires Tiled(section, records, starts)
    ensures InOrder(records, starts) && section == SectionAt(records, starts)
  {
    TiledInOrder(section, records, starts);
    TiledStream(section, records, starts, |records|);
    assert Tiles(section, records, starts, |records| - 1);
    var end := EndOf(records, starts, |records|).Absolute();
    assert section == section[..end] + section[end..];
    assert section[end..] == Zeros(|section| - end);
  }

  // ---------------------------------------------------------------------------
  // Accepted pages
  // ---------------------------------------------------------------------------

  /** Every page of the section passes. */
  ghost predicate PagesAccepted(shape: Shape, index: Index, section: seq<u8>) {
    && |section| == shape.PageCount() * PAGE_SIZE
    && forall p :: 0 <= p < shape.PageCount() ==> PageAccepted(shape, index, p, Page(section, p))
  }

  /** The bytes of a page, none when the section is shorter. */
  function Page(section: seq<u8>, p: nat): (page: seq<u8>)
    ensures (p + 1) * PAGE_SIZE <= |section| ==> page == PageOf(section, p)
  {
    if (p + 1) * PAGE_SIZE <= |section| then PageOf(section, p) else []
  }

  /** The vector in front of a list, and the list, as a reader takes them from a page. */
  function VectorOn(shape: Shape, index: Index, page: seq<u8>, k: nat): seq<u8> {
    var used := UsedAt(shape, index, k);
    if 0 <= used && used + shape.Prefix() <= |page| then page[used..used + shape.Prefix()] else []
  }

  function ListOn(index: Index, page: seq<u8>, k: nat): seq<u32> {
    match index.LocatorAt(k)
    case None => []
    case Some(here) =>
      if here.byteOffset > |page| then [] else
      match Decode(page[here.byteOffset..], here.Degree(), here.Mode())
      case Ok((ns, _)) => ns
      case Err(_) => []
  }

  lemma HeldRecordRead(shape: Shape, index: Index, page: seq<u8>, k: nat, used: nat, vector: seq<u8>, ns: seq<u32>)
    requires |page| == PAGE_SIZE && RecordHeld(shape, index, page, k, used, vector, ns)
    ensures VectorOn(shape, index, page, k) == vector && ListOn(index, page, k) == ns
  {
    SplitRecord(page, used, vector, Canonical(ns));
    HeldListDecodes(shape, index, page, k, used, vector, ns, index.LocatorAt(k).value);
  }

  /** The vector in front of a list is read back from a written section. */
  lemma StoredVectorReads(shape: Shape, adjacency: seq<seq<u32>>, vectors: seq<seq<u8>>, index: Index, section: seq<u8>, k: nat)
    requires Stored(shape, adjacency, vectors, index) && k < |adjacency| && shape.PageCount() * PAGE_SIZE == |section|
    requires Lengths(RecordsOf(vectors, adjacency)) == RecordSizes(adjacency, shape.Prefix())
    requires section == Section(RecordsOf(vectors, adjacency))
    ensures VectorOn(shape, index, Page(section, StartAt(shape, index, k).page), k) == vectors[k]
  {
    assert NodeAccepted(shape, index, k);
    var p := index.LocatorAt(k).value.page;
    var first, end := NodesOfPage(shape, index, p);
    var used := WrittenRecordHeld(shape, adjacency, vectors, index, section, p, first, end, k);
    HeldRecordRead(shape, index, PageOf(section, p), k, used, vectors[k], adjacency[k]);
  }

  /** What a page holds, it holds node by node. */
  lemma {:induction false} HeldNode(shape: Shape, index: Index, page: seq<u8>, node: nat, end: nat, used: nat,
                                    vectors: seq<seq<u8>>, lists: seq<seq<u32>>, k: nat)
    requires |page| == PAGE_SIZE && node <= k < end && used <= PAGE_SIZE
    requires Holds(shape, index, page, node, end, used, vectors, lists)
    ensures NodeHeld(shape, index, page, end, k, VectorOn(shape, index, page, k), ListOn(index, page, k))
    decreases end - node
  {
    var next := used + |Record(vectors[0], lists[0])|;
    if node < k {
      HeldNode(shape, index, page, node + 1, end, next, vectors[1..], lists[1..], k);
    } else {
      HeldRecordRead(shape, index, page, k, used, vectors[0], lists[0]);
      assert k + 1 < end ==> RecordHeld(shape, index, page, k + 1, next, vectors[1..][0], lists[1..][0]);
    }
  }

  // ---------------------------------------------------------------------------
  // Records at the locators of an index
  // ---------------------------------------------------------------------------

  /** Where the locator of a node says its record starts. */
  function StartAt(shape: Shape, index: Index, k: nat): Position {
    if UsedAt(shape, index, k) < 0 then Position(0, 0)
    else Position(index.LocatorAt(k).value.page, UsedAt(shape, index, k))
  }

  function Starts(shape: Shape, index: Index): (starts: seq<Position>)
    ensures |starts| == index.Len()
  {
    seq(index.Len(), k requires 0 <= k < index.Len() => StartAt(shape, index, k))
  }

  /** A vector and a list that the locator of node `k` can describe, leaving no gap before the next record of the page. */
  ghost predicate FitsAt(shape: Shape, index: Index, k: nat, vector: seq<u8>, ns: seq<u32>) {
    && UsedAt(shape, index, k) >= 0 && ListMatches(shape, index.LocatorAt(k).value, k, ns)
    && |vector| == shape.Prefix() && (shape.interleaved ==> VectorAccepted(vector, shape.element))
    && StartAt(shape, index, k).offset + |Record(vector, ns)| <= PAGE_SIZE
    && (k + 1 < index.Len() && StartAt(shape, index, k + 1).page == StartAt(shape, index, k).page ==>
          StartAt(shape, index, k + 1).offset == StartAt(shape, index, k).offset + |Record(vector, ns)|)
  }

  ghost predicate Fits(shape: Shape, index: Index, vectors: seq<seq<u8>>, lists: seq<seq<u32>>) {
    && |vectors| == |lists| == index.Len()
    && forall k :: 0 <= k < |lists| ==> FitsAt(shape, index, k, vectors[k], lists[k])
  }

  lemma FitsSortable(shape: Shape, index: Index, vectors: seq<seq<u8>>, lists: seq<seq<u32>>)
    requires Fits(shape, index, vectors, lists)
    ensures Sortable(lists)
  {
    forall k | 0 <= k < |lists|
      ensures StrictlyIncreasing(lists[k])
    {
      assert FitsAt(shape, index, k, vectors[k], lists[k]);
    }
  }

  /** What one start says about the next, in an accepted index. */
  lemma NextStart(shape: Shape, index: Index, k: nat)
    requires IndexAccepted(shape, index) && k < index.Len()
    ensures UsedAt(shape, index, k) >= 0 && StartAt(shape, index, k).page < shape.PageCount()
    ensures k == 0 ==> StartAt(shape, index, k) == Position(0, 0)
    ensures k + 1 < index.Len() ==>
              var (here, next) := (StartAt(shape, index, k), StartAt(shape, index, k + 1));
              next.page == here.page || next == Position(here.page + 1, 0)
    ensures k + 1 == index.Len() ==> StartAt(shape, index, k).page + 1 == shape.PageCount()
  {
    assert NodeAccepted(shape, index, k);
    assert k + 1 < index.Len() ==> NodeAccepted(shape, index, k + 1);
  }

  /** The section that the writer's specification gives for vectors and lists at the locators of an index. */
  ghost predicate WrittenAt(shape: Shape, index: Index, section: seq<u8>, vectors: seq<seq<u8>>, lists: seq<seq<u32>>) {
    && Fits(shape, index, vectors, lists) && Sortable(lists)
    && InOrder(RecordsOf(vectors, lists), Starts(shape, index))
    && section == SectionAt(RecordsOf(vectors, lists), Starts(shape, index))
  }

  // ---------------------------------------------------------------------------
  // Accepted sections are written sections
  // ---------------------------------------------------------------------------

  /** The page of a node, and what it holds for it. */
  lemma AcceptedNode(shape: Shape, index: Index, section: seq<u8>, k: nat) returns (p: nat, first: nat, end: nat)
    requires IndexAccepted(shape, index) && PagesAccepted(shape, index, section) && k < index.Len()
    ensures p == StartAt(shape, index, k).page < shape.PageCount() && OnPage(index, first, end, p) && first <= k < end
    ensures NodeHeld(shape, index, Page(section, p), end, k,
                     VectorOn(shape, index, Page(section, p), k), ListOn(index, Page(section, p), k))
  {
    NextStart(shape, index, k);
    p := StartAt(shape, index, k).page;
    first, end := NodesOfPage(shape, index, p);
    assert PageAccepted(shape, index, p, Page(section, p));
    var vectors, lists := AcceptedPageHolds(shape, index, p, first, end, Page(section, p));
    HeldNode(shape, index, Page(section, p), first, end, 0, vectors, lists, k);
  }

  function VectorsOf(shape: Shape, index: Index, section: seq<u8>): (vectors: seq<seq<u8>>)
    ensures |vectors| == index.Len()
  {
    seq(index.Len(), k requires 0 <= k < index.Len() =>
      VectorOn(shape, index, Page(section, StartAt(shape, index, k).page), k))
  }

  function ListsOf(shape: Shape, index: Index, section: seq<u8>): (lists: seq<seq<u32>>)
    ensures |lists| == index.Len()
  {
    seq(index.Len(), k requires 0 <= k < index.Len() => ListOn(index, Page(section, StartAt(shape, index, k).page), k))
  }

  /** A held record fits its locator, and tiles the section. */
  lemma HeldFits(shape: Shape, index: Index, page: seq<u8>, p: nat, first: nat, end: nat, k: nat, vector: seq<u8>, ns: seq<u32>)
    requires IndexAccepted(shape, index) && OnPage(index, first, end, p) && first <= k < end
    requires p == StartAt(shape, index, k).page && NodeHeld(shape, index, page, end, k, vector, ns)
    ensures FitsAt(shape, index, k, vector, ns)
    ensures k + 1 < index.Len() ==> (StartAt(shape, index, k + 1).page == p <==> k + 1 < end)
  {
    NextStart(shape, index, k);
    if k + 1 < index.Len() {
      NextStart(shape, index, k + 1);
    }
  }

  lemma AcceptedFits(shape: Shape, index: Index, section: seq<u8>)
    requires IndexAccepted(shape, index) && PagesAccepted(shape, index, section)
    ensures Fits(shape, index, VectorsOf(shape, index, section), ListsOf(shape, index, section))
  {
    forall k | 0 <= k < index.Len()
      ensures FitsAt(shape, index, k, VectorsOf(shape, index, section)[k], ListsOf(shape, index, section)[k])
    {
      var p, first, end := AcceptedNode(shape, index, section, k);
      HeldFits(shape, index, Page(section, p), p, first, end, k, VectorOn(shape, index, Page(section, p), k), ListOn(index, Page(section, p), k));
    }
  }

  /** A record held on a page, and the zeros behind the last one, in the whole section. */
  lemma HeldInSection(section: seq<u8>, p: nat, used: nat, record: seq<u8>, last: bool)
    requires (p + 1) * PAGE_SIZE <= |section| && used + |record| <= PAGE_SIZE
    requires PageOf(section, p)[used..used + |record|] == record && (last ==> AllZero(PageOf(section, p)[used + |record|..]))
    ensures var at := p * PAGE_SIZE + used;
            && section[at..at + |record|] == record
            && (last ==> AllZero(section[at + |record|..(p + 1) * PAGE_SIZE]))
  {
    var at := p * PAGE_SIZE + used;
    SliceOfPage(section, p, at, at + |record|);
    SliceOfPage(section, p, at + |record|, (p + 1) * PAGE_SIZE);
    assert PageOf(section, p)[used + |record|..] == PageOf(section, p)[used + |record|..PAGE_SIZE];
  }

  /** A record held on its page tiles the section when the next start is right behind it or opens the next page. */
  lemma HeldTiles(section: seq<u8>, records: seq<seq<u8>>, starts: seq<Position>, k: nat, last: bool)
    requires k < |records| == |starts| && (starts[k].page + 1) * PAGE_SIZE <= |section|
    requires starts[k].offset + |records[k]| <= PAGE_SIZE
    requires PageOf(section, starts[k].page)[starts[k].offset..starts[k].offset + |records[k]|] == records[k]
    requires last ==> AllZero(PageOf(section, starts[k].page)[starts[k].offset + |records[k]|..])
    requires if k + 1 < |records| then starts[k + 1] == if last then Position(starts[k].page + 1, 0)
                                                        else Position(starts[k].page, starts[k].offset + |records[k]|)
             else last && |section| == (starts[k].page + 1) * PAGE_SIZE
    ensures Tiles(section, records, starts, k)
  {
    HeldInSection(section, starts[k].page, starts[k].offset, records[k], last);
    var end := starts[k].Absolute() + |records[k]|;
    assert k + 1 == |records| ==> section[end..] == section[end..(starts[k].page + 1) * PAGE_SIZE];
  }

  lemma NodeTiles(shape: Shape, index: Index, section: seq<u8>, records: seq<seq<u8>>, p: nat, first: nat, end: nat, k: nat,
                  vector: seq<u8>, ns: seq<u32>)
    requires IndexAccepted(shape, index) && |section| == shape.PageCount() * PAGE_SIZE && k < index.Len() == |records|
    requires p == StartAt(shape, index, k).page < shape.PageCount() && OnPage(index, first, end, p) && first <= k < end
    requires NodeHeld(shape, index, PageOf(section, p), end, k, vector, ns) && records[k] == Record(vector, ns)
    ensures Tiles(section, records, Starts(shape, index), k)
  {
    HeldFits(shape, index, PageOf(section, p), p, first, end, k, vector, ns);
    NextStart(shape, index, k);
    HeldTiles(section, records, Starts(shape, index), k, k + 1 == end);
  }

  /**
   * An accepted section is what `WriteRecords` emits for the vectors and lists read from it, at
   * the locators of its index.
   */
  lemma AcceptedIsWritten(shape: Shape, index: Index, section: seq<u8>)
    requires IndexAccepted(shape, index) && index.Len() > 0 && PagesAccepted(shape, index, section)
    ensures WrittenAt(shape, index, section, VectorsOf(shape, index, section), ListsOf(shape, index, section))
  {
    var (vectors, lists) := (VectorsOf(shape, index, section), ListsOf(shape, index, section));
    AcceptedFits(shape, index, section);
    FitsSortable(shape, index, vectors, lists);
    var records := RecordsOf(vectors, lists);
    forall k | 0 <= k < |records|
      ensures Tiles(section, records, Starts(shape, index), k)
    {
      assert StrictlyIncreasing(lists[k]);
      var p, first, end := AcceptedNode(shape, index, section, k);
      NodeTiles(shape, index, section, records, p, first, end, k, vectors[k], lists[k]);
    }
    NextStart(shape, index, 0);
    TiledIsSection(section, records, Starts(shape, index));
  }

  // ---------------------------------------------------------------------------
  // Written sections are accepted
  // ---------------------------------------------------------------------------

  /** The record of a node in its page of the section written for it. */
  lemma FittedRecordHeld(shape: Shape, index: Index, section: seq<u8>, records: seq<seq<u8>>, k: nat, vector: seq<u8>, ns: seq<u32>)
    requires IndexAccepted(shape, index) && FitsAt(shape, index, k, vector, ns) && k < index.Len() == |records|
    requires InOrder(records, Starts(shape, index)) && section == SectionAt(records, Starts(shape, index))
    requires records[k] == Record(vector, ns) && (StartAt(shape, index, k).page + 1) * PAGE_SIZE <= |section|
    ensures RecordHeld(shape, index, PageOf(section, StartAt(shape, index, k).page), k, UsedAt(shape, index, k), vector, ns)
  {
    var p := StartAt(shape, index, k).page;
    var _, at := RecordInSection(records, Starts(shape, index), k, section);
    SliceOfPage(section, p, at, at + |records[k]|);
  }

  /** Behind the last record of a page there are only zeros. */
  lemma TailZero(section: seq<u8>, records: seq<seq<u8>>, starts: seq<Position>, k: nat)
    requires InOrder(records, starts) && section == SectionAt(records, starts) && k < |records|
    requires (starts[k].page + 1) * PAGE_SIZE <= |section|
    requires k + 1 < |records| ==> starts[k + 1] == Position(starts[k].page + 1, 0)
    ensures starts[k].offset + |records[k]| <= PAGE_SIZE
    ensures AllZero(PageOf(section, starts[k].page)[starts[k].offset + |records[k]|..])
  {
    assert Follows(records, starts, k);
    SectionTail(records, starts, section, k + 1, starts[k].page, starts[k].offset + |records[k]|);
  }

  /** Behind a record of a page: the next one, or the end of the page. */
  lemma FittedNext(shape: Shape, index: Index, p: nat, first: nat, end: nat, k: nat, vector: seq<u8>, ns: seq<u32>)
    requires IndexAccepted(shape, index) && OnPage(index, first, end, p) && first <= k < end && FitsAt(shape, index, k, vector, ns)
    ensures StartAt(shape, index, k).page == p
    ensures k + 1 < end ==> UsedAt(shape, index, k + 1) == UsedAt(shape, index, k) + |Record(vector, ns)|
    ensures k + 1 == end < index.Len() ==> StartAt(shape, index, k + 1) == Position(p + 1, 0)
  {
    NextStart(shape, index, k);
    if k + 1 < index.Len() {
      NextStart(shape, index, k + 1);
    }
  }

  lemma FittedNode(shape: Shape, index: Index, section: seq<u8>, records: seq<seq<u8>>, p: nat, first: nat, end: nat, k: nat,
                   vector: seq<u8>, ns: seq<u32>)
    requires IndexAccepted(shape, index) && FitsAt(shape, index, k, vector, ns)
    requires index.Len() == |records| && InOrder(records, Starts(shape, index)) && section == SectionAt(records, Starts(shape, index))
    requires OnPage(index, first, end, p) && first <= k < end && (p + 1) * PAGE_SIZE <= |section| && records[k] == Record(vector, ns)
    ensures NodeHeld(shape, index, PageOf(section, p), end, k, vector, ns)
  {
    FittedNext(shape, index, p, first, end, k, vector, ns);
    FittedRecordHeld(shape, index, section, records, k, vector, ns);
    if k + 1 == end {
      TailZero(section, records, Starts(shape, index), k);
    }
  }

  lemma FittedNodes(shape: Shape, index: Index, section: seq<u8>, vectors: seq<seq<u8>>, lists: seq<seq<u32>>, p: nat, first: nat, end: nat)
    requires IndexAccepted(shape, index) && WrittenAt(shape, index, section, vectors, lists)
    requires OnPage(index, first, end, p) && (p + 1) * PAGE_SIZE <= |section|
    ensures NodesHeld(shape, index, PageOf(section, p), first, end, vectors, lists)
  {
    var records := RecordsOf(vectors, lists);
    forall k | first <= k < end
      ensures NodeHeld(shape, index, PageOf(section, p), end, k, vectors[k], lists[k])
    {
      assert FitsAt(shape, index, k, vectors[k], lists[k]);
      FittedNode(shape, index, section, records, p, first, end, k, vectors[k], lists[k]);
    }
  }

  lemma FittedPageAccepted(shape: Shape, index: Index, section: seq<u8>, vectors: seq<seq<u8>>, lists: seq<seq<u32>>, p: nat)
    requires IndexAccepted(shape, index) && index.Len() > 0 && WrittenAt(shape, index, section, vectors, lists)
    requires |section| == shape.PageCount() * PAGE_SIZE && p < shape.PageCount()
    ensures PageAccepted(shape, index, p, Page(section, p))
  {
    var first, end := NodesOfPage(shape, index, p);
    FittedNodes(shape, index, section, vectors, lists, p, first, end);
    assert NodeAccepted(shape, index, first);
    NodesHold(shape, index, PageOf(section, p), first, end, 0, vectors, lists);
    HoldingPageAccepted(shape, index, p, first, end, PageOf(section, p), vectors[first..end], lists[first..end]);
  }

  /** The reader gets back what was written. */
  lemma FittedRead(shape: Shape, index: Index, section: seq<u8>, vectors: seq<seq<u8>>, lists: seq<seq<u32>>, k: nat)
    requires IndexAccepted(shape, index) && WrittenAt(shape, index, section, vectors, lists) && k < index.Len()
    requires |section| == shape.PageCount() * PAGE_SIZE
    ensures VectorsOf(shape, index, section)[k] == vectors[k] && ListsOf(shape, index, section)[k] == lists[k]
  {
    NextStart(shape, index, k);
    assert FitsAt(shape, index, k, vectors[k], lists[k]);
    FittedRecordHeld(shape, index, section, RecordsOf(vectors, lists), k, vectors[k], lists[k]);
    HeldRecordRead(shape, index, Page(section, StartAt(shape, index, k).page), k, UsedAt(shape, index, k), vectors[k], lists[k]);
  }

  lemma WrittenAccepted(shape: Shape, index: Index, section: seq<u8>, vectors: seq<seq<u8>>, lists: seq<seq<u32>>)
    requires IndexAccepted(shape, index) && index.Len() > 0 && |section| == shape.PageCount() * PAGE_SIZE
    requires WrittenAt(shape, index, section, vectors, lists)
    ensures PagesAccepted(shape, index, section)
    ensures vectors == VectorsOf(shape, index, section) && lists == ListsOf(shape, index, section)
  {
    forall p | 0 <= p < shape.PageCount()
      ensures PageAccepted(shape, index, p, Page(section, p))
    {
      FittedPageAccepted(shape, index, section, vectors, lists, p);
    }
    forall k | 0 <= k < index.Len()
      ensures VectorsOf(shape, index, section)[k] == vectors[k] && ListsOf(shape, index, section)[k] == lists[k]
    {
      FittedRead(shape, index, section, vectors, lists, k);
    }
  }

  /**
   * Acceptance of a section is exact: the section is what the writer emits for given vectors and
   * lists, at the locators of its index, if and only if all its pages pass and these are the
   * vectors and lists that a reader takes from it.
   */
  lemma SectionAcceptanceIsExact(shape: Shape, index: Index, section: seq<u8>, vectors: seq<seq<u8>>, lists: seq<seq<u32>>)
    requires IndexAccepted(shape, index) && index.Len() > 0 && |section| == shape.PageCount() * PAGE_SIZE
    ensures WrittenAt(shape, index, section, vectors, lists) <==>
            PagesAccepted(shape, index, section) && vectors == VectorsOf(shape, index, section) && lists == ListsOf(shape, index, section)
  {
    if WrittenAt(shape, index, section, vectors, lists) {
      WrittenAccepted(shape, index, section, vectors, lists);
    } else if PagesAccepted(shape, index, section) {
      AcceptedIsWritten(shape, index, section);
    }
  }

  /** Reading an accepted section and writing it again gives the same bytes. */
  method Rewrite(shape: Shape, index: Index, section: seq<u8>) returns (again: seq<u8>)
    requires IndexAccepted(shape, index) && index.Len() > 0 && PagesAccepted(shape, index, section)
    ensures again == section
  {
    AcceptedIsWritten(shape, index, section);
    var vectors, lists := VectorsOf(shape, index, section), ListsOf(shape, index, section);
    ghost var records := RecordsOf(vectors, lists);
    forall k | 0 <= k < index.Len()
      ensures index.LocatorAt(k).Some?
      ensures PlacedAt(records, Starts(shape, index), k, index.LocatorAt(k).value, vectors[k], lists[k])
      ensures !shape.interleaved ==> vectors[k] == []
    {
      assert FitsAt(shape, index, k, vectors[k], lists[k]);
    }
    var locators := seq(index.Len(), k requires 0 <= k < index.Len() => index.LocatorAt(k).value);
    again := WriteRecords(lists, vectors, shape.interleaved, locators, records, Starts(shape, index));
  }

  /**
   * What acceptance means for the graph: every list read from an accepted section is strictly
   * increasing, in range, without a self edge and within the degree bound, and every vector in
   * front of one is finite.
   */
  lemma AcceptedGraphIsSound(shape: Shape, index: Index, section: seq<u8>, k: nat)
    requires IndexAccepted(shape, index) && PagesAccepted(shape, index, section) && k < index.Len()
    ensures var ns := ListsOf(shape, index, section)[k];
            && |ns| <= shape.maxDegree
            && (forall i :: 0 <= i < |ns| ==> ns[i] < shape.vectorCount && ns[i] != k)
            && (forall i, j :: 0 <= i < j < |ns| ==> ns[i] < ns[j])
    ensures shape.interleaved ==>
              var components := DecodeAll(VectorsOf(shape, index, section)[k], shape.element.Size());
              forall i :: 0 <= i < |components| ==> shape.element.FiniteBits(components[i])
  {
    AcceptedFits(shape, index, section);
    assert FitsAt(shape, index, k, VectorsOf(shape, index, section)[k], ListsOf(shape, index, section)[k]);
    AcceptedIndexIsSound(shape, index, k);
  }
}
