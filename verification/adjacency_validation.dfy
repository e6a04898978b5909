/**
 * Validation of one adjacency page against an accepted index, and the exact meaning of
 * acceptance: the page is what the writer renders for one sequence of lists.
 */
module AdjacencyValidation {
  import opened Prelude
  import opened Bytes
  import opened AdjacencyList
  import opened AdjacencyLayout
  import opened AdjacencyIndex
  import opened RawVector

  /** Neighbors in range, without a self edge, strictly increasing. */
  predicate NeighborsAccepted(ns: seq<u32>, vectorCount: nat, source: nat) {
    && (forall i :: 0 <= i < |ns| ==> ns[i] < vectorCount && ns[i] != source)
    && StrictlyIncreasing(ns)
  }

  /** The list a locator describes may be `ns`. */
  predicate ListMatches(shape: Shape, locator: Locator, source: nat, ns: seq<u32>) {
    && NeighborsAccepted(ns, shape.vectorCount, source)
    && locator.Degree() == |ns|
    && Ascending(ns, 0)
    && locator.Mode() == MinimalEncoding(ns)
  }

  // ---------------------------------------------------------------------------
  // CheckRecord and CheckRecords: what `validate_adjacency_page_payload` checks
  // ---------------------------------------------------------------------------

  /** The next list on the same page starts right after this record's successor's vector. */
  predicate NextContiguous(shape: Shape, index: Index, node: nat, page: nat, listEnd: nat) {
    match index.LocatorAt(node + 1)
    case Some(next) => next.page == page ==> listEnd + shape.Prefix() == next.byteOffset
    case None => true
  }

  /** The body of the loop in `validate_adjacency_page_payload`: the list of `node` and its end. */
  function CheckRecord(shape: Shape, index: Index, page: seq<u8>, node: nat, used: nat): (r: Result<(seq<u32>, nat)>)
    requires |page| == PAGE_SIZE
    ensures r.Ok? ==> used <= r.value.1 <= PAGE_SIZE
  {
    match index.LocatorAt(node)
    case None => Err(InvalidData)
    case Some(locator) =>
      if locator.byteOffset != used + shape.Prefix() then Err(InvalidData)
      else if shape.interleaved && !VectorAccepted(page[used..locator.byteOffset], shape.element) then Err(InvalidData)
      else
        var (ns, consumed) :- Decode(page[locator.byteOffset..], locator.Degree(), locator.Mode());
        var listEnd := locator.byteOffset + consumed;
        assert listEnd <= PAGE_SIZE by {
          DecodesOnlyItsBytes(page[locator.byteOffset..], locator.Degree(), locator.Mode());
        }
        if NextContiguous(shape, index, node, locator.page, listEnd) && ListMatches(shape, locator, node, ns)
        then Ok((ns, listEnd)) else Err(InvalidData)
  }

  /** Records `node .. end` from byte `used` of the page, then a zero tail: their lists. */
  function CheckRecords(shape: Shape, index: Index, page: seq<u8>, node: nat, end: nat, used: nat): Result<seq<seq<u32>>>
    requires |page| == PAGE_SIZE && node <= end && used <= PAGE_SIZE
    decreases end - node
  {
    if node == end then
      if AllZero(page[used..]) then Ok([]) else Err(InvalidData)
    else
      var (ns, listEnd) :- CheckRecord(shape, index, page, node, used);
      var rest :- CheckRecords(shape, index, page, node + 1, end, listEnd);
      Ok([ns] + rest)
  }

  // ---------------------------------------------------------------------------
  // What an accepted page is
  // ---------------------------------------------------------------------------

  /** The bytes of a record. */
  function Record(vector: seq<u8>, ns: seq<u32>): seq<u8>
    requires StrictlyIncreasing(ns)
  {
    vector + Canonical(ns)
  }

  /** At byte `used` the page holds a vector and the canonical list of `node`, where its locator says. */
  predicate RecordHeld(shape: Shape, index: Index, page: seq<u8>, node: nat, used: nat, vector: seq<u8>, ns: seq<u32>) {
    && index.LocatorAt(node).Some?
    && index.LocatorAt(node).value.byteOffset == used + shape.Prefix()
    && ListMatches(shape, index.LocatorAt(node).value, node, ns)
    && |vector| == shape.Prefix()
    && (shape.interleaved ==> VectorAccepted(vector, shape.element))
    && used + |Record(vector, ns)| <= |page|
    && page[used..used + |Record(vector, ns)|] == Record(vector, ns)
  }

  /** From byte `used` on, the page holds the records of `node .. end` back to back, then zeros. */
  ghost predicate Holds(shape: Shape, index: Index, page: seq<u8>, node: nat, end: nat, used: nat,
                        vectors: seq<seq<u8>>, lists: seq<seq<u32>>)
    requires |page| == PAGE_SIZE && node <= end && used <= PAGE_SIZE
    decreases end - node
  {
    && |vectors| == |lists| == end - node
    && if node == end then AllZero(page[used..]) else
       && RecordHeld(shape, index, page, node, used, vectors[0], lists[0])
       && Holds(shape, index, page, node + 1, end, used + |Record(vectors[0], lists[0])|, vectors[1..], lists[1..])
  }

  /** The whole page is the records of `first .. end` and a zero tail. */
  ghost predicate PageHolds(shape: Shape, index: Index, page: seq<u8>, first: nat, end: nat,
                            vectors: seq<seq<u8>>, lists: seq<seq<u32>>)
  {
    |page| == PAGE_SIZE && first <= end && Holds(shape, index, page, first, end, 0, vectors, lists)
  }

  /** The nodes of page `p` are exactly `first .. end`. */
  ghost predicate OnPage(index: Index, first: nat, end: nat, p: nat) {
    && first <= end <= index.Len()
    && (forall k :: 0 <= k < index.Len() ==> index.LocatorAt(k).Some?)
    && (forall k :: 0 <= k < index.Len() ==> (index.LocatorAt(k).value.page == p <==> first <= k < end))
  }

  lemma SplitRecord(page: seq<u8>, used: nat, vector: seq<u8>, list: seq<u8>)
    requires used + |vector| + |list| <= |page| && page[used..used + |vector + list|] == vector + list
    ensures page[used..used + |vector|] == vector
    ensures page[used + |vector|..] == list + page[used + |vector| + |list|..]
  {
    var whole := page[used..used + |vector + list|];
    assert page[used..used + |vector|] == whole[..|vector|];
    assert page[used + |vector|..used + |vector| + |list|] == whole[|vector|..];
  }

  lemma HeldRecordPasses(shape: Shape, index: Index, page: seq<u8>, node: nat, used: nat, vector: seq<u8>, ns: seq<u32>)
    requires |page| == PAGE_SIZE && RecordHeld(shape, index, page, node, used, vector, ns)
    requires NextContiguous(shape, index, node, index.LocatorAt(node).value.page, used + |Record(vector, ns)|)
    ensures CheckRecord(shape, index, page, node, used) == Ok((ns, used + |Record(vector, ns)|))
  {
    var locator := index.LocatorAt(node).value;
    SplitRecord(page, used, vector, Canonical(ns));
    DecodeWritten(ns, locator.Mode(), page[used + |vector| + |Canonical(ns)|..]);
  }

  lemma HeldIsContiguous(shape: Shape, index: Index, page: seq<u8>, node: nat, end: nat, used: nat,
                         vectors: seq<seq<u8>>, lists: seq<seq<u32>>, p: nat, first: nat)
    requires |page| == PAGE_SIZE && first <= node < end && used <= PAGE_SIZE && OnPage(index, first, end, p)
    requires Holds(shape, index, page, node, end, used, vectors, lists)
    ensures NextContiguous(shape, index, node, index.LocatorAt(node).value.page, used + |Record(vectors[0], lists[0])|)
  {
    if node + 1 < end {
      assert RecordHeld(shape, index, page, node + 1, used + |Record(vectors[0], lists[0])|, vectors[1..][0], lists[1..][0]);
    }
  }

  lemma HeldStep(shape: Shape, index: Index, page: seq<u8>, node: nat, end: nat, used: nat,
                 vectors: seq<seq<u8>>, lists: seq<seq<u32>>, p: nat, first: nat) returns (next: nat)
    requires |page| == PAGE_SIZE && first <= node < end && used <= PAGE_SIZE && OnPage(index, first, end, p)
    requires Holds(shape, index, page, node, end, used, vectors, lists)
    ensures CheckRecord(shape, index, page, node, used) == Ok((lists[0], next)) && next <= PAGE_SIZE
    ensures Holds(shape, index, page, node + 1, end, next, vectors[1..], lists[1..])
  {
    HeldIsContiguous(shape, index, page, node, end, used, vectors, lists, p, first);
    HeldRecordPasses(shape, index, page, node, used, vectors[0], lists[0]);
    next := used + |Record(vectors[0], lists[0])|;
  }

  /** Rendered pages pass, with exactly the rendered lists. */
  lemma {:induction false} HeldPagePasses(shape: Shape, index: Index, page: seq<u8>, node: nat, end: nat, used: nat,
                                          vectors: seq<seq<u8>>, lists: seq<seq<u32>>, p: nat, first: nat)
    requires |page| == PAGE_SIZE && first <= node <= end && used <= PAGE_SIZE && OnPage(index, first, end, p)
    requires Holds(shape, index, page, node, end, used, vectors, lists)
    ensures CheckRecords(shape, index, page, node, end, used) == Ok(lists)
    decreases end - node
  {
    if node < end {
      var next := HeldStep(shape, index, page, node, end, used, vectors, lists, p, first);
      HeldPagePasses(shape, index, page, node + 1, end, next, vectors[1..], lists[1..], p, first);
      assert [lists[0]] + lists[1..] == lists;
      PassesMore(shape, index, page, node, end, used, lists[0], next, lists[1..]);
    }
  }

  lemma PassesMore(shape: Shape, index: Index, page: seq<u8>, node: nat, end: nat, used: nat, ns: seq<u32>, next: nat, rest: seq<seq<u32>>)
    requires |page| == PAGE_SIZE && node < end && used <= PAGE_SIZE && next <= PAGE_SIZE
    requires CheckRecord(shape, index, page, node, used) == Ok((ns, next))
    requires CheckRecords(shape, index, page, node + 1, end, next) == Ok(rest)
    ensures CheckRecords(shape, index, page, node, end, used) == Ok([ns] + rest)
  {
  }

  lemma JoinRecord(page: seq<u8>, used: nat, start: nat, consumed: nat)
    requires used <= start && start + consumed <= |page|
    ensures page[used..start + consumed] == page[used..start] + page[start..][..consumed]
  {
  }

  lemma RecordFromParts(shape: Shape, index: Index, page: seq<u8>, node: nat, used: nat, ns: seq<u32>, list: seq<u8>)
    requires index.LocatorAt(node).Some? && index.LocatorAt(node).value.byteOffset == used + shape.Prefix()
    requires ListMatches(shape, index.LocatorAt(node).value, node, ns) && list == Canonical(ns)
    requires used + shape.Prefix() + |list| <= |page| && page[used + shape.Prefix()..][..|list|] == list
    requires shape.interleaved ==> VectorAccepted(page[used..used + shape.Prefix()], shape.element)
    ensures RecordHeld(shape, index, page, node, used, page[used..used + shape.Prefix()], ns)
  {
    JoinRecord(page, used, used + shape.Prefix(), |list|);
  }

  lemma PassedRecordHeld(shape: Shape, index: Index, page: seq<u8>, node: nat, used: nat)
    returns (vector: seq<u8>, ns: seq<u32>, listEnd: nat)
    requires |page| == PAGE_SIZE && used <= PAGE_SIZE
    requires CheckRecord(shape, index, page, node, used).Ok?
    ensures CheckRecord(shape, index, page, node, used) == Ok((ns, listEnd))
    ensures RecordHeld(shape, index, page, node, used, vector, ns)
    ensures listEnd == used + |Record(vector, ns)| <= PAGE_SIZE
  {
    var locator := index.LocatorAt(node).value;
    var start := locator.byteOffset;
    var decoded := Decode(page[start..], locator.Degree(), locator.Mode());
    vector, ns, listEnd := page[used..start], decoded.value.0, start + decoded.value.1;
    DecodesOnlyItsBytes(page[start..], locator.Degree(), locator.Mode());
    RecordFromParts(shape, index, page, node, used, ns, page[start..][..decoded.value.1]);
  }

  /** Pages that pass hold the lists that were checked. */
  lemma {:induction false} PassedPageHeld(shape: Shape, index: Index, page: seq<u8>, node: nat, end: nat, used: nat)
    returns (vectors: seq<seq<u8>>, lists: seq<seq<u32>>)
    requires |page| == PAGE_SIZE && node <= end && used <= PAGE_SIZE
    requires CheckRecords(shape, index, page, node, end, used).Ok?
    ensures CheckRecords(shape, index, page, node, end, used) == Ok(lists)
    ensures Holds(shape, index, page, node, end, used, vectors, lists)
    decreases end - node
  {
    if node == end {
      vectors, lists := [], [];
    } else {
      var vector, ns, listEnd := PassedRecordHeld(shape, index, page, node, used);
      var moreVectors, moreLists := PassedPageHeld(shape, index, page, node + 1, end, listEnd);
      vectors, lists := [vector] + moreVectors, [ns] + moreLists;
      HoldsMore(shape, index, page, node, end, used, vector, ns, moreVectors, moreLists);
    }
  }

  lemma HoldsMore(shape: Shape, index: Index, page: seq<u8>, node: nat, end: nat, used: nat,
                  vector: seq<u8>, ns: seq<u32>, vectors: seq<seq<u8>>, lists: seq<seq<u32>>)
    requires |page| == PAGE_SIZE && node < end && used <= PAGE_SIZE
    requires RecordHeld(shape, index, page, node, used, vector, ns) && used + |Record(vector, ns)| <= PAGE_SIZE
    requires Holds(shape, index, page, node + 1, end, used + |Record(vector, ns)|, vectors, lists)
    ensures Holds(shape, index, page, node, end, used, [vector] + vectors, [ns] + lists)
  {
    assert ([vector] + vectors)[1..] == vectors && ([ns] + lists)[1..] == lists;
  }

  /** Where the record of a node starts in its page. */
  function UsedAt(shape: Shape, index: Index, node: nat): int {
    match index.LocatorAt(node)
    case Some(here) => here.byteOffset - shape.Prefix()
    case None => -1
  }

  /** The record of `node` is held where its locator says, and the next record, or the zero tail, right behind it. */
  ghost predicate NodeHeld(shape: Shape, index: Index, page: seq<u8>, end: nat, node: nat, vector: seq<u8>, ns: seq<u32>) {
    && |page| == PAGE_SIZE && UsedAt(shape, index, node) >= 0
    && RecordHeld(shape, index, page, node, UsedAt(shape, index, node), vector, ns)
    && var next := UsedAt(shape, index, node) + |Record(vector, ns)|;
       if node + 1 == end then AllZero(page[next..]) else UsedAt(shape, index, node + 1) == next
  }

  /** The records of `node .. end` are held on one page; vectors and lists are those of all nodes. */
  ghost predicate NodesHeld(shape: Shape, index: Index, page: seq<u8>, node: nat, end: nat,
                            vectors: seq<seq<u8>>, lists: seq<seq<u32>>)
  {
    && end <= |vectors| == |lists|
    && forall k :: node <= k < end ==> NodeHeld(shape, index, page, end, k, vectors[k], lists[k])
  }

  lemma {:induction false} NodesHold(shape: Shape, index: Index, page: seq<u8>, node: nat, end: nat, used: nat,
                                     vectors: seq<seq<u8>>, lists: seq<seq<u32>>)
    requires node < end && NodesHeld(shape, index, page, node, end, vectors, lists) && used == UsedAt(shape, index, node)
    ensures |page| == PAGE_SIZE && used <= PAGE_SIZE
    ensures Holds(shape, index, page, node, end, used, vectors[node..end], lists[node..end])
    decreases end - node
  {
    assert NodeHeld(shape, index, page, end, node, vectors[node], lists[node]);
    var next := used + |Record(vectors[node], lists[node])|;
    if node + 1 < end {
      NodesHold(shape, index, page, node + 1, end, next, vectors, lists);
    }
    HoldsMore(shape, index, page, node, end, used, vectors[node], lists[node], vectors[node + 1..end], lists[node + 1..end]);
    assert [vectors[node]] + vectors[node + 1..end] == vectors[node..end];
    assert [lists[node]] + lists[node + 1..end] == lists[node..end];
  }

  /** Vectors and lists back to back. */
  function Rendered(vectors: seq<seq<u8>>, lists: seq<seq<u32>>): seq<u8>
    requires |vectors| == |lists| && Sortable(lists)
  {
    if lists == [] then [] else Record(vectors[0], lists[0]) + Rendered(vectors[1..], lists[1..])
  }

  lemma PrependRendering(page: seq<u8>, used: nat, record: seq<u8>, tail: seq<u8>)
    requires used + |record| + |tail| <= |page|
    requires page[used..used + |record|] == record
    requires page[used + |record|..] == tail + Zeros(|page| - used - |record| - |tail|)
    ensures page[used..] == (record + tail) + Zeros(|page| - used - |record + tail|)
  {
    assert page[used..] == record + page[used + |record|..];
  }

  /** A page that holds lists is, byte for byte, their rendering and a zero tail. */
  lemma {:induction false} HeldPageIsRendering(shape: Shape, index: Index, page: seq<u8>, node: nat, end: nat, used: nat,
                                               vectors: seq<seq<u8>>, lists: seq<seq<u32>>)
    requires |page| == PAGE_SIZE && node <= end && used <= PAGE_SIZE
    requires Holds(shape, index, page, node, end, used, vectors, lists)
    ensures Sortable(lists) && |Rendered(vectors, lists)| <= PAGE_SIZE - used
    ensures page[used..] == Rendered(vectors, lists) + Zeros(PAGE_SIZE - used - |Rendered(vectors, lists)|)
    decreases end - node
  {
    if node == end {
      assert page[used..] == Zeros(PAGE_SIZE - used);
    } else {
      var record := Record(vectors[0], lists[0]);
      HeldPageIsRendering(shape, index, page, node + 1, end, used + |record|, vectors[1..], lists[1..]);
      assert lists == [lists[0]] + lists[1..];
      PrependRendering(page, used, record, Rendered(vectors[1..], lists[1..]));
    }
  }

  // ---------------------------------------------------------------------------
  // The nodes of a page
  // ---------------------------------------------------------------------------

  lemma {:induction false} PagesMonotone(shape: Shape, index: Index, i: nat, j: nat)
    requires IndexAccepted(shape, index) && i <= j < index.Len()
    ensures index.LocatorAt(i).Some? && index.LocatorAt(j).Some?
    ensures index.LocatorAt(i).value.page <= index.LocatorAt(j).value.page
    decreases j
  {
    assert NodeAccepted(shape, index, i) && NodeAccepted(shape, index, j);
    if i < j {
      PagesMonotone(shape, index, i, j - 1);
    }
  }

  /** Every page of an accepted index has a node, so no page is refused for having none. */
  lemma {:induction false} EveryPageIndexed(shape: Shape, index: Index, p: nat, last: nat) returns (k: nat)
    requires IndexAccepted(shape, index) && last < index.Len()
    requires index.LocatorAt(last).Some? && p <= index.LocatorAt(last).value.page
    ensures k <= last && index.LocatorAt(k).Some? && index.LocatorAt(k).value.page == p
    decreases last
  {
    assert NodeAccepted(shape, index, last);
    if index.LocatorAt(last).value.page == p {
      k := last;
    } else {
      k := EveryPageIndexed(shape, index, p, last - 1);
    }
  }

  /** `AdjacencyIndex::partition_point`, for a page bound. */
  method PartitionPoint(shape: Shape, index: Index, bound: nat) returns (left: nat)
    requires IndexAccepted(shape, index)
    ensures left <= index.Len()
    ensures forall k :: 0 <= k < index.Len() ==> index.LocatorAt(k).Some? && (index.LocatorAt(k).value.page < bound <==> k < left)
  {
    left := 0;
    var right := index.Len();
    while left < right
      invariant left <= right <= index.Len()
      invariant forall k :: 0 <= k < left ==> index.LocatorAt(k).Some? && index.LocatorAt(k).value.page < bound
      invariant forall k :: right <= k < index.Len() ==> index.LocatorAt(k).Some? && index.LocatorAt(k).value.page >= bound
    {
      var middle := left + (right - left) / 2;
      assert NodeAccepted(shape, index, middle);
      forall k | 0 <= k < index.Len()
        ensures index.LocatorAt(k).Some?
        ensures k <= middle ==> index.LocatorAt(k).value.page <= index.LocatorAt(middle).value.page
        ensures k >= middle ==> index.LocatorAt(k).value.page >= index.LocatorAt(middle).value.page
      {
        if k <= middle {
          PagesMonotone(shape, index, k, middle);
        } else {
          PagesMonotone(shape, index, middle, k);
        }
      }
      if index.LocatorAt(middle).value.page < bound {
        left := middle + 1;
      } else {
        right := middle;
      }
    }
  }

  // ---------------------------------------------------------------------------
  // Validation
  // ---------------------------------------------------------------------------

  method CheckNeighbors(ns: seq<u32>, vectorCount: nat, source: nat) returns (ok: bool)
    ensures ok <==> NeighborsAccepted(ns, vectorCount, source)
  {
    for i := 0 to |ns|
      invariant NeighborsAccepted(ns[..i], vectorCount, source)
    {
      if ns[i] >= vectorCount || ns[i] == source || (i > 0 && ns[i] <= ns[i - 1]) {
        return false;
      }
      assert ns[..i + 1] == ns[..i] + [ns[i]];
      assert i > 0 ==> ns[..i][i - 1] == ns[i - 1];
    }
    assert ns[..|ns|] == ns;
    return true;
  }

  method ValidateRecord(shape: Shape, index: Index, page: seq<u8>, node: nat, used: nat) returns (r: Result<nat>)
    requires |page| == PAGE_SIZE && index.LocatorAt(node).Some?
    ensures match CheckRecord(shape, index, page, node, used)
            case Ok((_, listEnd)) => r == Ok(listEnd)
            case Err(kind) => r == Err(kind)
  {
    var locator := index.LocatorAt(node).value;
    var start := locator.byteOffset;
    if start < shape.Prefix() || start - shape.Prefix() != used {
      return Err(InvalidData);
    }
    if shape.interleaved && !VectorAccepted(page[used..start], shape.element) {
      return Err(InvalidData);
    }
    var decoded := DecodeList(page[start..], locator.Degree(), locator.Mode());
    if decoded.Err? {
      return Err(decoded.kind);
    }
    var (ns, consumed) := decoded.value;
    if !NextContiguous(shape, index, node, locator.page, start + consumed) {
      return Err(InvalidData);
    }
    var ok := CheckNeighbors(ns, shape.vectorCount, node);
    if !ok {
      return Err(InvalidData);
    }
    var deltaLen := DeltaVarintLen(ns);
    var minimal := if ns == [] || deltaLen.value < |ns| * 4 then DeltaVarint else RawU32;
    if locator.Mode() != minimal {
      return Err(InvalidData);
    }
    return Ok(start + consumed);
  }

  /** A page of an index is accepted when its records, and nothing else, are on it. */
  ghost predicate PageAccepted(shape: Shape, index: Index, p: nat, page: seq<u8>) {
    && |page| == PAGE_SIZE
    && exists first, end :: OnPage(index, first, end, p) && first < end && CheckRecords(shape, index, page, first, end, 0).Ok?
  }

  lemma OnPageUnique(index: Index, p: nat, first: nat, end: nat, first': nat, end': nat)
    requires OnPage(index, first, end, p) && OnPage(index, first', end', p) && first < end && first' < end'
    ensures first == first' && end == end'
  {
    assert index.LocatorAt(first).value.page == p && index.LocatorAt(end - 1).value.page == p;
    assert index.LocatorAt(first').value.page == p && index.LocatorAt(end' - 1).value.page == p;
  }

  method ValidateTail(page: seq<u8>, used: nat) returns (ok: bool)
    requires used <= |page|
    ensures ok <==> AllZero(page[used..])
  {
    for i := used to |page|
      invariant forall k :: used <= k < i ==> page[k] == 0
    {
      if page[i] != 0 {
        assert page[used..][i - used] != 0;
        return false;
      }
    }
    return true;
  }

  method ValidateRecords(shape: Shape, index: Index, page: seq<u8>, first: nat, end: nat) returns (ok: bool)
    requires |page| == PAGE_SIZE && first <= end <= index.Len()
    requires forall k :: 0 <= k < index.Len() ==> index.LocatorAt(k).Some?
    ensures ok <==> CheckRecords(shape, index, page, first, end, 0).Ok?
  {
    var used: nat := 0;
    for node := first to end
      invariant used <= PAGE_SIZE
      invariant CheckRecords(shape, index, page, node, end, used).Ok? <==> CheckRecords(shape, index, page, first, end, 0).Ok?
    {
      var listEnd := ValidateRecord(shape, index, page, node, used);
      if listEnd.Err? {
        return false;
      }
      used := listEnd.value;
    }
    ok := ValidateTail(page, used);
  }

  lemma AcceptedOnPage(shape: Shape, index: Index, p: nat, page: seq<u8>, first: nat, end: nat)
    requires |page| == PAGE_SIZE && OnPage(index, first, end, p) && first < end
    ensures PageAccepted(shape, index, p, page) <==> CheckRecords(shape, index, page, first, end, 0).Ok?
  {
    forall a, b | OnPage(index, a, b, p) && a < b ensures a == first && b == end {
      OnPageUnique(index, p, a, b, first, end);
    }
  }

  /** `validate_adjacency_page_payload`. */
  method ValidatePage(shape: Shape, index: Index, p: nat, page: seq<u8>) returns (ok: bool)
    requires IndexAccepted(shape, index)
    ensures ok <==> PageAccepted(shape, index, p, page)
  {
    if |page| != PAGE_SIZE {
      return false;
    }
    var first := PartitionPoint(shape, index, p);
    var end := PartitionPoint(shape, index, p + 1);
    if first >= end {
      assert forall k :: 0 <= k < index.Len() ==> index.LocatorAt(k).value.page != p;
      return false;
    }
    assert OnPage(index, first, end, p);
    AcceptedOnPage(shape, index, p, page, first, end);
    ok := ValidateRecords(shape, index, page, first, end);
  }

  /** An accepted page holds the records of its nodes. */
  lemma AcceptedPageHolds(shape: Shape, index: Index, p: nat, first: nat, end: nat, page: seq<u8>)
    returns (vectors: seq<seq<u8>>, lists: seq<seq<u32>>)
    requires OnPage(index, first, end, p) && first < end
    requires PageAccepted(shape, index, p, page)
    ensures PageHolds(shape, index, page, first, end, vectors, lists)
  {
    var a, b :| OnPage(index, a, b, p) && a < b && CheckRecords(shape, index, page, a, b, 0).Ok?;
    OnPageUnique(index, p, a, b, first, end);
    vectors, lists := PassedPageHeld(shape, index, page, first, end, 0);
  }

  /** A page that holds the records of its nodes is accepted, and is their rendering. */
  lemma HoldingPageAccepted(shape: Shape, index: Index, p: nat, first: nat, end: nat, page: seq<u8>,
                            vectors: seq<seq<u8>>, lists: seq<seq<u32>>)
    requires |page| == PAGE_SIZE && OnPage(index, first, end, p) && first < end
    requires PageHolds(shape, index, page, first, end, vectors, lists)
    ensures PageAccepted(shape, index, p, page)
    ensures CheckRecords(shape, index, page, first, end, 0) == Ok(lists)
    ensures Sortable(lists) && |Rendered(vectors, lists)| <= PAGE_SIZE
    ensures page == Rendered(vectors, lists) + Zeros(PAGE_SIZE - |Rendered(vectors, lists)|)
  {
    HeldPagePasses(shape, index, page, first, end, 0, vectors, lists, p, first);
    HeldPageIsRendering(shape, index, page, first, end, 0, vectors, lists);
    assert page[0..] == page;
  }

  /** The page holds these records and is, byte for byte, their rendering and a zero tail. */
  ghost predicate PageRenders(shape: Shape, index: Index, page: seq<u8>, first: nat, end: nat,
                              vectors: seq<seq<u8>>, lists: seq<seq<u32>>)
  {
    && PageHolds(shape, index, page, first, end, vectors, lists)
    && Sortable(lists) && |Rendered(vectors, lists)| <= PAGE_SIZE
    && page == Rendered(vectors, lists) + Zeros(PAGE_SIZE - |Rendered(vectors, lists)|)
  }

  /**
   * Acceptance is exact: a page is accepted if and only if it is the rendering, zero tail
   * included, of records that match the locators of its nodes.
   */
  lemma AcceptanceIsExact(shape: Shape, index: Index, p: nat, first: nat, end: nat, page: seq<u8>)
    requires |page| == PAGE_SIZE && OnPage(index, first, end, p) && first < end
    ensures PageAccepted(shape, index, p, page)
            <==> exists vectors, lists :: PageRenders(shape, index, page, first, end, vectors, lists)
  {
    if PageAccepted(shape, index, p, page) {
      var vectors, lists := AcceptedPageHolds(shape, index, p, first, end, page);
      HoldingPageAccepted(shape, index, p, first, end, page, vectors, lists);
      assert PageRenders(shape, index, page, first, end, vectors, lists);
    } else if exists vectors, lists :: PageRenders(shape, index, page, first, end, vectors, lists) {
      var vectors, lists :| PageRenders(shape, index, page, first, end, vectors, lists);
      HoldingPageAccepted(shape, index, p, first, end, page, vectors, lists);
    }
  }
}
