/** The adjacency pages: how the writer fills them and which ones the reader accepts. */
module AdjacencyPages {
  import opened Prelude
  import opened Bytes
  import opened AdjacencyList
  import opened AdjacencyLayout
  import opened AdjacencyIndex
  import opened RawVector

  // ---------------------------------------------------------------------------
  // Writing
  // ---------------------------------------------------------------------------

  function Lengths(records: seq<seq<u8>>): (sizes: seq<nat>)
    ensures |sizes| == |records| && forall k :: 0 <= k < |records| ==> sizes[k] == |records[k]|
  {
    seq(|records|, k requires 0 <= k < |records| => |records[k]|)
  }

  /** The end of record `k - 1`. */
  function EndOf(records: seq<seq<u8>>, starts: seq<Position>, k: nat): Position
    requires |starts| == |records| && k <= |records|
  {
    if k == 0 then Position(0, 0) else Position(starts[k - 1].page, starts[k - 1].offset + |records[k - 1]|)
  }

  /** Record `k` does not cross its page, and does not start before the end of the one before it. */
  predicate Follows(records: seq<seq<u8>>, starts: seq<Position>, k: nat)
    requires |starts| == |records| && k < |records|
  {
    && starts[k].offset + |records[k]| <= PAGE_SIZE
    && var end := EndOf(records, starts, k);
       end.page <= starts[k].page && end.Absolute() <= starts[k].Absolute()
  }

  ghost predicate InOrder(records: seq<seq<u8>>, starts: seq<Position>) {
    |starts| == |records| && forall k :: 0 <= k < |records| ==> Follows(records, starts, k)
  }

  /** The bytes up to the end of record `k - 1`: each record at its start, zeros in between. */
  ghost function Stream(records: seq<seq<u8>>, starts: seq<Position>, k: nat): (s: seq<u8>)
    requires InOrder(records, starts) && k <= |records|
    ensures |s| == EndOf(records, starts, k).Absolute()
  {
    if k == 0 then [] else
      var prior := Stream(records, starts, k - 1);
      assert Follows(records, starts, k - 1);
      prior + Zeros(starts[k - 1].Absolute() - |prior|) + records[k - 1]
  }

  function PadTo(s: seq<u8>, length: nat): (p: seq<u8>)
    requires |s| <= length
    ensures |p| == length
  {
    s + Zeros(length - |s|)
  }

  lemma EndInPage(records: seq<seq<u8>>, starts: seq<Position>, k: nat)
    requires InOrder(records, starts) && k <= |records|
    ensures EndOf(records, starts, k).offset <= PAGE_SIZE
  {
    assert k > 0 ==> Follows(records, starts, k - 1);
  }

  /** Records at given starts, padded to whole pages. */
  ghost function SectionAt(records: seq<seq<u8>>, starts: seq<Position>): (s: seq<u8>)
    requires InOrder(records, starts)
    ensures |s| == (EndOf(records, starts, |records|).page + 1) * PAGE_SIZE
  {
    EndInPage(records, starts, |records|);
    PadTo(Stream(records, starts, |records|), (EndOf(records, starts, |records|).page + 1) * PAGE_SIZE)
  }

  /** Where greedy page filling puts the records. */
  function PlannedStarts(records: seq<seq<u8>>): (starts: seq<Position>)
    ensures |starts| == |records|
  {
    seq(|records|, k requires 0 <= k < |records| => StartOf(Lengths(records), k))
  }

  lemma PlannedInOrder(records: seq<seq<u8>>)
    requires FitPages(Lengths(records))
    ensures InOrder(records, PlannedStarts(records))
    ensures forall k :: 0 <= k <= |records| ==> EndOf(records, PlannedStarts(records), k) == After(Lengths(records), k)
  {
    forall k | 0 <= k < |records|
      ensures Follows(records, PlannedStarts(records), k)
    {
      AfterInPage(Lengths(records), k);
    }
  }

  /** The adjacency section of a sequence of records. */
  ghost function Section(records: seq<seq<u8>>): (s: seq<u8>)
    requires FitPages(Lengths(records))
    ensures |s| == (After(Lengths(records), |records|).page + 1) * PAGE_SIZE
  {
    PlannedInOrder(records);
    SectionAt(records, PlannedStarts(records))
  }

  /** Record `k`: the raw vector, empty when vectors are stored apart, and the list. */
  function RecordsOf(vectors: seq<seq<u8>>, adjacency: seq<seq<u32>>): (records: seq<seq<u8>>)
    requires Sortable(adjacency) && |vectors| == |adjacency|
    ensures |records| == |adjacency|
  {
    seq(|adjacency|, k requires 0 <= k < |adjacency| => vectors[k] + Canonical(adjacency[k]))
  }

  predicate UniformVectors(vectors: seq<seq<u8>>, prefix: nat) {
    forall k :: 0 <= k < |vectors| ==> |vectors[k]| == prefix
  }

  lemma RecordLengths(vectors: seq<seq<u8>>, adjacency: seq<seq<u32>>, prefix: nat)
    requires Sortable(adjacency) && |vectors| == |adjacency| && UniformVectors(vectors, prefix)
    ensures Lengths(RecordsOf(vectors, adjacency)) == RecordSizes(adjacency, prefix)
  {
  }

  method CopyInto(page: array<u8>, start: nat, bytes: seq<u8>)
    requires start + |bytes| <= page.Length
    modifies page
    ensures page[..] == old(page[..start]) + bytes + old(page[start + |bytes|..])
  {
    for i := 0 to |bytes|
      invariant page[..start] == old(page[..start])
      invariant page[start..start + i] == bytes[..i]
      invariant page[start + |bytes|..] == old(page[start + |bytes|..])
    {
      page[start + i] := bytes[i];
      assert page[start..start + i + 1] == page[start..start + i] + [bytes[i]];
      assert bytes[..i + 1] == bytes[..i] + [bytes[i]];
    }
    assert page[..] == page[..start] + page[start..start + |bytes|] + page[start + |bytes|..];
  }

  method ClearPage(page: array<u8>)
    modifies page
    ensures page[..] == Zeros(page.Length)
  {
    for i := 0 to page.Length
      invariant forall j :: 0 <= j < i ==> page[j] == 0
    {
      page[i] := 0;
    }
  }

  lemma PadMore(s: seq<u8>, length: nat, more: nat)
    requires |s| <= length
    ensures PadTo(s, length) + Zeros(more) == PadTo(s, length + more)
  {
  }

  /** Storing a record at its start extends the padded stream by that record. */
  lemma StoreRecord(records: seq<seq<u8>>, starts: seq<Position>, k: nat, length: nat)
    requires InOrder(records, starts) && k < |records| && starts[k].Absolute() + |records[k]| <= length
    ensures |Stream(records, starts, k)| <= length && |Stream(records, starts, k + 1)| <= length
    ensures var start := starts[k].Absolute();
            var padded := PadTo(Stream(records, starts, k), length);
            padded[..start] + records[k] + padded[start + |records[k]|..] == PadTo(Stream(records, starts, k + 1), length)
  {
    assert Follows(records, starts, k);
    var start := starts[k].Absolute();
    var s := Stream(records, starts, k);
    assert PadTo(s, length)[..start] == s + Zeros(start - |s|);
    assert PadTo(s, length)[start + |records[k]|..] == Zeros(length - start - |records[k]|);
  }

  /** One record into the page buffer: the vector just before `start`, the list from `start` on. */
  method FillRecord(page: array<u8>, interleaved: bool, start: nat, vector: seq<u8>, list: seq<u8>)
    requires |vector| <= start && start + |list| <= page.Length
    requires !interleaved ==> vector == []
    modifies page
    ensures page[..] == old(page[..start - |vector|]) + (vector + list) + old(page[start + |list|..])
  {
    ghost var before := page[..];
    if interleaved {
      CopyInto(page, start - |vector|, vector);
    }
    assert page[..start] == before[..start - |vector|] + vector;
    assert page[start + |list|..] == before[start + |list|..];
    CopyInto(page, start, list);
    ConcatAssoc(before[..start - |vector|], vector, list);
  }

  /** A page-local splice seen in the whole section written so far. */
  lemma SpliceInSection(written: seq<u8>, page: seq<u8>, from: nat, record: seq<u8>, page': seq<u8>)
    requires from + |record| <= |page|
    requires page' == page[..from] + record + page[from + |record|..]
    ensures var (t, at) := (written + page, |written| + from);
            written + page' == t[..at] + record + t[at + |record|..]
  {
  }

  /** Moves the buffer to a later page, flushing the ones it leaves behind. */
  method FlushUpTo(page: array<u8>, target: nat, written: seq<u8>, current: nat, ghost s: seq<u8>)
    returns (written': seq<u8>, current': nat)
    requires page.Length == PAGE_SIZE && |written| == current * PAGE_SIZE && current <= target
    requires |s| <= (current + 1) * PAGE_SIZE && written + page[..] == PadTo(s, (current + 1) * PAGE_SIZE)
    modifies page
    ensures current' == target && |written'| == current' * PAGE_SIZE
    ensures |s| <= (current' + 1) * PAGE_SIZE && written' + page[..] == PadTo(s, (current' + 1) * PAGE_SIZE)
  {
    written', current' := written, current;
    while target > current'
      invariant current <= current' <= target && |written'| == current' * PAGE_SIZE
      invariant |s| <= (current' + 1) * PAGE_SIZE && written' + page[..] == PadTo(s, (current' + 1) * PAGE_SIZE)
    {
      written' := written' + page[..];
      ClearPage(page);
      PadMore(s, (current' + 1) * PAGE_SIZE, PAGE_SIZE);
      current' := current' + 1;
    }
  }

  /** The buffer after a record was spliced in where its position says. */
  lemma RecordStored(records: seq<seq<u8>>, starts: seq<Position>, node: nat, written: seq<u8>, before: seq<u8>, after: seq<u8>)
    requires InOrder(records, starts) && node < |records|
    requires var start := starts[node];
             && |before| == PAGE_SIZE && |written| == start.page * PAGE_SIZE && start.offset + |records[node]| <= PAGE_SIZE
             && after == before[..start.offset] + records[node] + before[start.offset + |records[node]|..]
    requires var length := |written| + PAGE_SIZE;
             |Stream(records, starts, node)| <= length && written + before == PadTo(Stream(records, starts, node), length)
    ensures |Stream(records, starts, node + 1)| <= |written| + PAGE_SIZE
    ensures written + after == PadTo(Stream(records, starts, node + 1), |written| + PAGE_SIZE)
  {
    SpliceInSection(written, before, starts[node].offset, records[node], after);
    StoreRecord(records, starts, node, |written| + PAGE_SIZE);
  }

  /** After some records, the flushed pages and the page buffer are the padded bytes so far. */
  ghost predicate SoFar(records: seq<seq<u8>>, starts: seq<Position>, node: nat, written: seq<u8>, page: seq<u8>, current: nat)
    requires InOrder(records, starts) && node <= |records|
  {
    && |written| == current * PAGE_SIZE && current == EndOf(records, starts, node).page
    && |Stream(records, starts, node)| <= (current + 1) * PAGE_SIZE
    && written + page == PadTo(Stream(records, starts, node), (current + 1) * PAGE_SIZE)
  }

  /** Record `node` is the vector and the canonical list, and the locator says so and where it starts. */
  ghost predicate PlacedAt(records: seq<seq<u8>>, starts: seq<Position>, node: nat, locator: Locator, vector: seq<u8>, ns: seq<u32>)
    requires node < |records| == |starts|
  {
    && StrictlyIncreasing(ns) && records[node] == vector + Canonical(ns)
    && (StrictIsAscending(ns, 0); locator.Mode() == MinimalEncoding(ns))
    && starts[node].page == locator.page && starts[node].offset + |vector| == locator.byteOffset
  }

  /** One iteration of `write_adjacency_pages`. */
  method WriteRecord(page: array<u8>, interleaved: bool, locator: Locator, vector: seq<u8>, ns: seq<u32>,
                     written: seq<u8>, current: nat, ghost records: seq<seq<u8>>, ghost starts: seq<Position>, ghost node: nat)
    returns (written': seq<u8>, current': nat)
    requires page.Length == PAGE_SIZE && (!interleaved ==> vector == [])
    requires InOrder(records, starts) && node < |records| && PlacedAt(records, starts, node, locator, vector, ns)
    requires SoFar(records, starts, node, written, page[..], current)
    modifies page
    ensures SoFar(records, starts, node + 1, written', page[..], current')
  {
    assert Follows(records, starts, node);
    written', current' := FlushUpTo(page, locator.page, written, current, Stream(records, starts, node));
    var encoded := EncodeList(ns);
    ghost var before := page[..];
    FillRecord(page, interleaved, locator.byteOffset, vector, encoded.value.1);
    RecordStored(records, starts, node, written', before, page[..]);
  }

  /**
   * `write_adjacency_pages`, at any locators that place the records in order: each record at
   * its start, zeros elsewhere.
   */
  method WriteRecords(adjacency: seq<seq<u32>>, vectors: seq<seq<u8>>, interleaved: bool, locators: seq<Locator>,
                      ghost records: seq<seq<u8>>, ghost starts: seq<Position>)
    returns (section: seq<u8>)
    requires InOrder(records, starts) && |vectors| == |adjacency| == |locators| == |records|
    requires forall node :: 0 <= node < |records| ==> PlacedAt(records, starts, node, locators[node], vectors[node], adjacency[node])
    requires !interleaved ==> forall node :: 0 <= node < |records| ==> vectors[node] == []
    ensures section == SectionAt(records, starts)
  {
    var page := new u8[PAGE_SIZE](_ => 0);
    var written: seq<u8> := [];
    var current := 0;
    SoFarStarts(records, starts, page[..]);
    for node := 0 to |locators|
      invariant fresh(page) && SoFar(records, starts, node, written, page[..], current)
    {
      assert PlacedAt(records, starts, node, locators[node], vectors[node], adjacency[node]);
      written, current := WriteRecord(page, interleaved, locators[node], vectors[node], adjacency[node], written, current,
                                      records, starts, node);
    }
    section := written + page[..];
  }

  lemma SoFarStarts(records: seq<seq<u8>>, starts: seq<Position>, page: seq<u8>)
    requires InOrder(records, starts) && |page| == PAGE_SIZE && AllZero(page)
    ensures SoFar(records, starts, 0, [], page, 0)
  {
    assert [] + page == PadTo(Stream(records, starts, 0), PAGE_SIZE);
  }

  /** `write_adjacency_pages`, given the layout planned for the same lists. */
  method WritePages(adjacency: seq<seq<u32>>, vectors: seq<seq<u8>>, interleaved: bool, prefix: nat, layout: Layout)
    returns (section: seq<u8>)
    requires Sortable(adjacency) && |vectors| == |adjacency| && UniformVectors(vectors, prefix)
    requires FitPages(RecordSizes(adjacency, prefix)) && IsLayout(layout, adjacency, prefix)
    requires !interleaved ==> prefix == 0
    ensures Lengths(RecordsOf(vectors, adjacency)) == RecordSizes(adjacency, prefix)
    ensures section == Section(RecordsOf(vectors, adjacency))
  {
    RecordLengths(vectors, adjacency, prefix);
    ghost var records := RecordsOf(vectors, adjacency);
    PlannedInOrder(records);
    forall node | 0 <= node < |adjacency|
      ensures PlacedAt(records, PlannedStarts(records), node, layout.locators[node], vectors[node], adjacency[node])
    {
      RecordPlanned(adjacency, vectors, prefix, layout, records, node);
    }
    section := WriteRecords(adjacency, vectors, interleaved, layout.locators, records, PlannedStarts(records));
  }

  /** A planned locator says where the writer's record starts. */
  lemma RecordPlanned(adjacency: seq<seq<u32>>, vectors: seq<seq<u8>>, prefix: nat, layout: Layout, records: seq<seq<u8>>, node: nat)
    requires Sortable(adjacency) && |vectors| == |adjacency| && UniformVectors(vectors, prefix) && IsLayout(layout, adjacency, prefix)
    requires node < |adjacency| && records == RecordsOf(vectors, adjacency) && Lengths(records) == RecordSizes(adjacency, prefix)
    ensures PlacedAt(records, PlannedStarts(records), node, layout.locators[node], vectors[node], adjacency[node])
  {
    assert IsPlanned(layout.locators[node], adjacency, prefix, node);
  }
}
