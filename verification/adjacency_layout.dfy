/**
 * Packing of adjacency records into 4096-byte pages. A record is an optional raw
 * vector followed by an encoded adjacency list; it never crosses a page.
 */
module AdjacencyLayout {
  import opened Prelude
  import opened AdjacencyList

  const RAW_U32_FLAG: nat := 0x8000

  datatype Locator = Locator(page: u32, byteOffset: u16, degreeAndFlags: u16) {
    function Degree(): nat {
      degreeAndFlags % RAW_U32_FLAG
    }

    function Mode(): Encoding {
      if degreeAndFlags < RAW_U32_FLAG then DeltaVarint else RawU32
    }

    /** `adjacency_locator_absolute_offset`; a `u32` page cannot overflow it. */
    function AbsoluteOffset(): u64 {
      page * PAGE_SIZE + byteOffset
    }
  }

  /** The 16-bit degree and mode word of a list. */
  function DegreeAndFlags(degree: nat, encoding: Encoding): nat {
    if encoding.DeltaVarint? then degree else degree + RAW_U32_FLAG
  }

  /** `AdjacencyLocator::new`. */
  function NewLocator(page: u32, byteOffset: u16, degree: nat, encoding: Encoding): (r: Result<Locator>)
    ensures r.Ok? <==> degree < RAW_U32_FLAG
    ensures r.Ok? ==> r.value.Degree() == degree && r.value.Mode() == encoding
                      && r.value.page == page && r.value.byteOffset == byteOffset
  {
    if degree >= RAW_U32_FLAG then Err(InvalidInput)
    else Ok(Locator(page, byteOffset, DegreeAndFlags(degree, encoding)))
  }

  datatype Layout = Layout(locators: seq<Locator>, pageCount: nat)

  // ---------------------------------------------------------------------------
  // Where records go
  // ---------------------------------------------------------------------------

  /** A position in the adjacency section; `offset` may be 4096 when the page is exactly full. */
  datatype Position = Position(page: nat, offset: nat) {
    function Absolute(): nat {
      page * PAGE_SIZE + offset
    }
  }

  /** Where a record of `size` bytes goes when the write position is `at`. */
  function Placed(at: Position, size: nat): Position {
    if at.offset + size > PAGE_SIZE then Position(at.page + 1, 0) else at
  }

  /** The write position once the first `k` records are placed. */
  function After(sizes: seq<nat>, k: nat): Position
    requires k <= |sizes|
    decreases k, 0
  {
    if k == 0 then Position(0, 0) else
      var start := StartOf(sizes, k - 1);
      Position(start.page, start.offset + sizes[k - 1])
  }

  /** Where record `k` starts. */
  function StartOf(sizes: seq<nat>, k: nat): Position
    requires k < |sizes|
    decreases k, 1
  {
    Placed(After(sizes, k), sizes[k])
  }

  predicate FitPages(sizes: seq<nat>) {
    forall k :: 0 <= k < |sizes| ==> sizes[k] <= PAGE_SIZE
  }

  lemma {:induction false} AfterInPage(sizes: seq<nat>, k: nat)
    requires FitPages(sizes) && k <= |sizes|
    ensures After(sizes, k).offset <= PAGE_SIZE && After(sizes, k).page <= k
    ensures After(sizes, k).page == k ==> k == 0
    ensures k < |sizes| ==> StartOf(sizes, k).offset + sizes[k] <= PAGE_SIZE
  {
    if k > 0 {
      AfterInPage(sizes, k - 1);
    }
  }

  lemma PlacedIsLeast(at: Position, size: nat, other: Position)
    requires size <= PAGE_SIZE && at.offset <= PAGE_SIZE && other.offset + size <= PAGE_SIZE && at.Absolute() <= other.Absolute()
    ensures Placed(at, size).Absolute() <= other.Absolute()
  {
  }

  /** Greedy: no place for record `k` behind the records before it starts earlier and keeps it in one page. */
  lemma StartIsLeast(sizes: seq<nat>, k: nat, other: Position)
    requires FitPages(sizes) && k < |sizes| && other.offset <= PAGE_SIZE
    requires After(sizes, k).Absolute() <= other.Absolute() && other.offset + sizes[k] <= PAGE_SIZE
    ensures StartOf(sizes, k).Absolute() <= other.Absolute()
  {
    AfterInPage(sizes, k);
    PlacedIsLeast(After(sizes, k), sizes[k], other);
  }

  /** One record later the page has grown by at most one, and then the new record opens it. */
  lemma StartStep(sizes: seq<nat>, k: nat)
    requires FitPages(sizes) && k + 1 < |sizes|
    ensures var (here, next) := (StartOf(sizes, k), StartOf(sizes, k + 1));
            next == Position(here.page, here.offset + sizes[k]) || next == Position(here.page + 1, 0)
    ensures StartOf(sizes, k).Absolute() + sizes[k] <= StartOf(sizes, k + 1).Absolute()
  {
    AfterInPage(sizes, k);
  }

  /** Records are placed in order, and `k - j` records later at most `k - j` pages on. */
  lemma {:induction false} StartSpread(sizes: seq<nat>, j: nat, k: nat)
    requires FitPages(sizes) && j <= k < |sizes|
    ensures StartOf(sizes, j).Absolute() <= StartOf(sizes, k).Absolute()
    ensures StartOf(sizes, j).page <= StartOf(sizes, k).page <= StartOf(sizes, j).page + (k - j)
    ensures StartOf(sizes, k).page == StartOf(sizes, j).page + (k - j) && k > j ==> StartOf(sizes, k).offset == 0
    decreases k
  {
    if j < k {
      StartSpread(sizes, j, k - 1);
      StartStep(sizes, k - 1);
    }
  }

  // ---------------------------------------------------------------------------
  // Planning
  // ---------------------------------------------------------------------------

  predicate Sortable(adjacency: seq<seq<u32>>) {
    forall k :: 0 <= k < |adjacency| ==> StrictlyIncreasing(adjacency[k])
  }

  /** Bytes of record `k`: the raw vector, if interleaved, and the list. */
  function RecordSizes(adjacency: seq<seq<u32>>, prefix: nat): (sizes: seq<nat>)
    requires Sortable(adjacency)
    ensures |sizes| == |adjacency|
  {
    seq(|adjacency|, k requires 0 <= k < |adjacency| => prefix + |Canonical(adjacency[k])|)
  }

  /** The locator `plan_adjacency_layout` gives record `k`. */
  ghost predicate IsPlanned(locator: Locator, adjacency: seq<seq<u32>>, prefix: nat, k: nat)
    requires Sortable(adjacency) && k < |adjacency|
  {
    var start := StartOf(RecordSizes(adjacency, prefix), k);
    && locator.page == start.page
    && locator.byteOffset == start.offset + prefix
    && locator.Degree() == |adjacency[k]|
    && (StrictIsAscending(adjacency[k], 0); locator.Mode() == MinimalEncoding(adjacency[k]))
  }

  /** The layout of a graph: every list planned, and no more pages than its records reach. */
  ghost predicate IsLayout(layout: Layout, adjacency: seq<seq<u32>>, prefix: nat)
    requires Sortable(adjacency)
  {
    && |layout.locators| == |adjacency|
    && (forall k :: 0 <= k < |adjacency| ==> IsPlanned(layout.locators[k], adjacency, prefix, k))
    && layout.pageCount == After(RecordSizes(adjacency, prefix), |adjacency|).page + 1
  }

  /** A list shorter than a page has a degree that fits its 15-bit field. */
  lemma {:induction false} DegreeAtMostBytes(ns: seq<u32>, previous: nat)
    requires Ascending(ns, previous)
    ensures |ns| <= |DeltaBytes(ns, previous)|
  {
    if ns != [] {
      DegreeAtMostBytes(ns[1..], ns[0]);
    }
  }

  lemma CanonicalHoldsDegree(ns: seq<u32>)
    requires StrictlyIncreasing(ns)
    ensures |ns| <= |Canonical(ns)|
  {
    StrictIsAscending(ns, 0);
    DegreeAtMostBytes(ns, 0);
  }

  /**
   * `plan_adjacency_layout`. It fails only on an unsorted list, on a record longer than a
   * page, or when the pages outgrow `u32`; fewer than 2^32 nodes never do the last.
   */
  method PlanLayout(adjacency: seq<seq<u32>>, prefix: nat) returns (r: Result<Layout>)
    ensures r.Ok? ==> Sortable(adjacency) && FitPages(RecordSizes(adjacency, prefix)) && IsLayout(r.value, adjacency, prefix)
    ensures r.Err? ==> r.kind == InvalidInput
    ensures Sortable(adjacency) && FitPages(RecordSizes(adjacency, prefix)) && |adjacency| < U32_RANGE ==> r.Ok?
  {
    var locators: seq<Locator> := [];
    var page: u32 := 0;
    var byteOffset: nat := 0;
    for k := 0 to |adjacency|
      invariant forall i :: 0 <= i < k ==> StrictlyIncreasing(adjacency[i])
      invariant forall i :: 0 <= i < k ==> prefix + |Canonical(adjacency[i])| <= PAGE_SIZE
      invariant |locators| == k && byteOffset <= PAGE_SIZE
      invariant page <= k
      invariant Sortable(adjacency) ==> After(RecordSizes(adjacency, prefix), k) == Position(page, byteOffset)
      invariant Sortable(adjacency) ==> forall i :: 0 <= i < k ==> IsPlanned(locators[i], adjacency, prefix, i)
    {
      var plan := PlanList(adjacency[k]);
      if plan.Err? {
        return Err(plan.kind);
      }
      var (encoding, listBytes) := plan.value;
      var recordBytes := prefix + listBytes;
      if recordBytes > PAGE_SIZE {
        assert Sortable(adjacency) ==> RecordSizes(adjacency, prefix)[k] > PAGE_SIZE;
        return Err(InvalidInput);
      }
      if byteOffset + recordBytes > PAGE_SIZE {
        if page + 1 >= U32_RANGE {
          return Err(InvalidInput);
        }
        page := page + 1;
        byteOffset := 0;
      }
      CanonicalHoldsDegree(adjacency[k]);
      var locator := NewLocator(page, byteOffset + prefix, |adjacency[k]|, encoding);
      assert Sortable(adjacency) ==> IsPlanned(locator.value, adjacency, prefix, k);
      locators := locators + [locator.value];
      byteOffset := byteOffset + recordBytes;
    }
    return Ok(Layout(locators, page + 1));
  }
}
