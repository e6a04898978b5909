/**
 * Graphs that are planned and then refused. Every node of each is reachable from node 0, its lists
 * are distinct, in range and without self edges, and its degrees are within the format's bound.
 */
module RefusedGraphs {
  import opened AdjacencyIndex
  import opened AdjacencyIndexRoundTrip
  import opened AdjacencyLayout
  import opened AdjacencyList
  import opened BfsLocality
  import opened LocalityRemap
  import opened Prelude
  import opened RawVector

  /** Consecutive neighbours. */
  function Consecutive(lo: nat, n: nat): (r: seq<u32>)
    requires lo + n <= U32_RANGE
    ensures |r| == n && StrictlyIncreasing(r) && forall i :: 0 <= i < n ==> r[i] == lo + i
  {
    seq(n, i requires 0 <= i < n => lo + i)
  }

  /** After the first, each takes one byte. */
  lemma {:induction false} ConsecutiveDelta(lo: nat, n: nat, previous: nat)
    requires lo + n <= U32_RANGE && n > 0 && previous <= lo
    ensures Ascending(Consecutive(lo, n), previous)
    ensures |DeltaBytes(Consecutive(lo, n), previous)| == |VarintBytes(lo - previous)| + n - 1
    decreases n
  {
    var run := Consecutive(lo, n);
    StrictIsAscending(run, previous);
    assert run[1..] == Consecutive(lo + 1, n - 1);
    if n > 1 {
      ConsecutiveDelta(lo + 1, n - 1, lo);
      assert VarintBytes(1) == [1];
    }
  }

  lemma ConsecutiveSize(lo: nat, n: nat)
    requires n > 0 && lo + n <= U32_RANGE && |VarintBytes(lo)| < 4
    ensures |Canonical(Consecutive(lo, n))| == |VarintBytes(lo)| + n - 1
  {
    ConsecutiveDelta(lo, n, 0);
  }

  /** Every node is at most two edges away from node 0. */
  ghost predicate FullyReachable(g: Adjacency) {
    forall v :: 0 <= v < |g| ==> v in Within(g, 0, 2)
  }

  /** A clean, fully reachable graph for which planning succeeds and gives an index that the reader refuses. */
  ghost predicate Refused(g: Adjacency, shape: Shape, layout: Layout) {
    && Sortable(g) && Clean(g, shape.maxDegree) && FullyReachable(g) && Describes(shape, g, layout)
    && RelativesFit(layout.locators) && !IndexAccepted(shape, IndexOf(layout.locators))
  }

  lemma OneStep(g: Adjacency, v: nat)
    requires Edge(g, 0, v)
    ensures v in Within(g, 0, 1) && v in Within(g, 0, 2)
  {
    assert 0 in Within(g, 0, 0) && NextTo(g, Within(g, 0, 0), v);
  }

  lemma TwoSteps(g: Adjacency, u: nat, v: nat)
    requires Edge(g, 0, u) && Edge(g, u, v)
    ensures v in Within(g, 0, 2)
  {
    OneStep(g, u);
    assert NextTo(g, Within(g, 0, 1), v);
  }

  // ---------------------------------------------------------------------------------------
  // Interleaved vectors.

  /** Node 0 links four nodes without neighbours. */
  function Star(): (g: Adjacency)
    ensures |g| == 5 && Sortable(g) && forall k :: 0 <= k < 5 ==> g[k] == if k == 0 then Consecutive(1, 4) else []
  {
    [Consecutive(1, 4), [], [], [], []]
  }

  lemma StarIsReal()
    ensures Clean(Star(), 32) && FullyReachable(Star())
  {
    forall v | 0 <= v < 5
      ensures v in Within(Star(), 0, 2)
    {
      if v > 0 {
        assert Star()[0][v - 1] == v;
        OneStep(Star(), v);
      } else {
        assert 0 in Within(Star(), 0, 0) && 0 in Within(Star(), 0, 1);
      }
    }
    forall v | 0 <= v < 5
      ensures CleanList(Star()[v], 5, v, 32)
    {
    }
  }

  lemma StarSizes(k: nat)
    requires k < 5
    ensures RecordSizes(Star(), 2046)[k] == if k == 0 then 2050 else 2046
  {
    if k == 0 {
      assert VarintBytes(1) == [1];
      ConsecutiveSize(1, 4);
    } else {
      CanonicalSize([]);
    }
  }

  lemma StarRefused(shape: Shape, layout: Layout)
    requires shape.interleaved && shape.recordSize == 2046 && Describes(shape, Star(), layout)
    ensures RelativesFit(layout.locators) && !IndexAccepted(shape, IndexOf(layout.locators))
  {
    StarSizes(0);
    StarSizes(1);
    assert After(RecordSizes(Star(), 2046), 1) == Position(0, 2050);
    Planned(shape, Star(), layout, 1);
    PlannedIndexAccepted(shape, Star(), layout);
  }

  /** With 1023-component F16 vectors, the list of node 1 starts at 2050 + 2046, the end of the page. */
  method InterleavedCounterexample() returns (shape: Shape, layout: Layout)
    ensures shape.interleaved && shape.element == F16 && shape.recordSize == 1023 * F16.Size()
    ensures Refused(Star(), shape, layout)
  {
    forall k | 0 <= k < 5
      ensures RecordSizes(Star(), 2046)[k] <= PAGE_SIZE
    {
      StarSizes(k);
    }
    var plan := PlanLayout(Star(), 2046);
    layout := plan.value;
    shape := Shape(5, 32, true, 2046, F16, SerializedLen(5), layout.pageCount * PAGE_SIZE);
    StarIsReal();
    StarRefused(shape, layout);
  }

  // ---------------------------------------------------------------------------------------
  // Separate vectors.

  const TREE_NODES: nat := 4093

  /** Node 0 links nodes 1 to 1023, nodes 1 to 3 link all others, node 4 links back; the others have no neighbours. */
  function TreeList(k: nat): (r: seq<u32>)
    ensures StrictlyIncreasing(r)
  {
    if k == 0 then Consecutive(1, 1023)
    else if k <= 3 then Consecutive(1024 + (k - 1) * 1023, 1023)
    else if k == 4 then [0]
    else []
  }

  function Tree(): (g: Adjacency)
    ensures |g| == TREE_NODES && Sortable(g) && forall k :: 0 <= k < TREE_NODES ==> g[k] == TreeList(k)
  {
    seq(TREE_NODES, k requires 0 <= k < TREE_NODES => TreeList(k))
  }

  lemma TreeEdge(u: nat, v: nat)
    requires u <= 3 && v < TREE_NODES
    requires if u == 0 then 1 <= v <= 1023 else 0 <= v - (1024 + (u - 1) * 1023) < 1023
    ensures Edge(Tree(), u, v)
  {
    var i := if u == 0 then v - 1 else v - (1024 + (u - 1) * 1023);
    assert Tree()[u][i] == v;
  }

  lemma TreeReached(v: nat)
    requires v < TREE_NODES
    ensures v in Within(Tree(), 0, 2)
  {
    if v == 0 {
      assert 0 in Within(Tree(), 0, 0) && 0 in Within(Tree(), 0, 1);
    } else if v <= 1023 {
      TreeEdge(0, v);
      OneStep(Tree(), v);
    } else {
      var u := if v < 2047 then 1 else if v < 3070 then 2 else 3;
      TreeEdge(0, u);
      TreeEdge(u, v);
      TwoSteps(Tree(), u, v);
    }
  }

  lemma TreeClean(k: nat)
    requires k < TREE_NODES
    ensures CleanList(TreeList(k), TREE_NODES, k, 1023)
  {
  }

  lemma TreeIsReal()
    ensures Clean(Tree(), 1023) && FullyReachable(Tree())
  {
    forall v | 0 <= v < TREE_NODES
      ensures v in Within(Tree(), 0, 2) && CleanList(Tree()[v], TREE_NODES, v, 1023)
    {
      TreeReached(v);
      TreeClean(v);
    }
  }

  lemma TwoByteVarint(v: nat)
    requires 0x80 <= v < 0x4000
    ensures |VarintBytes(v)| == 2
  {
    assert VarintBytes(v) == [v % 0x80 + 0x80] + VarintBytes(v / 0x80);
  }

  lemma TreeSizes(k: nat)
    requires k < TREE_NODES
    ensures RecordSizes(Tree(), 0)[k] == if k == 0 then 1023 else if k <= 3 then 1024 else if k == 4 then 1 else 0
  {
    if k == 0 {
      assert VarintBytes(1) == [1];
      ConsecutiveSize(1, 1023);
    } else if k <= 3 {
      TwoByteVarint(1024 + (k - 1) * 1023);
      ConsecutiveSize(1024 + (k - 1) * 1023, 1023);
    } else if k == 4 {
      assert [0] == Consecutive(0, 1) && VarintBytes(0) == [0];
      ConsecutiveSize(0, 1);
    } else {
      CanonicalSize([]);
    }
  }

  /** The first five lists fill the first page. */
  lemma {:induction false} TreeCursor(k: nat)
    requires k < TREE_NODES
    ensures After(RecordSizes(Tree(), 0), k) ==
            Position(0, if k == 0 then 0 else if k <= 4 then 1023 + (k - 1) * 1024 else PAGE_SIZE)
  {
    if k > 0 {
      TreeCursor(k - 1);
      TreeSizes(k - 1);
    }
  }

  lemma TreeRefused(shape: Shape, layout: Layout)
    requires !shape.interleaved && Describes(shape, Tree(), layout)
    ensures RelativesFit(layout.locators) && !IndexAccepted(shape, IndexOf(layout.locators))
  {
    var last := TREE_NODES - 1;
    TreeCursor(last);
    TreeSizes(last);
    Planned(shape, Tree(), layout, last);
    PlannedIndexAccepted(shape, Tree(), layout);
  }

  lemma TreeFits()
    ensures FitPages(RecordSizes(Tree(), 0))
  {
    forall k | 0 <= k < TREE_NODES
      ensures RecordSizes(Tree(), 0)[k] <= PAGE_SIZE
    {
      TreeSizes(k);
    }
  }

  /** The last list, and every empty one before it, starts at the end of the first page. */
  method CompactCounterexample() returns (shape: Shape, layout: Layout)
    ensures !shape.interleaved && Refused(Tree(), shape, layout)
  {
    TreeFits();
    var plan := PlanLayout(Tree(), 0);
    layout := plan.value;
    shape := Shape(TREE_NODES, 1023, false, 512, F32, SerializedLen(TREE_NODES), layout.pageCount * PAGE_SIZE);
    TreeIsReal();
    assert forall k :: 0 <= k < TREE_NODES ==> |Tree()[k]| <= 1023;
    TreeRefused(shape, layout);
  }
}
