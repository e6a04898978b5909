/** Breadth-first relabelling: nodes are renumbered in the order a search from the entry meets them. */
module BfsLocality {
  import opened Prelude
  import RowIdOrder

  type Adjacency = seq<seq<u32>>

  /** An edge to an existing node; other targets are ignored. */
  predicate Edge(g: Adjacency, u: nat, v: nat) {
    u < |g| && v < |g| && v in g[u]
  }

  predicate NextTo(g: Adjacency, near: set<nat>, v: nat) {
    exists u :: u in near && Edge(g, u, v)
  }

  /** The nodes at most d edges away from the entry. */
  function Within(g: Adjacency, entry: nat, d: nat): set<nat> {
    if d == 0 then {entry} else
    var near := Within(g, entry, d - 1);
    near + set v | 0 <= v < |g| && NextTo(g, near, v)
  }

  predicate Unique(s: seq<nat>) {
    forall i, j :: 0 <= i < j < |s| ==> s[i] != s[j]
  }

  predicate InRange(s: seq<nat>, n: nat) {
    forall i :: 0 <= i < |s| ==> s[i] < n
  }

  /** Node j of the search was met first from its parent, an earlier node. */
  predicate FirstFrom(g: Adjacency, order: seq<nat>, parent: seq<nat>, j: nat, started: nat)
    requires |parent| == |order| && 0 < j < |order|
  {
    && parent[j] < j && parent[j] < started
    && Edge(g, order[parent[j]], order[j])
    && forall k :: 0 <= k < parent[j] ==> !Edge(g, order[k], order[j])
  }

  /** The nodes met so far, in order, with the node each was met from. */
  predicate SearchOrder(g: Adjacency, entry: nat, order: seq<nat>, parent: seq<nat>, started: nat) {
    && order != [] && order[0] == entry && Unique(order) && InRange(order, |g|) && |parent| == |order| && started <= |order|
    && (forall j :: 0 < j < |order| ==> FirstFrom(g, order, parent, j, started))
    && (forall i, j :: 0 < i < j < |order| ==> parent[i] <= parent[j])
  }

  /** `u` occurs in a list before any `v` does. */
  predicate Earlier(list: seq<u32>, u: nat, v: nat) {
    exists i :: 0 <= i < |list| && list[i] == u && forall k :: 0 <= k <= i ==> list[k] != v
  }

  /** Nodes met from the same parent were met in the order of its list. */
  ghost predicate SiblingOrder(g: Adjacency, order: seq<nat>, parent: seq<nat>) {
    |parent| == |order|
    && forall i, j :: 0 < i < j < |order| && parent[i] == parent[j] && parent[i] < |order| && order[parent[i]] < |g| ==>
         Earlier(g[order[parent[i]]], order[i], order[j])
  }

  /** Everything next to the first n nodes has been met. */
  ghost predicate Closed(g: Adjacency, order: seq<nat>, n: nat)
    requires n <= |order|
  {
    forall k, v :: 0 <= k < n && Edge(g, order[k], v) ==> v in order
  }

  // ---------------------------------------------------------------------------------------
  // What a finished search order says about distances.

  lemma {:induction false} WithinIsMet(g: Adjacency, entry: nat, order: seq<nat>, parent: seq<nat>, d: nat, v: nat)
    requires SearchOrder(g, entry, order, parent, |order|) && Closed(g, order, |order|) && v in Within(g, entry, d)
    ensures v in order
  {
    if d > 0 && v !in Within(g, entry, d - 1) {
      var u :| u in Within(g, entry, d - 1) && Edge(g, u, v);
      WithinIsMet(g, entry, order, parent, d - 1, u);
      var k :| 0 <= k < |order| && order[k] == u;
      assert Edge(g, order[k], v);
    } else if d > 0 {
      WithinIsMet(g, entry, order, parent, d - 1, v);
    } else {
      assert order[0] == v;
    }
  }

  lemma {:induction false} WithinGrows(g: Adjacency, entry: nat, d: nat, e: nat)
    requires d <= e
    ensures Within(g, entry, d) <= Within(g, entry, e)
    decreases e
  {
    if d < e {
      WithinGrows(g, entry, d, e - 1);
    }
  }

  lemma EdgeWithin(g: Adjacency, entry: nat, d: nat, u: nat, v: nat)
    requires u in Within(g, entry, d) && Edge(g, u, v)
    ensures v in Within(g, entry, d + 1)
  {
  }

  lemma {:induction false} MetIsWithin(g: Adjacency, entry: nat, order: seq<nat>, parent: seq<nat>, j: nat)
    requires SearchOrder(g, entry, order, parent, |order|) && j < |order|
    ensures order[j] in Within(g, entry, j)
  {
    if j > 0 {
      assert FirstFrom(g, order, parent, j, |order|);
      MetIsWithin(g, entry, order, parent, parent[j]);
      EdgeWithin(g, entry, parent[j], order[parent[j]], order[j]);
      WithinGrows(g, entry, parent[j] + 1, j);
    }
  }

  /**
   * Distances never decrease along the order: if a node is within d edges of the entry, so is
   * every node met before it.
   */
  lemma {:induction false} LevelOrder(g: Adjacency, entry: nat, order: seq<nat>, parent: seq<nat>, d: nat, i: nat, j: nat)
    requires SearchOrder(g, entry, order, parent, |order|) && Closed(g, order, |order|) && i <= j < |order|
    requires order[j] in Within(g, entry, d)
    ensures order[i] in Within(g, entry, d)
    decreases d
  {
    if d == 0 {
      assert order[j] == order[0];
    } else if order[j] in Within(g, entry, d - 1) {
      LevelOrder(g, entry, order, parent, d - 1, i, j);
    } else if i == 0 {
      WithinGrows(g, entry, 0, d);
    } else {
      var q := MetFrom(g, entry, order, parent, d - 1, j);
      assert FirstFrom(g, order, parent, i, |order|);
      LevelOrder(g, entry, order, parent, d - 1, parent[i], q);
      EdgeWithin(g, entry, d - 1, order[parent[i]], order[i]);
    }
  }

  /** A node one edge past the d nearest is next to one of them, at or after its parent. */
  lemma MetFrom(g: Adjacency, entry: nat, order: seq<nat>, parent: seq<nat>, d: nat, j: nat) returns (q: nat)
    requires SearchOrder(g, entry, order, parent, |order|) && Closed(g, order, |order|) && 0 < j < |order|
    requires order[j] in Within(g, entry, d + 1) && order[j] !in Within(g, entry, d)
    ensures q < |order| && order[q] in Within(g, entry, d) && parent[j] <= q
    ensures forall i :: 0 < i <= j ==> parent[i] <= q
  {
    var u :| u in Within(g, entry, d) && Edge(g, u, order[j]);
    WithinIsMet(g, entry, order, parent, d, u);
    q :| 0 <= q < |order| && order[q] == u;
    assert FirstFrom(g, order, parent, j, |order|);
  }

  // ---------------------------------------------------------------------------------------
  // The search.

  predicate Marks(visited: seq<bool>, order: seq<nat>, n: nat) {
    |visited| == n && forall v :: 0 <= v < n ==> (visited[v] <==> v in order)
  }

  lemma UniqueBounded(order: seq<nat>, n: nat)
    requires Unique(order) && InRange(order, n)
    ensures |order| <= n
    ensures (forall v :: 0 <= v < n ==> v in order) ==> |order| == n
  {
    RowIdOrder.DistinctCount(order);
    RowIdOrder.BelowCount(n);
    SubsetSize(RowIdOrder.Seen(order), RowIdOrder.Below(n));
    if forall v :: 0 <= v < n ==> v in order {
      forall v | v in RowIdOrder.Below(n)
        ensures v in RowIdOrder.Seen(order)
      {
        assert v in order;
      }
      assert RowIdOrder.Seen(order) == RowIdOrder.Below(n);
    }
  }

  lemma {:induction false} SubsetSize(a: set<nat>, b: set<nat>)
    requires a <= b
    ensures |a| <= |b|
  {
    if x :| x in a {
      SubsetSize(a - {x}, b - {x});
    }
  }

  lemma MeetNode(g: Adjacency, entry: nat, order: seq<nat>, parent: seq<nat>, t: nat, v: nat)
    requires SearchOrder(g, entry, order, parent, t + 1) && t < |order| && Closed(g, order, t)
    requires Edge(g, order[t], v) && v !in order
    ensures SearchOrder(g, entry, order + [v], parent + [t], t + 1)
  {
    var order' := order + [v];
    var parent' := parent + [t];
    var started := t + 1;
    forall j | 0 < j < |order'|
      ensures FirstFrom(g, order', parent', j, started) && parent'[j] <= t
    {
      if j < |order| {
        assert FirstFrom(g, order, parent, j, started);
        assert forall k :: 0 <= k < parent[j] ==> order'[k] == order[k];
      }
    }
  }

  lemma StartNext(g: Adjacency, entry: nat, order: seq<nat>, parent: seq<nat>, started: nat)
    requires SearchOrder(g, entry, order, parent, started) && started < |order|
    ensures SearchOrder(g, entry, order, parent, started + 1)
  {
    var next := started + 1;
    forall j | 0 < j < |order|
      ensures FirstFrom(g, order, parent, j, next)
    {
      assert FirstFrom(g, order, parent, j, started);
    }
  }

  lemma ParentsStarted(g: Adjacency, entry: nat, order: seq<nat>, parent: seq<nat>, started: nat)
    requires SearchOrder(g, entry, order, parent, started)
    ensures forall j :: 0 < j < |parent| ==> parent[j] < started
  {
    forall j | 0 < j < |parent|
      ensures parent[j] < started
    {
      assert FirstFrom(g, order, parent, j, started);
    }
  }

  lemma ClosedMore(g: Adjacency, order: seq<nat>, more: seq<nat>, n: nat)
    requires n <= |order| && Closed(g, order, n)
    ensures Closed(g, order + more, n)
  {
    forall k, v | 0 <= k < n && Edge(g, (order + more)[k], v)
      ensures v in order + more
    {
      assert Edge(g, order[k], v);
    }
  }

  /** A node met now comes after all that were met from the same parent. */
  lemma MeetSibling(g: Adjacency, order: seq<nat>, parent: seq<nat>, t: nat, e: nat)
    requires SiblingOrder(g, order, parent) && t < |order| && order[t] < |g| && e < |g[order[t]]|
    requires g[order[t]][e] < |g| && g[order[t]][e] !in order && forall j :: 0 < j < |parent| ==> parent[j] <= t
    requires forall i :: 0 <= i < e && g[order[t]][i] < |g| ==> g[order[t]][i] in order
    requires forall j :: 0 < j < |order| && parent[j] == t ==> order[j] in g[order[t]][..e]
    ensures SiblingOrder(g, order + [g[order[t]][e]], parent + [t])
  {
    var (list, v) := (g[order[t]], g[order[t]][e]);
    var (order', parent') := (order + [v], parent + [t]);
    forall i, j | 0 < i < j < |order'| && parent'[i] == parent'[j] && parent'[i] < |order'| && order'[parent'[i]] < |g|
      ensures Earlier(g[order'[parent'[i]]], order'[i], order'[j])
    {
      if j < |order| {
        assert Earlier(g[order[parent[i]]], order[i], order[j]);
      } else {
        assert order[i] in list[..e];
        var k :| 0 <= k < e && list[k] == order[i];
        assert list[k] == order'[i] && forall l :: 0 <= l <= k ==> list[l] != v;
      }
    }
  }

  /** Visits the neighbours of node t of the order, which has just left the queue. */
  method Expand(g: Adjacency, entry: nat, visited: seq<bool>, queue: seq<nat>, node: nat, ghost done: seq<nat>, ghost parent: seq<nat>)
      returns (visited': seq<bool>, queue': seq<nat>, ghost parent': seq<nat>)
    requires done != [] && done[|done| - 1] == node < |g|
    requires SearchOrder(g, entry, done + queue, parent, |done|) && Closed(g, done + queue, |done| - 1)
    requires Marks(visited, done + queue, |g|)
    requires SiblingOrder(g, done + queue, parent) && forall j :: 0 < j < |parent| ==> parent[j] < |done| - 1
    ensures SearchOrder(g, entry, done + queue', parent', |done|) && Closed(g, done + queue', |done|)
    ensures Marks(visited', done + queue', |g|) && SiblingOrder(g, done + queue', parent')
  {
    visited', queue', parent' := visited, queue, parent;
    ghost var t := |done| - 1;
    for e := 0 to |g[node]|
      invariant SearchOrder(g, entry, done + queue', parent', |done|) && Closed(g, done + queue', t)
      invariant Marks(visited', done + queue', |g|)
      invariant forall i :: 0 <= i < e && g[node][i] < |g| ==> g[node][i] in done + queue'
      invariant SiblingOrder(g, done + queue', parent')
      invariant forall j :: 0 < j < |parent'| && parent'[j] == t ==> (done + queue')[j] in g[node][..e]
    {
      var neighbor := g[node][e];
      if neighbor < |g| && !visited'[neighbor] {
        ghost var order := done + queue';
        ParentsStarted(g, entry, order, parent', |done|);
        MeetSibling(g, order, parent', t, e);
        MeetNode(g, entry, order, parent', t, neighbor);
        ClosedMore(g, order, [neighbor], t);
        assert done + (queue' + [neighbor]) == order + [neighbor];
        visited', queue', parent' := visited'[neighbor := true], queue' + [neighbor], parent' + [t];
      }
    }
  }

  method Traverse(g: Adjacency, entry: nat) returns (order: seq<nat>, visited: seq<bool>, ghost parent: seq<nat>)
    requires entry < |g|
    ensures SearchOrder(g, entry, order, parent, |order|) && Closed(g, order, |order|) && Marks(visited, order, |g|)
    ensures SiblingOrder(g, order, parent)
  {
    visited := seq(|g|, _ => false)[entry := true];
    var queue := [entry];
    order, parent := [], [0];
    while queue != []
      invariant SearchOrder(g, entry, order + queue, parent, |order|) && Closed(g, order + queue, |order|)
      invariant Marks(visited, order + queue, |g|) && SiblingOrder(g, order + queue, parent)
      decreases |g| - |order|
    {
      var node := queue[0];
      ghost var all := order + queue;
      assert all == (order + [node]) + queue[1..];
      assert node == all[|order|] && InRange(all, |g|);
      ParentsStarted(g, entry, all, parent, |order|);
      StartNext(g, entry, all, parent, |order|);
      order, queue := order + [node], queue[1..];
      visited, queue, parent := Expand(g, entry, visited, queue, node, order, parent);
      UniqueBounded(order + queue, |g|);
    }
    assert order + queue == order;
  }

  // ---------------------------------------------------------------------------------------
  // There is one such order.

  /** A finished breadth-first search, neighbours taken in the order of the lists. */
  ghost predicate BreadthFirst(g: Adjacency, entry: nat, order: seq<nat>, parent: seq<nat>) {
    SearchOrder(g, entry, order, parent, |order|) && Closed(g, order, |order|) && SiblingOrder(g, order, parent)
  }

  lemma EarlierOneWay(list: seq<u32>, u: nat, v: nat)
    requires Earlier(list, u, v)
    ensures !Earlier(list, v, u)
  {
  }

  lemma PrefixAt(a: seq<nat>, b: seq<nat>, k: nat)
    requires k <= |a| && k <= |b| && a[..k] == b[..k]
    ensures forall j :: 0 <= j < k ==> a[j] == b[j]
  {
    forall j | 0 <= j < k
      ensures a[j] == b[j]
    {
      assert a[..k][j] == b[..k][j];
    }
  }

  /** The next node of one search is met by the other, later or now, and no sooner from its parent's side. */
  lemma MetByOther(g: Adjacency, entry: nat, a: seq<nat>, pa: seq<nat>, b: seq<nat>, pb: seq<nat>, k: nat) returns (m: nat)
    requires BreadthFirst(g, entry, a, pa) && BreadthFirst(g, entry, b, pb) && 0 < k < |a| && k < |b| && a[..k] == b[..k]
    ensures k <= m < |b| && b[m] == a[k] && pb[k] <= pb[m] <= pa[k] < k
  {
    PrefixAt(a, b, k);
    assert FirstFrom(g, a, pa, k, |a|);
    assert Edge(g, b[pa[k]], a[k]);
    assert a[k] in b;
    m :| 0 <= m < |b| && b[m] == a[k];
    assert FirstFrom(g, b, pb, m, |b|);
  }

  lemma SameNext(g: Adjacency, entry: nat, a: seq<nat>, pa: seq<nat>, b: seq<nat>, pb: seq<nat>, k: nat)
    requires BreadthFirst(g, entry, a, pa) && BreadthFirst(g, entry, b, pb) && k < |a| && k < |b| && a[..k] == b[..k]
    ensures a[k] == b[k]
  {
    if k > 0 {
      var m := MetByOther(g, entry, a, pa, b, pb, k);
      var n := MetByOther(g, entry, b, pb, a, pa, k);
      var p := pa[k];
      PrefixAt(a, b, k);
      if m > k && n > k {
        assert Earlier(g[b[p]], b[k], b[m]) && Earlier(g[a[p]], a[k], a[n]);
        EarlierOneWay(g[a[p]], a[k], b[k]);
      }
    }
  }

  lemma {:induction false} SamePrefix(g: Adjacency, entry: nat, a: seq<nat>, pa: seq<nat>, b: seq<nat>, pb: seq<nat>, k: nat)
    requires BreadthFirst(g, entry, a, pa) && BreadthFirst(g, entry, b, pb) && k <= |a| && k <= |b|
    ensures a[..k] == b[..k]
  {
    if k > 0 {
      SamePrefix(g, entry, a, pa, b, pb, k - 1);
      SameNext(g, entry, a, pa, b, pb, k - 1);
      assert a[..k] == a[..k - 1] + [a[k - 1]] && b[..k] == b[..k - 1] + [b[k - 1]];
    }
  }

  /** The next node of one search is met by the other at all. */
  lemma NextWasMet(g: Adjacency, entry: nat, a: seq<nat>, pa: seq<nat>, b: seq<nat>, pb: seq<nat>, k: nat)
    requires BreadthFirst(g, entry, a, pa) && BreadthFirst(g, entry, b, pb) && 0 < k <= |a| && k < |b| && a[..k] == b[..k]
    ensures b[k] in a
  {
    PrefixAt(a, b, k);
    MetBefore(g, entry, b, pb, k);
    assert Edge(g, a[pb[k]], b[k]);
  }

  lemma NoLonger(g: Adjacency, entry: nat, a: seq<nat>, pa: seq<nat>, b: seq<nat>, pb: seq<nat>)
    requires BreadthFirst(g, entry, a, pa) && BreadthFirst(g, entry, b, pb)
    ensures |b| <= |a|
  {
    if |a| < |b| {
      var k := |a|;
      SamePrefix(g, entry, a, pa, b, pb, k);
      NextWasMet(g, entry, a, pa, b, pb, k);
      PrefixAt(a, b, k);
    }
  }

  lemma MetBefore(g: Adjacency, entry: nat, order: seq<nat>, parent: seq<nat>, k: nat)
    requires SearchOrder(g, entry, order, parent, |order|) && 0 < k < |order|
    ensures parent[k] < k && Edge(g, order[parent[k]], order[k])
  {
    assert FirstFrom(g, order, parent, k, |order|);
  }

  /** The order of a breadth-first search is determined by the graph and the entry. */
  lemma BreadthFirstUnique(g: Adjacency, entry: nat, a: seq<nat>, pa: seq<nat>, b: seq<nat>, pb: seq<nat>)
    requires BreadthFirst(g, entry, a, pa) && BreadthFirst(g, entry, b, pb)
    ensures a == b
  {
    NoLonger(g, entry, a, pa, b, pb);
    NoLonger(g, entry, b, pb, a, pa);
    SamePrefix(g, entry, a, pa, b, pb, |a|);
  }

  // ---------------------------------------------------------------------------------------
  // The permutation.

  ghost predicate Reachable(g: Adjacency, entry: nat, v: nat) {
    entry < |g| && exists d: nat :: v in Within(g, entry, d)
  }

  /**
   * The reachable nodes come first, the entry at their head and nearer nodes never after
   * farther ones; the others follow in ascending order.
   */
  ghost predicate IsLocalityOrder(g: Adjacency, entry: nat, order: seq<nat>, reached: nat) {
    && reached <= |order| && (if entry < |g| then reached > 0 && order[0] == entry else reached == 0)
    && (forall i :: 0 <= i < |order| ==> (Reachable(g, entry, order[i]) <==> i < reached))
    && (forall d: nat, i, j :: 0 <= i <= j < reached && order[j] in Within(g, entry, d) ==> order[i] in Within(g, entry, d))
    && (forall i, j :: reached <= i < j < |order| ==> order[i] < order[j])
  }

  predicate Inverse(newToOld: seq<nat>, oldToNew: seq<nat>, n: nat) {
    && |newToOld| == |oldToNew| == n && InRange(newToOld, n) && InRange(oldToNew, n)
    && (forall i :: 0 <= i < n ==> oldToNew[newToOld[i]] == i && newToOld[oldToNew[i]] == i)
  }

  /** Appends the unvisited nodes. */
  method AppendUnvisited(visited: seq<bool>, reached: seq<nat>) returns (order: seq<nat>)
    requires Unique(reached) && InRange(reached, |visited|) && Marks(visited, reached, |visited|)
    ensures Unique(order) && InRange(order, |visited|) && reached <= order
    ensures forall v :: 0 <= v < |visited| ==> v in order
    ensures forall i, j :: |reached| <= i < j < |order| ==> order[i] < order[j]
    ensures forall i :: |reached| <= i < |order| ==> order[i] !in reached
  {
    order := reached;
    for node := 0 to |visited|
      invariant Unique(order) && InRange(order, |visited|) && reached <= order
      invariant forall v :: 0 <= v < node ==> v in order
      invariant forall i, j :: |reached| <= i < j < |order| ==> order[i] < order[j]
      invariant forall i :: |reached| <= i < |order| ==> order[i] < node && order[i] !in reached
    {
      if !visited[node] {
        order := order + [node];
      }
    }
  }

  method Invert(newToOld: seq<nat>) returns (oldToNew: seq<nat>)
    requires Unique(newToOld) && InRange(newToOld, |newToOld|)
    ensures Inverse(newToOld, oldToNew, |newToOld|)
  {
    var n := |newToOld|;
    var inverse := new nat[n](_ => 0);
    for i := 0 to n
      invariant forall k :: 0 <= k < i ==> inverse[newToOld[k]] == k
    {
      inverse[newToOld[i]] := i;
    }
    oldToNew := inverse[..];
    RowIdOrder.Pigeonhole(n, newToOld);
    forall v | 0 <= v < n
      ensures oldToNew[v] < n && newToOld[oldToNew[v]] == v
    {
      assert v in newToOld;
      var k :| 0 <= k < n && newToOld[k] == v;
    }
  }

  lemma TraversalIsOrder(g: Adjacency, entry: nat, met: seq<nat>, parent: seq<nat>, order: seq<nat>)
    requires entry < |g| && SearchOrder(g, entry, met, parent, |met|) && Closed(g, met, |met|) && met <= order
    requires forall i, j :: |met| <= i < j < |order| ==> order[i] < order[j]
    requires forall i :: |met| <= i < |order| ==> order[i] !in met
    ensures IsLocalityOrder(g, entry, order, |met|)
  {
    forall i | 0 <= i < |order|
      ensures Reachable(g, entry, order[i]) <==> i < |met|
    {
      if i < |met| {
        MetIsWithin(g, entry, met, parent, i);
      } else if Reachable(g, entry, order[i]) {
        var d: nat :| order[i] in Within(g, entry, d);
        WithinIsMet(g, entry, met, parent, d, order[i]);
      }
    }
    forall d: nat, i, j | 0 <= i <= j < |met| && order[j] in Within(g, entry, d)
      ensures order[i] in Within(g, entry, d)
    {
      LevelOrder(g, entry, met, parent, d, i, j);
    }
  }

  /** `bfs_locality_permutation`. */
  method Relabel(g: Adjacency, entry: nat) returns (newToOld: seq<nat>, oldToNew: seq<nat>, ghost reached: nat)
    ensures Inverse(newToOld, oldToNew, |g|)
    ensures IsLocalityOrder(g, entry, newToOld, reached)
    ensures entry < |g| ==> oldToNew[entry] == 0 && exists parent :: BreadthFirst(g, entry, newToOld[..reached], parent)
  {
    var met: seq<nat>, visited := [], seq(|g|, _ => false);
    ghost var parent := [];
    if entry < |g| {
      met, visited, parent := Traverse(g, entry);
    }
    newToOld := AppendUnvisited(visited, met);
    UniqueBounded(newToOld, |g|);
    oldToNew := Invert(newToOld);
    reached := |met|;
    if entry < |g| {
      TraversalIsOrder(g, entry, met, parent, newToOld);
      assert newToOld[..reached] == met;
      assert BreadthFirst(g, entry, newToOld[..reached], parent);
    }
  }

  lemma TailsAgree(n: nat, a: seq<nat>, b: seq<nat>, reached: nat)
    requires reached <= n && |a| == |b| == n && Unique(a) && Unique(b) && InRange(a, n) && InRange(b, n) && a[..reached] == b[..reached]
    requires forall i, j :: reached <= i < j < n ==> a[i] < a[j] && b[i] < b[j]
    ensures a == b
  {
    var (x, y, zeros) := (a[reached..], b[reached..], seq(n, _ => 0));
    RestSame(n, a, b, reached);
    RestSame(n, b, a, reached);
    assert RowIdOrder.InRange(zeros, x) && RowIdOrder.InRange(zeros, y);
    assert RowIdOrder.Sorted(zeros, x) && RowIdOrder.Sorted(zeros, y);
    RowIdOrder.SortedUnique(zeros, x, y);
    assert a == a[..reached] + x && b == b[..reached] + y;
  }

  lemma RestSame(n: nat, a: seq<nat>, b: seq<nat>, reached: nat)
    requires reached <= n && |a| == |b| == n && Unique(a) && Unique(b) && InRange(a, n) && InRange(b, n) && a[..reached] == b[..reached]
    ensures RowIdOrder.Seen(a[reached..]) <= RowIdOrder.Seen(b[reached..])
  {
    RowIdOrder.Pigeonhole(n, b);
    PrefixAt(a, b, reached);
    forall v | v in RowIdOrder.Seen(a[reached..])
      ensures v in RowIdOrder.Seen(b[reached..])
    {
      var i :| 0 <= i < n - reached && a[reached..][i] == v;
      assert a[reached + i] == v && v in b;
      var j :| 0 <= j < n && b[j] == v;
      assert b[reached..][j - reached] == v;
    }
  }

  /** The relabelling is determined by the graph and the entry. */
  lemma RelabellingUnique(g: Adjacency, entry: nat, a: seq<nat>, b: seq<nat>, pa: seq<nat>, pb: seq<nat>, reachedA: nat, reachedB: nat)
    requires |a| == |b| == |g| && Unique(a) && Unique(b) && InRange(a, |g|) && InRange(b, |g|) && reachedA <= |g| && reachedB <= |g|
    requires BreadthFirst(g, entry, a[..reachedA], pa) && BreadthFirst(g, entry, b[..reachedB], pb)
    requires forall i, j :: reachedA <= i < j < |g| ==> a[i] < a[j]
    requires forall i, j :: reachedB <= i < j < |g| ==> b[i] < b[j]
    ensures a == b
  {
    BreadthFirstUnique(g, entry, a[..reachedA], pa, b[..reachedB], pb);
    assert |a[..reachedA]| == reachedA && |b[..reachedB]| == reachedB;
    TailsAgree(|g|, a, b, reachedA);
  }
}
