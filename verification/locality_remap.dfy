/** Applying a relabelling to a graph in place, by following the cycles of the permutation. */
module LocalityRemap {
  import opened AdjacencyList
  import opened AdjacencyValidation
  import opened BfsLocality
  import opened Prelude

  predicate Valid(g: Adjacency) {
    forall u :: 0 <= u < |g| ==> InRange(g[u], |g|)
  }

  // ---------------------------------------------------------------------------------------
  // Moving rows.

  /** Row v has been moved to its new place exactly for the visited v; every other place is untouched. */
  ghost predicate Moved(rows: seq<seq<u32>>, before: seq<seq<u32>>, newToOld: seq<nat>, visited: seq<bool>)
    requires |rows| == |before| == |newToOld| == |visited| && InRange(newToOld, |rows|)
  {
    forall p :: 0 <= p < |rows| ==> rows[p] == if visited[newToOld[p]] then before[newToOld[p]] else before[p]
  }

  /** The visited nodes form whole cycles, except for the open one that began at `start` and has reached `current`. */
  predicate OpenCycle(oldToNew: seq<nat>, visited: seq<bool>, start: nat, current: nat)
    requires |oldToNew| == |visited| && InRange(oldToNew, |visited|)
  {
    && (forall v :: 0 <= v < |visited| && visited[v] && oldToNew[v] != current ==> visited[oldToNew[v]])
    && (forall v :: 0 <= v < |visited| && visited[oldToNew[v]] && oldToNew[v] != start ==> visited[v])
  }

  predicate WholeCycles(oldToNew: seq<nat>, visited: seq<bool>)
    requires |oldToNew| == |visited| && InRange(oldToNew, |visited|)
  {
    forall v :: 0 <= v < |visited| ==> (visited[v] <==> visited[oldToNew[v]])
  }

  function Unvisited(visited: seq<bool>): set<nat> {
    set v | 0 <= v < |visited| && !visited[v]
  }

  /** Follows one cycle, carrying each row in a buffer to where it belongs. */
  method FollowCycle(rows: array<seq<u32>>, oldToNew: seq<nat>, visited: seq<bool>, start: nat,
                     ghost newToOld: seq<nat>, ghost before: seq<seq<u32>>)
      returns (visited': seq<bool>)
    requires Inverse(newToOld, oldToNew, rows.Length) && |visited| == |before| == rows.Length && start < rows.Length
    requires !visited[start] && WholeCycles(oldToNew, visited) && Moved(rows[..], before, newToOld, visited)
    modifies rows
    ensures |visited'| == |visited| && visited'[start] && forall v :: 0 <= v < |visited| && visited[v] ==> visited'[v]
    ensures WholeCycles(oldToNew, visited') && Moved(rows[..], before, newToOld, visited')
  {
    visited' := visited;
    var buffer := rows[start];
    var current := start;
    while true
      invariant current < rows.Length && |visited'| == rows.Length && !visited'[current]
      invariant forall v :: 0 <= v < |visited| && visited[v] ==> visited'[v]
      invariant current != start ==> visited'[start] && visited'[newToOld[current]]
      invariant !visited'[newToOld[start]]
      invariant OpenCycle(oldToNew, visited', start, current)
      invariant buffer == before[current] && Moved(rows[..], before, newToOld, visited')
      decreases Unvisited(visited')
    {
      ghost var was, rowsWas := visited', rows[..];
      visited' := visited'[current := true];
      assert current in Unvisited(was) && Unvisited(visited') <= Unvisited(was);
      var destination := oldToNew[current];
      buffer, rows[destination] := rows[destination], buffer;
      assert rows[..] == rowsWas[destination := before[current]];
      current := destination;
      if current == start {
        return;
      }
    }
  }

  /** Every row ends at the new ID of its node. */
  method PermuteRows(rows: array<seq<u32>>, oldToNew: seq<nat>, ghost newToOld: seq<nat>)
    requires Inverse(newToOld, oldToNew, rows.Length)
    modifies rows
    ensures forall v :: 0 <= v < rows.Length ==> rows[oldToNew[v]] == old(rows[v])
  {
    ghost var before := rows[..];
    var visited := seq(rows.Length, _ => false);
    for start := 0 to rows.Length
      invariant |visited| == rows.Length && forall v :: 0 <= v < start ==> visited[v]
      invariant WholeCycles(oldToNew, visited) && Moved(rows[..], before, newToOld, visited)
    {
      if !visited[start] {
        visited := FollowCycle(rows, oldToNew, visited, start, newToOld, before);
      }
    }
    forall v | 0 <= v < rows.Length
      ensures rows[oldToNew[v]] == before[v]
    {
      assert rows[..][oldToNew[v]] == before[newToOld[oldToNew[v]]];
    }
  }

  // ---------------------------------------------------------------------------------------
  // Renaming neighbours.

  function Insert(x: u32, s: seq<u32>): (r: seq<u32>)
    ensures multiset(r) == multiset(s) + multiset{x}
  {
    if s == [] || x <= s[0] then [x] + s else (assert s == [s[0]] + s[1..]; [s[0]] + Insert(x, s[1..]))
  }

  /** Neighbours renamed and sorted. */
  function Renamed(neighbors: seq<u32>, oldToNew: seq<nat>): (r: seq<u32>)
    requires InRange(neighbors, |oldToNew|) && InRange(oldToNew, |oldToNew|) && |oldToNew| <= U32_RANGE
  {
    if neighbors == [] then [] else Insert(oldToNew[neighbors[0]], Renamed(neighbors[1..], oldToNew))
  }

  predicate Ascends(s: seq<u32>) {
    forall i, j :: 0 <= i < j < |s| ==> s[i] <= s[j]
  }

  lemma {:induction false} InsertSorts(x: u32, s: seq<u32>)
    requires Ascends(s)
    ensures Ascends(Insert(x, s))
  {
    if s != [] && x > s[0] {
      var tail := Insert(x, s[1..]);
      InsertSorts(x, s[1..]);
      forall i | 0 <= i < |tail|
        ensures s[0] <= tail[i]
      {
        assert tail[i] in multiset(s[1..]) + multiset{x};
      }
      assert Insert(x, s) == [s[0]] + tail;
    }
  }

  /** The renamed list is ascending and holds exactly the new IDs of the neighbours. */
  lemma {:induction false} RenamedMembers(neighbors: seq<u32>, newToOld: seq<nat>, oldToNew: seq<nat>, v: nat)
    requires Inverse(newToOld, oldToNew, |oldToNew|) && InRange(neighbors, |oldToNew|) && |oldToNew| <= U32_RANGE && v < |oldToNew|
    ensures oldToNew[v] in Renamed(neighbors, oldToNew) <==> v in neighbors
    ensures Ascends(Renamed(neighbors, oldToNew))
  {
    if neighbors != [] {
      var rest := Renamed(neighbors[1..], oldToNew);
      RenamedMembers(neighbors[1..], newToOld, oldToNew, v);
      InsertSorts(oldToNew[neighbors[0]], rest);
      assert oldToNew[v] in Insert(oldToNew[neighbors[0]], rest) <==> oldToNew[v] in multiset(rest) + multiset{oldToNew[neighbors[0]]};
      assert newToOld[oldToNew[v]] == v && newToOld[oldToNew[neighbors[0]]] == neighbors[0];
    }
  }

  predicate Distinct(s: seq<u32>) {
    forall i, j :: 0 <= i < j < |s| ==> s[i] != s[j]
  }

  lemma {:induction false} InsertStrict(x: u32, s: seq<u32>)
    requires StrictlyIncreasing(s) && x !in s
    ensures StrictlyIncreasing(Insert(x, s)) && |Insert(x, s)| == |s| + 1
  {
    if s != [] && x > s[0] {
      var tail := Insert(x, s[1..]);
      InsertStrict(x, s[1..]);
      forall i | 0 <= i < |tail|
        ensures s[0] < tail[i]
      {
        assert tail[i] in multiset(s[1..]) + multiset{x};
      }
      assert Insert(x, s) == [s[0]] + tail;
    }
  }

  /** Renaming distinct neighbours keeps their number and leaves them strictly increasing. */
  lemma {:induction false} RenamedStrict(neighbors: seq<u32>, newToOld: seq<nat>, oldToNew: seq<nat>)
    requires Inverse(newToOld, oldToNew, |oldToNew|) && InRange(neighbors, |oldToNew|) && |oldToNew| <= U32_RANGE && Distinct(neighbors)
    ensures StrictlyIncreasing(Renamed(neighbors, oldToNew)) && |Renamed(neighbors, oldToNew)| == |neighbors|
  {
    if neighbors != [] {
      RenamedStrict(neighbors[1..], newToOld, oldToNew);
      RenamedMembers(neighbors[1..], newToOld, oldToNew, neighbors[0]);
      InsertStrict(oldToNew[neighbors[0]], Renamed(neighbors[1..], oldToNew));
    }
  }

  /** Every renamed neighbour is the new ID of a neighbour. */
  lemma {:induction false} RenamedFrom(neighbors: seq<u32>, oldToNew: seq<nat>, x: u32) returns (v: u32)
    requires InRange(neighbors, |oldToNew|) && InRange(oldToNew, |oldToNew|) && |oldToNew| <= U32_RANGE
    requires x in Renamed(neighbors, oldToNew)
    ensures v in neighbors && oldToNew[v] == x
  {
    var rest := Renamed(neighbors[1..], oldToNew);
    assert x in multiset(rest) + multiset{oldToNew[neighbors[0]]};
    if x == oldToNew[neighbors[0]] {
      v := neighbors[0];
    } else {
      v := RenamedFrom(neighbors[1..], oldToNew, x);
    }
  }

  method RenameAll(rows: array<seq<u32>>, oldToNew: seq<nat>)
    requires |oldToNew| == rows.Length <= U32_RANGE && InRange(oldToNew, rows.Length) && Valid(rows[..])
    modifies rows
    ensures forall p :: 0 <= p < rows.Length ==> InRange(old(rows[p]), rows.Length) && rows[p] == Renamed(old(rows[p]), oldToNew)
  {
    assert forall p :: 0 <= p < rows.Length ==> rows[p] == rows[..][p];
    for node := 0 to rows.Length
      invariant forall p :: 0 <= p < node ==> InRange(old(rows[p]), rows.Length) && rows[p] == Renamed(old(rows[p]), oldToNew)
      invariant forall p :: node <= p < rows.Length ==> rows[p] == old(rows[p]) && InRange(rows[p], rows.Length)
    {
      rows[node] := Renamed(rows[node], oldToNew);
    }
  }

  /** Node v's list is at its new ID, with its neighbours renamed and sorted. */
  ghost predicate Relabelled(g: Adjacency, g': Adjacency, newToOld: seq<nat>, oldToNew: seq<nat>) {
    && |g| == |g'| <= U32_RANGE && Inverse(newToOld, oldToNew, |g|) && Valid(g)
    && forall v :: 0 <= v < |g| ==> g'[oldToNew[v]] == Renamed(g[v], oldToNew)
  }

  /** `permute_and_map_neighbors`. */
  method Remap(rows: array<seq<u32>>, oldToNew: seq<nat>, ghost newToOld: seq<nat>)
    requires Inverse(newToOld, oldToNew, rows.Length) && Valid(rows[..]) && rows.Length <= U32_RANGE
    modifies rows
    ensures Relabelled(old(rows[..]), rows[..], newToOld, oldToNew)
  {
    ghost var before := rows[..];
    PermuteRows(rows, oldToNew, newToOld);
    ghost var moved := rows[..];
    forall p | 0 <= p < rows.Length
      ensures moved[p] == before[newToOld[p]] && InRange(moved[p], rows.Length)
    {
      assert rows[oldToNew[newToOld[p]]] == before[newToOld[p]];
    }
    RenameAll(rows, oldToNew);
  }

  /** Relabelling is an isomorphism: exactly the edges of the old graph, under new names. */
  lemma EdgesKept(g: Adjacency, g': Adjacency, newToOld: seq<nat>, oldToNew: seq<nat>, u: nat, v: nat)
    requires Relabelled(g, g', newToOld, oldToNew) && u < |g| && v < |g|
    ensures Edge(g', oldToNew[u], oldToNew[v]) <==> Edge(g, u, v)
  {
    RenamedMembers(g[u], newToOld, oldToNew, v);
  }

  /** Distinct neighbours in range, none of them the node itself, and no more than the degree bound. */
  predicate CleanList(neighbors: seq<u32>, n: nat, node: nat, maxDegree: nat) {
    Distinct(neighbors) && InRange(neighbors, n) && node !in neighbors && |neighbors| <= maxDegree
  }

  predicate Clean(g: Adjacency, maxDegree: nat) {
    forall v :: 0 <= v < |g| ==> CleanList(g[v], |g|, v, maxDegree)
  }

  /** What the page validator asks of a list holds of every relabelled list, under the new IDs, and degrees stay. */
  lemma RelabelledAccepted(g: Adjacency, g': Adjacency, newToOld: seq<nat>, oldToNew: seq<nat>, maxDegree: nat, a: nat)
    requires Relabelled(g, g', newToOld, oldToNew) && Clean(g, maxDegree) && a < |g'|
    ensures NeighborsAccepted(g'[a], |g'|, a) && |g'[a]| == |g[newToOld[a]]| <= maxDegree
  {
    var u := newToOld[a];
    assert oldToNew[u] == a && CleanList(g[u], |g|, u, maxDegree) && g'[a] == Renamed(g[u], oldToNew);
    RenamedStrict(g[u], newToOld, oldToNew);
    forall i | 0 <= i < |g'[a]|
      ensures g'[a][i] < |g'| && g'[a][i] != a
    {
      var v := RenamedFrom(g[u], oldToNew, g'[a][i]);
      assert newToOld[oldToNew[v]] == v;
    }
  }
}
