/** The persisted row-ID order: every node once, sorted by row ID and then by node. */
module RowIdOrder {
  import opened Prelude
  import opened RowIds

  /** The row IDs of a storage, all of them readable. */
  ghost predicate Reads(storage: Storage, rowIds: seq<i64>) {
    && storage.Len() == |rowIds|
    && forall node: nat :: storage.Get(node) == if node < |rowIds| then Some(rowIds[node]) else None
  }

  /** `(row_id, node)` in lexicographic order. */
  predicate Before(rowIds: seq<i64>, a: nat, b: nat)
    requires a < |rowIds| && b < |rowIds|
  {
    rowIds[a] < rowIds[b] || (rowIds[a] == rowIds[b] && a < b)
  }

  predicate InRange(rowIds: seq<i64>, order: seq<nat>) {
    forall i :: 0 <= i < |order| ==> order[i] < |rowIds|
  }

  predicate Sorted(rowIds: seq<i64>, order: seq<nat>)
    requires InRange(rowIds, order)
  {
    forall i, j :: 0 <= i < j < |order| ==> Before(rowIds, order[i], order[j])
  }

  /** The order the writer sorts into: a permutation of all nodes in key order. */
  ghost predicate IsRowIdOrder(rowIds: seq<i64>, order: seq<nat>) {
    && |order| == |rowIds|
    && InRange(rowIds, order)
    && (forall node :: 0 <= node < |rowIds| ==> node in order)
    && Sorted(rowIds, order)
  }

  /** What the validator checks: the length, the range and strictly increasing neighbours. */
  predicate OrderAccepted(rowIds: seq<i64>, order: seq<nat>) {
    && |order| == |rowIds|
    && InRange(rowIds, order)
    && forall i :: 0 < i < |order| ==> Before(rowIds, order[i - 1], order[i])
  }

  /** `validate_row_id_order`. */
  method ValidateOrder(storage: Storage, order: seq<u32>, ghost rowIds: seq<i64>) returns (ok: bool)
    requires Reads(storage, rowIds)
    ensures ok <==> OrderAccepted(rowIds, order)
  {
    if |order| != storage.Len() {
      return false;
    }
    var previous: Option<(i64, u32)> := None;
    for i := 0 to |order|
      invariant InRange(rowIds, order[..i])
      invariant forall j :: 0 < j < i ==> Before(rowIds, order[j - 1], order[j])
      invariant i == 0 ==> previous.None?
      invariant i > 0 ==> order[i - 1] < |rowIds| && previous == Some((rowIds[order[i - 1]], order[i - 1]))
    {
      var rowId := storage.Get(order[i]);
      if rowId.None? {
        return false;
      }
      if previous.Some? && !(previous.value.0 < rowId.value || (previous.value.0 == rowId.value && previous.value.1 < order[i])) {
        assert !Before(rowIds, order[i - 1], order[i]);
        return false;
      }
      assert order[..i + 1] == order[..i] + [order[i]];
      previous := Some((rowId.value, order[i]));
    }
    assert order[..|order|] == order;
    return true;
  }

  lemma BeforeTransitive(rowIds: seq<i64>, a: nat, b: nat, c: nat)
    requires a < |rowIds| && b < |rowIds| && c < |rowIds|
    requires Before(rowIds, a, b) && Before(rowIds, b, c)
    ensures Before(rowIds, a, c)
  {
  }

  lemma {:induction false} NeighboursSort(rowIds: seq<i64>, order: seq<nat>, i: nat, j: nat)
    requires InRange(rowIds, order) && i < j < |order|
    requires forall k :: 0 < k < |order| ==> Before(rowIds, order[k - 1], order[k])
    ensures Before(rowIds, order[i], order[j])
    decreases j
  {
    if i < j - 1 {
      NeighboursSort(rowIds, order, i, j - 1);
      BeforeTransitive(rowIds, order[i], order[j - 1], order[j]);
    }
  }

  /** The nodes below `n` that a sequence contains. */
  function Seen(order: seq<nat>): set<nat> {
    set i | 0 <= i < |order| :: order[i]
  }

  lemma {:induction false} DistinctCount(order: seq<nat>)
    requires forall i, j :: 0 <= i < j < |order| ==> order[i] != order[j]
    ensures |Seen(order)| == |order|
  {
    if order == [] {
      assert Seen(order) == {};
    } else {
      var (init, last) := (order[..|order| - 1], order[|order| - 1]);
      DistinctCount(init);
      assert last !in Seen(init);
      assert Seen(order) == Seen(init) + {last};
    }
  }

  function Below(n: nat): set<nat> {
    if n == 0 then {} else Below(n - 1) + {n - 1}
  }

  lemma {:induction false} BelowCount(n: nat)
    ensures |Below(n)| == n && forall i: nat :: i in Below(n) <==> i < n
  {
    if n > 0 {
      BelowCount(n - 1);
    }
  }

  lemma SubsetOfSameSize<T>(a: set<T>, b: set<T>)
    requires a <= b && |a| == |b|
    ensures a == b
  {
    assert |b - a| == |b| - |a|;
  }

  /** As many distinct in-range nodes as there are nodes are all of them. */
  lemma Pigeonhole(n: nat, order: seq<nat>)
    requires |order| == n && (forall i :: 0 <= i < n ==> order[i] < n)
    requires forall i, j :: 0 <= i < j < n ==> order[i] != order[j]
    ensures forall node :: 0 <= node < n ==> node in order
  {
    DistinctCount(order);
    BelowCount(n);
    SubsetOfSameSize(Seen(order), Below(n));
    forall node | 0 <= node < n ensures node in order {
      assert node in Seen(order);
    }
  }

  /** Strictly sorted sequences with the same nodes are equal. */
  lemma {:induction false} SortedUnique(rowIds: seq<i64>, a: seq<nat>, b: seq<nat>)
    requires InRange(rowIds, a) && InRange(rowIds, b) && Sorted(rowIds, a) && Sorted(rowIds, b)
    requires |a| == |b| && Seen(a) == Seen(b)
    ensures a == b
  {
    if a != [] {
      var last := |a| - 1;
      SameLast(rowIds, a, b);
      var (a', b') := (a[..last], b[..last]);
      assert Seen(a') == Seen(a) - {a[last]} && Seen(b') == Seen(b) - {b[last]} by {
        SeenInit(rowIds, a);
        SeenInit(rowIds, b);
      }
      SortedUnique(rowIds, a', b');
      assert a == a' + [a[last]] && b == b' + [b[last]];
    }
  }

  lemma SeenInit(rowIds: seq<i64>, a: seq<nat>)
    requires a != [] && InRange(rowIds, a) && Sorted(rowIds, a)
    ensures Seen(a[..|a| - 1]) == Seen(a) - {a[|a| - 1]}
  {
    var last := |a| - 1;
    forall x | x in Seen(a) - {a[last]} ensures x in Seen(a[..last]) {
      var i :| 0 <= i < |a| && a[i] == x;
      assert a[..last][i] == x;
    }
    forall i | 0 <= i < last ensures a[i] != a[last] {
      assert Before(rowIds, a[i], a[last]);
    }
  }

  lemma LastIsGreatest(rowIds: seq<i64>, a: seq<nat>, x: nat)
    requires a != [] && InRange(rowIds, a) && Sorted(rowIds, a) && x in Seen(a)
    ensures x < |rowIds| && (x == a[|a| - 1] || Before(rowIds, x, a[|a| - 1]))
  {
    var i :| 0 <= i < |a| && a[i] == x;
  }

  /** The last node of one is the last node of the other: the greatest of the same nodes. */
  lemma SameLast(rowIds: seq<i64>, a: seq<nat>, b: seq<nat>)
    requires InRange(rowIds, a) && InRange(rowIds, b) && Sorted(rowIds, a) && Sorted(rowIds, b)
    requires a != [] && |a| == |b| && Seen(a) == Seen(b)
    ensures a[|a| - 1] == b[|b| - 1]
  {
    assert a[|a| - 1] in Seen(a) && b[|b| - 1] in Seen(b);
    LastIsGreatest(rowIds, b, a[|a| - 1]);
    LastIsGreatest(rowIds, a, b[|b| - 1]);
  }

  /** The validator accepts exactly one sequence: the sorted permutation of all nodes. */
  lemma AcceptsExactlyTheOrder(rowIds: seq<i64>, order: seq<nat>)
    ensures OrderAccepted(rowIds, order) <==> IsRowIdOrder(rowIds, order)
  {
    if OrderAccepted(rowIds, order) {
      forall i, j | 0 <= i < j < |order| ensures Before(rowIds, order[i], order[j]) {
        NeighboursSort(rowIds, order, i, j);
      }
      Pigeonhole(|rowIds|, order);
    }
  }

  lemma SeenIsAll(rowIds: seq<i64>, order: seq<nat>)
    requires IsRowIdOrder(rowIds, order)
    ensures Seen(order) == Below(|rowIds|)
  {
    BelowCount(|rowIds|);
    forall node | node in Below(|rowIds|) ensures node in Seen(order) {
      assert node in order;
    }
  }

  /** There is one such order. */
  lemma OrderUnique(rowIds: seq<i64>, a: seq<nat>, b: seq<nat>)
    requires IsRowIdOrder(rowIds, a) && IsRowIdOrder(rowIds, b)
    ensures a == b
  {
    SeenIsAll(rowIds, a);
    SeenIsAll(rowIds, b);
    SortedUnique(rowIds, a, b);
  }

  // ---------------------------------------------------------------------------------------
  // Sorting the nodes.

  function InsertNode(rowIds: seq<i64>, order: seq<nat>, node: nat): (r: seq<nat>)
    requires InRange(rowIds, order) && node < |rowIds|
    ensures |r| == |order| + 1 && InRange(rowIds, r)
  {
    if order == [] || Before(rowIds, node, order[0]) then [node] + order
    else [order[0]] + InsertNode(rowIds, order[1..], node)
  }

  lemma {:induction false} InsertNodeSorts(rowIds: seq<i64>, order: seq<nat>, node: nat)
    requires InRange(rowIds, order) && node < |rowIds| && Sorted(rowIds, order) && node !in order
    ensures Sorted(rowIds, InsertNode(rowIds, order, node))
    ensures forall x :: x in InsertNode(rowIds, order, node) <==> x == node || x in order
  {
    if order != [] && !Before(rowIds, node, order[0]) {
      InsertNodeSorts(rowIds, order[1..], node);
      assert Before(rowIds, order[0], node);
      assert order == [order[0]] + order[1..];
      assert forall x :: x in order[1..] ==> Before(rowIds, order[0], x);
    }
  }

  /** The nodes below `n` in key order. */
  function OrderUpTo(rowIds: seq<i64>, n: nat): (r: seq<nat>)
    requires n <= |rowIds|
    ensures |r| == n && InRange(rowIds, r)
  {
    if n == 0 then [] else InsertNode(rowIds, OrderUpTo(rowIds, n - 1), n - 1)
  }

  lemma {:induction false} OrderUpToSorts(rowIds: seq<i64>, n: nat)
    requires n <= |rowIds|
    ensures Sorted(rowIds, OrderUpTo(rowIds, n))
    ensures forall x: nat :: x in OrderUpTo(rowIds, n) <==> x < n
  {
    if n > 0 {
      OrderUpToSorts(rowIds, n - 1);
      InsertNodeSorts(rowIds, OrderUpTo(rowIds, n - 1), n - 1);
    }
  }

  function OrderOf(rowIds: seq<i64>): (r: seq<nat>)
    ensures |r| == |rowIds| && InRange(rowIds, r)
  {
    OrderUpTo(rowIds, |rowIds|)
  }

  /** Every sequence of row IDs has exactly one order: the one that sorting its nodes gives. */
  lemma OrderExistsOnce(rowIds: seq<i64>, order: seq<nat>)
    ensures IsRowIdOrder(rowIds, order) <==> order == OrderOf(rowIds)
  {
    OrderUpToSorts(rowIds, |rowIds|);
    if IsRowIdOrder(rowIds, order) {
      OrderUnique(rowIds, order, OrderOf(rowIds));
    }
  }

  /** The order in plain terms: every node once, by row ID, and nodes with the same row ID ascending. */
  lemma OrderMeans(rowIds: seq<i64>, order: seq<nat>)
    ensures order == OrderOf(rowIds) <==>
            && |order| == |rowIds| && (forall i :: 0 <= i < |order| ==> order[i] < |rowIds|)
            && (forall node :: 0 <= node < |rowIds| ==> node in order)
            && (forall i, j :: 0 <= i < j < |order| && order[i] < |rowIds| && order[j] < |rowIds| ==>
                  rowIds[order[i]] < rowIds[order[j]] || (rowIds[order[i]] == rowIds[order[j]] && order[i] < order[j]))
  {
    OrderExistsOnce(rowIds, order);
  }
}
