/** Range search over flat L2 lists: collecting the rows of a distance band with early abandonment. */
module RangeCollectors {
  import opened Prelude
  import opened L2Kernels

  /** The rank of positive infinity; ranks below it are finite. */
  const INFINITY_RANK: nat := 0x7F80_0000

  datatype Metric = L2 | InnerProduct | Cosine

  datatype Bound = Unbounded | At(rank: nat)

  /** A half-open band of distances. */
  datatype Band = Band(lower: Bound, upper: Bound, metric: Metric) {
    predicate Admits(value: nat) {
      && value < INFINITY_RANK
      && (lower.At? ==> value >= lower.rank)
      && (upper.At? ==> value < upper.rank)
    }

    function Cutoff(): Threshold {
      if metric != L2 || upper.Unbounded? then Infinite else Finite(upper.rank)
    }
  }

  datatype Row = Row(id: i64, distance: nat)

  datatype Entry = Entry(id: i64, vector: seq<u32>)

  /** The rows a scan visits, with the plain kernel's distances. */
  function Visited(m: Arithmetic, kernel: Kernel, query: seq<u32>, list: seq<Entry>, filter: i64 -> bool): seq<Row>
    requires forall i :: 0 <= i < |list| ==> |list[i].vector| == |query|
  {
    if list == [] then [] else
    var before := Visited(m, kernel, query, list[..|list| - 1], filter);
    var entry := list[|list| - 1];
    if filter(entry.id) then before + [Row(entry.id, Distance(m, kernel, query, entry.vector))] else before
  }

  function Admitted(band: Band, rows: seq<Row>): seq<Row> {
    if rows == [] then []
    else Admitted(band, rows[..|rows| - 1]) + if band.Admits(rows[|rows| - 1].distance) then [rows[|rows| - 1]] else []
  }

  /** How many rows lie above the cutoff. */
  function Above(cutoff: Threshold, rows: seq<Row>): nat {
    if rows == [] then 0
    else Above(cutoff, rows[..|rows| - 1]) + if Exceeds(rows[|rows| - 1].distance, cutoff) then 1 else 0
  }

  /** A row that overflows to infinity below the cutoff is an error. */
  predicate Overflows(cutoff: Threshold, rows: seq<Row>) {
    exists i :: 0 <= i < |rows| && !Exceeds(rows[i].distance, cutoff) && rows[i].distance >= INFINITY_RANK
  }

  class RangeCollector {
    const band: Band
    const cutoff: Threshold
    var rows: seq<Row>
    var scanned: nat
    var earlyAbandoned: nat

    predicate Valid() {
      cutoff == band.Cutoff()
    }

    /** What is left of the visited rows: the admitted ones, and how many were scanned and abandoned. */
    predicate Collected(visited: seq<Row>)
      reads this
    {
      rows == Admitted(band, visited) && scanned == |visited| && earlyAbandoned == Above(cutoff, visited)
    }

    constructor (band: Band)
      ensures Valid() && this.band == band && rows == [] && scanned == 0 && earlyAbandoned == 0
    {
      this.band, this.cutoff := band, band.Cutoff();
      this.rows, this.scanned, this.earlyAbandoned := [], 0, 0;
    }

    method NoteAbandoned()
      modifies this
      ensures rows == old(rows) && scanned == old(scanned) + 1 && earlyAbandoned == old(earlyAbandoned) + 1
    {
      scanned := scanned + 1;
      earlyAbandoned := earlyAbandoned + 1;
    }

    method Push(id: i64, value: nat) returns (ok: bool)
      modifies this
      ensures ok <==> value < INFINITY_RANK
      ensures rows == old(rows) + Admitted(band, [Row(id, value)])
      ensures scanned == old(scanned) + 1 && earlyAbandoned == old(earlyAbandoned)
    {
      scanned := scanned + 1;
      if value >= INFINITY_RANK {
        return false;
      }
      if band.Admits(value) {
        rows := rows + [Row(id, value)];
      }
      return true;
    }

    method Merge(other: RangeCollector)
      modifies this
      ensures rows == old(rows) + old(other.rows)
      ensures scanned == old(scanned) + old(other.scanned) && earlyAbandoned == old(earlyAbandoned) + old(other.earlyAbandoned)
    {
      scanned, earlyAbandoned, rows := scanned + other.scanned, earlyAbandoned + other.earlyAbandoned, rows + other.rows;
    }

    /** Evaluates one row against the cutoff and hands it to the collector. */
    method Visit(m: Arithmetic, kernel: Kernel, query: seq<u32>, entry: Entry) returns (ok: bool)
      requires Valid() && band.metric == L2 && m.Sound() && kernel.Sound() && |entry.vector| == |query|
      modifies this
      ensures var row := Row(entry.id, Distance(m, kernel, query, entry.vector));
              && (ok <==> Exceeds(row.distance, cutoff) || row.distance < INFINITY_RANK)
              && rows == old(rows) + Admitted(band, [row]) && scanned == old(scanned) + 1
              && earlyAbandoned == old(earlyAbandoned) + if Exceeds(row.distance, cutoff) then 1 else 0
    {
      var distance := UnlessExceeds(m, kernel, query, entry.vector, cutoff);
      if distance.None? {
        NoteAbandoned();
        return true;
      }
      ok := Push(entry.id, distance.value);
    }

    /**
     * Pruning is invisible: whatever the cutoff, the rows are those the band admits among all
     * visited rows by their full distances, every visited row is counted as scanned, and those
     * above the cutoff are the abandoned ones. Only a row at or below the cutoff can overflow.
     */
    method Scan(m: Arithmetic, kernel: Kernel, query: seq<u32>, list: seq<Entry>, filter: i64 -> bool) returns (ok: bool)
      requires Valid() && band.metric == L2 && m.Sound() && kernel.Sound()
      requires forall i :: 0 <= i < |list| ==> |list[i].vector| == |query|
      modifies this
      ensures var visited := Visited(m, kernel, query, list, filter);
              && (ok <==> !Overflows(cutoff, visited))
              && (ok ==> rows == old(rows) + Admitted(band, visited) && scanned == old(scanned) + |visited|)
              && (ok ==> earlyAbandoned == old(earlyAbandoned) + Above(cutoff, visited))
    {
      ghost var visited := [];
      for i := 0 to |list|
        invariant visited == Visited(m, kernel, query, list[..i], filter) && !Overflows(cutoff, visited)
        invariant rows == old(rows) + Admitted(band, visited) && scanned == old(scanned) + |visited|
        invariant earlyAbandoned == old(earlyAbandoned) + Above(cutoff, visited)
      {
        ghost var next := VisitedNext(m, kernel, query, list, filter, i);
        if filter(list[i].id) {
          ghost var row := Row(list[i].id, Distance(m, kernel, query, list[i].vector));
          Grows(band, cutoff, visited, row);
          ConcatAssoc(old(rows), Admitted(band, visited), Admitted(band, [row]));
          ok := Visit(m, kernel, query, list[i]);
          if !ok {
            VisitedPrefix(m, kernel, query, list, filter, i + 1);
            OverflowStays(cutoff, next, Visited(m, kernel, query, list, filter));
            return;
          }
        }
        visited := next;
      }
      assert list[..|list|] == list;
      return true;
    }
  }

  lemma VisitedNext(m: Arithmetic, kernel: Kernel, query: seq<u32>, list: seq<Entry>, filter: i64 -> bool, i: nat)
      returns (next: seq<Row>)
    requires i < |list| && forall i :: 0 <= i < |list| ==> |list[i].vector| == |query|
    ensures next == Visited(m, kernel, query, list[..i + 1], filter)
    ensures if filter(list[i].id)
            then next == Visited(m, kernel, query, list[..i], filter) + [Row(list[i].id, Distance(m, kernel, query, list[i].vector))]
            else next == Visited(m, kernel, query, list[..i], filter)
  {
    assert list[..i + 1][..i] == list[..i] && list[..i + 1][i] == list[i];
    next := Visited(m, kernel, query, list[..i + 1], filter);
  }

  lemma OverflowStays(cutoff: Threshold, rows: seq<Row>, more: seq<Row>)
    requires rows <= more && Overflows(cutoff, rows)
    ensures Overflows(cutoff, more)
  {
    var i :| 0 <= i < |rows| && !Exceeds(rows[i].distance, cutoff) && rows[i].distance >= INFINITY_RANK;
    assert more[i] == rows[i];
  }

  lemma Grows(band: Band, cutoff: Threshold, visited: seq<Row>, row: Row)
    ensures Admitted(band, visited + [row]) == Admitted(band, visited) + Admitted(band, [row])
    ensures Above(cutoff, visited + [row]) == Above(cutoff, visited) + if Exceeds(row.distance, cutoff) then 1 else 0
    ensures Overflows(cutoff, visited + [row]) <==>
            Overflows(cutoff, visited) || (!Exceeds(row.distance, cutoff) && row.distance >= INFINITY_RANK)
    ensures cutoff == band.Cutoff() && Exceeds(row.distance, cutoff) ==> Admitted(band, [row]) == []
  {
    var all := visited + [row];
    assert all[..|all| - 1] == visited;
    assert forall i :: 0 <= i < |visited| ==> all[i] == visited[i];
    assert all[|visited|] == row;
  }

  lemma {:induction false} VisitedPrefix(m: Arithmetic, kernel: Kernel, query: seq<u32>, list: seq<Entry>, filter: i64 -> bool, n: nat)
    requires n <= |list| && forall i :: 0 <= i < |list| ==> |list[i].vector| == |query|
    ensures Visited(m, kernel, query, list[..n], filter) <= Visited(m, kernel, query, list, filter)
  {
    if n == |list| {
      assert list[..n] == list;
    } else {
      VisitedPrefix(m, kernel, query, list[..|list| - 1], filter, n);
      assert list[..|list| - 1][..n] == list[..n];
    }
  }

  // ---------------------------------------------------------------------------------------
  // Partial collectors.

  lemma {:induction false} SplitScan(band: Band, cutoff: Threshold, x: seq<Row>, y: seq<Row>)
    ensures Admitted(band, x + y) == Admitted(band, x) + Admitted(band, y)
    ensures Above(cutoff, x + y) == Above(cutoff, x) + Above(cutoff, y)
    decreases |y|
  {
    if y == [] {
      assert x + y == x;
    } else {
      var (front, last) := (y[..|y| - 1], y[|y| - 1]);
      SplitScan(band, cutoff, x, front);
      assert y == front + [last] && x + y == (x + front) + [last];
      Grows(band, cutoff, x + front, last);
      Grows(band, cutoff, front, last);
    }
  }

  function Flatten(parts: seq<seq<Row>>): seq<Row> {
    if parts == [] then [] else parts[0] + Flatten(parts[1..])
  }

  lemma {:induction false} FlattenSplit(a: seq<seq<Row>>, b: seq<seq<Row>>)
    ensures Flatten(a + b) == Flatten(a) + Flatten(b)
  {
    if a == [] {
      assert a + b == b;
    } else {
      FlattenSplit(a[1..], b);
      assert (a + b)[1..] == a[1..] + b;
      ConcatAssoc(a[0], Flatten(a[1..]), Flatten(b));
    }
  }

  lemma TakenOut<T>(order: seq<T>, part: T) returns (before: seq<T>, after: seq<T>)
    requires part in order
    ensures order == before + ([part] + after)
    ensures multiset(order) == multiset{part} + multiset(before + after)
  {
    var j :| 0 <= j < |order| && order[j] == part;
    before, after := order[..j], order[j + 1..];
    assert order == before + ([part] + after);
    assert multiset(before + after) == multiset(before) + multiset(after);
  }

  lemma RestsAgree<T>(parts: seq<T>, rest: multiset<T>)
    requires parts != [] && multiset(parts) == multiset{parts[0]} + rest
    ensures multiset(parts[1..]) == rest
  {
    assert parts == [parts[0]] + parts[1..];
    assert multiset(parts) == multiset{parts[0]} + multiset(parts[1..]);
    assert multiset(parts) - multiset{parts[0]} == rest;
  }

  lemma PartInFront(band: Band, cutoff: Threshold, part: seq<Row>, before: seq<seq<Row>>, after: seq<seq<Row>>)
    ensures multiset(Admitted(band, Flatten(before + ([part] + after)))) ==
            multiset(Admitted(band, part)) + multiset(Admitted(band, Flatten(before + after)))
    ensures Above(cutoff, Flatten(before + ([part] + after))) == Above(cutoff, part) + Above(cutoff, Flatten(before + after))
    ensures |Flatten(before + ([part] + after))| == |part| + |Flatten(before + after)|
    ensures multiset(Flatten(before + ([part] + after))) == multiset(part) + multiset(Flatten(before + after))
  {
    FlattenSplit(before, after);
    FlattenSplit(before, [part] + after);
    assert ([part] + after)[1..] == after;
    SplitScan(band, cutoff, Flatten(before), Flatten(after));
    SplitScan(band, cutoff, Flatten(before), part + Flatten(after));
    SplitScan(band, cutoff, part, Flatten(after));
  }

  /**
   * Partial collectors may be merged in any order: the merged rows are the same multiset and
   * both counters are the same, whichever permutation of the scanned parts is used.
   */
  lemma {:induction false} MergeOrderIrrelevant(band: Band, cutoff: Threshold, parts: seq<seq<Row>>, order: seq<seq<Row>>)
    requires multiset(parts) == multiset(order)
    ensures multiset(Admitted(band, Flatten(parts))) == multiset(Admitted(band, Flatten(order)))
    ensures Above(cutoff, Flatten(parts)) == Above(cutoff, Flatten(order)) && |Flatten(parts)| == |Flatten(order)|
    ensures multiset(Flatten(parts)) == multiset(Flatten(order))
  {
    if parts == [] {
      assert |multiset(order)| == 0;
    } else {
      assert parts[0] in multiset(order);
      var before, after := TakenOut(order, parts[0]);
      RestsAgree(parts, multiset(before + after));
      assert parts == [] + ([parts[0]] + parts[1..]) && parts[1..] == [] + parts[1..];
      MergeOrderIrrelevant(band, cutoff, parts[1..], before + after);
      PartInFront(band, cutoff, parts[0], before, after);
      PartInFront(band, cutoff, parts[0], [], parts[1..]);
    }
  }

  // ---------------------------------------------------------------------------------------
  // In plain terms.

  /** A row is admitted if and only if it was visited, is finite and lies in the half-open band. */
  lemma {:induction false} AdmittedMeans(band: Band, rows: seq<Row>, row: Row)
    ensures multiset(Admitted(band, rows))[row] ==
            if row.distance < 0x7F80_0000 && (band.lower.At? ==> band.lower.rank <= row.distance) && (band.upper.At? ==> row.distance < band.upper.rank)
            then multiset(rows)[row] else 0
  {
    if rows != [] {
      AdmittedMeans(band, rows[..|rows| - 1], row);
      assert rows == rows[..|rows| - 1] + [rows[|rows| - 1]];
    }
  }

  /** A row is visited if and only if its entry passes the filter, at the distance from the query. */
  lemma {:induction false} VisitedMeans(m: Arithmetic, kernel: Kernel, query: seq<u32>, list: seq<Entry>, filter: i64 -> bool, row: Row)
    requires forall i :: 0 <= i < |list| ==> |list[i].vector| == |query|
    ensures row in Visited(m, kernel, query, list, filter) <==>
            exists i :: 0 <= i < |list| && filter(list[i].id) && row == Row(list[i].id, Distance(m, kernel, query, list[i].vector))
  {
    if list != [] {
      var front := list[..|list| - 1];
      VisitedMeans(m, kernel, query, front, filter, row);
      assert forall i :: 0 <= i < |front| ==> front[i] == list[i];
    }
  }

  /** In an L2 list exactly the rows above the upper bound of the band are abandoned, and none in others. */
  lemma CutoffMeans(band: Band, row: Row)
    ensures Exceeds(row.distance, band.Cutoff()) <==> band.metric == L2 && band.upper.At? && row.distance > band.upper.rank
  {
  }

  /** The positions of the rows above the cutoff. */
  function Exceeding(cutoff: Threshold, rows: seq<Row>): set<nat> {
    set i | 0 <= i < |rows| && Exceeds(rows[i].distance, cutoff)
  }

  lemma {:induction false} AboveCounts(cutoff: Threshold, rows: seq<Row>)
    ensures Above(cutoff, rows) == |Exceeding(cutoff, rows)|
  {
    if rows == [] {
      assert Exceeding(cutoff, rows) == {};
    } else {
      var last := |rows| - 1;
      AboveCounts(cutoff, rows[..last]);
      var few := Exceeding(cutoff, rows[..last]);
      assert Exceeding(cutoff, rows) == if Exceeds(rows[last].distance, cutoff) then few + {last} else few;
    }
  }
}
