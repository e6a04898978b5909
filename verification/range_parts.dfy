/** Range scans in parts: collectors of their own, merged in any order, against one scan of the whole list. */
module RangeParts {
  import opened L2Kernels
  import opened Prelude
  import opened RangeCollectors

  predicate SameDimension(query: seq<u32>, list: seq<Entry>) {
    forall i :: 0 <= i < |list| ==> |list[i].vector| == |query|
  }

  /** One scan: the arithmetic and kernel of the distances, the query and the filter. */
  datatype Search = Search(m: Arithmetic, kernel: Kernel, query: seq<u32>, filter: i64 -> bool) {
    /** The rows it visits; entries of another dimension are not scanned at all. */
    function Rows(list: seq<Entry>): seq<Row> {
      if SameDimension(query, list) then Visited(m, kernel, query, list, filter) else []
    }
  }

  // ---------------------------------------------------------------------------------------
  // Parts of a list.

  /** Visiting a list visits its front and then the rest. */
  lemma {:induction false} VisitedSplit(s: Search, x: seq<Entry>, y: seq<Entry>)
    requires SameDimension(s.query, x) && SameDimension(s.query, y)
    ensures s.Rows(x + y) == s.Rows(x) + s.Rows(y)
    decreases |y|
  {
    if y == [] {
      assert x + y == x;
    } else {
      var (front, last) := (y[..|y| - 1], y[|y| - 1]);
      VisitedSplit(s, x, front);
      assert (x + y)[..|x + y| - 1] == x + front;
      if s.filter(last.id) {
        ConcatAssoc(s.Rows(x), s.Rows(front), [Row(last.id, Distance(s.m, s.kernel, s.query, last.vector))]);
      }
    }
  }

  function Joined(parts: seq<seq<Entry>>): seq<Entry> {
    if parts == [] then [] else parts[0] + Joined(parts[1..])
  }

  predicate AllSameDimension(query: seq<u32>, parts: seq<seq<Entry>>) {
    forall i :: 0 <= i < |parts| ==> SameDimension(query, parts[i])
  }

  /** The rows each part visits. */
  function RowsOfParts(s: Search, parts: seq<seq<Entry>>): (r: seq<seq<Row>>)
    ensures |r| == |parts| && forall i :: 0 <= i < |parts| ==> r[i] == s.Rows(parts[i])
  {
    if parts == [] then [] else [s.Rows(parts[0])] + RowsOfParts(s, parts[1..])
  }

  lemma {:induction false} RowsOfJoined(s: Search, parts: seq<seq<Entry>>)
    requires AllSameDimension(s.query, parts)
    ensures SameDimension(s.query, Joined(parts)) && Flatten(RowsOfParts(s, parts)) == s.Rows(Joined(parts))
  {
    if parts != [] {
      RowsOfJoined(s, parts[1..]);
      VisitedSplit(s, parts[0], Joined(parts[1..]));
      assert RowsOfParts(s, parts)[1..] == RowsOfParts(s, parts[1..]);
    }
  }

  lemma RowsOfConcat(s: Search, a: seq<seq<Entry>>, b: seq<seq<Entry>>)
    ensures RowsOfParts(s, a + b) == RowsOfParts(s, a) + RowsOfParts(s, b)
  {
    var (whole, front, back) := (RowsOfParts(s, a + b), RowsOfParts(s, a), RowsOfParts(s, b));
    forall i | 0 <= i < |whole|
      ensures whole[i] == (front + back)[i]
    {
      assert whole[i] == s.Rows((a + b)[i]);
    }
  }

  lemma AroundMultiset<T>(a: seq<T>, x: T, b: seq<T>)
    ensures multiset(a + ([x] + b)) == multiset{x} + multiset(a + b)
  {
    assert multiset(a + ([x] + b)) == multiset(a) + multiset([x] + b);
  }

  lemma PartsAround(s: Search, before: seq<seq<Entry>>, part: seq<Entry>, after: seq<seq<Entry>>)
    ensures multiset(RowsOfParts(s, before + ([part] + after))) == multiset{s.Rows(part)} + multiset(RowsOfParts(s, before + after))
  {
    RowsOfConcat(s, before, [part] + after);
    RowsOfConcat(s, [part], after);
    RowsOfConcat(s, before, after);
    assert RowsOfParts(s, [part]) == [s.Rows(part)];
    AroundMultiset(RowsOfParts(s, before), s.Rows(part), RowsOfParts(s, after));
  }

  /** Parts in another order visit the same rows in another order. */
  lemma {:induction false} RowsOfPermuted(s: Search, parts: seq<seq<Entry>>, order: seq<seq<Entry>>)
    requires multiset(parts) == multiset(order)
    ensures multiset(RowsOfParts(s, parts)) == multiset(RowsOfParts(s, order))
  {
    if parts == [] {
      assert |multiset(order)| == 0;
    } else {
      assert parts[0] in multiset(order);
      var before, after := TakenOut(order, parts[0]);
      RestsAgree(parts, multiset(before + after));
      RowsOfPermuted(s, parts[1..], before + after);
      PartsAround(s, before, parts[0], after);
    }
  }

  // ---------------------------------------------------------------------------------------
  // Overflows.

  lemma OverflowByRows(cutoff: Threshold, x: seq<Row>, y: seq<Row>)
    requires multiset(x) == multiset(y) && Overflows(cutoff, x)
    ensures Overflows(cutoff, y)
  {
    var i :| 0 <= i < |x| && !Exceeds(x[i].distance, cutoff) && x[i].distance >= INFINITY_RANK;
    assert x[i] in multiset(y);
    var j :| 0 <= j < |y| && y[j] == x[i];
  }

  lemma OverflowOfParts(cutoff: Threshold, x: seq<Row>, y: seq<Row>)
    ensures Overflows(cutoff, x + y) <==> Overflows(cutoff, x) || Overflows(cutoff, y)
  {
    var all := x + y;
    assert forall i :: 0 <= i < |x| ==> all[i] == x[i];
    assert forall i :: 0 <= i < |y| ==> all[|x| + i] == y[i];
  }

  lemma OverflowOfFront(cutoff: Threshold, rows: seq<seq<Row>>, i: nat)
    requires i <= |rows| && Overflows(cutoff, Flatten(rows[..i]))
    ensures Overflows(cutoff, Flatten(rows))
  {
    assert rows == rows[..i] + rows[i..];
    FlattenSplit(rows[..i], rows[i..]);
    OverflowOfParts(cutoff, Flatten(rows[..i]), Flatten(rows[i..]));
  }

  // ---------------------------------------------------------------------------------------
  // Scanning.

  /** Scans one part with a collector of its own and merges that. */
  method MergePart(merged: RangeCollector, s: Search, part: seq<Entry>, ghost sofar: seq<Row>) returns (ok: bool)
    requires merged.Valid() && merged.band.metric == L2 && s.m.Sound() && s.kernel.Sound() && SameDimension(s.query, part)
    requires merged.Collected(sofar)
    modifies merged
    ensures ok <==> !Overflows(merged.cutoff, s.Rows(part))
    ensures ok ==> merged.Collected(sofar + s.Rows(part))
  {
    var collector := new RangeCollector(merged.band);
    ok := collector.Scan(s.m, s.kernel, s.query, part, s.filter);
    if ok {
      SplitScan(merged.band, merged.cutoff, sofar, s.Rows(part));
      merged.Merge(collector);
    }
  }

  lemma OneMore(cutoff: Threshold, rows: seq<seq<Row>>, i: nat)
    requires i < |rows|
    ensures Flatten(rows[..i + 1]) == Flatten(rows[..i]) + rows[i]
    ensures Overflows(cutoff, Flatten(rows[..i + 1])) <==> Overflows(cutoff, Flatten(rows[..i])) || Overflows(cutoff, rows[i])
  {
    assert rows[..i + 1] == rows[..i] + [rows[i]];
    FlattenSplit(rows[..i], [rows[i]]);
    assert Flatten([rows[i]]) == rows[i] + Flatten([rows[i]][1..]);
    OverflowOfParts(cutoff, Flatten(rows[..i]), rows[i]);
  }

  /** Scans the parts with collectors of their own and merges these in the order the parts come in. */
  method ScanInOrder(band: Band, s: Search, order: seq<seq<Entry>>) returns (ok: bool, merged: RangeCollector)
    requires band.metric == L2 && s.m.Sound() && s.kernel.Sound() && AllSameDimension(s.query, order)
    ensures fresh(merged) && merged.band == band && merged.Valid()
    ensures ok <==> !Overflows(band.Cutoff(), Flatten(RowsOfParts(s, order)))
    ensures ok ==> merged.Collected(Flatten(RowsOfParts(s, order)))
  {
    ghost var rows := RowsOfParts(s, order);
    merged := new RangeCollector(band);
    for i := 0 to |order|
      invariant merged.Collected(Flatten(rows[..i])) && !Overflows(band.Cutoff(), Flatten(rows[..i]))
    {
      OneMore(band.Cutoff(), rows, i);
      ok := MergePart(merged, s, order[i], Flatten(rows[..i]));
      if !ok {
        OverflowOfFront(band.Cutoff(), rows, i + 1);
        return;
      }
    }
    assert rows[..|order|] == rows;
    ok := true;
  }

  /**
   * Parallel scans: the parts of a list, scanned apart and merged in any order, give the rows of
   * one scan of the whole list as a multiset, with the same counters, and fail exactly if it does.
   */
  method ScanInParts(band: Band, s: Search, ghost parts: seq<seq<Entry>>, order: seq<seq<Entry>>) returns (ok: bool, merged: RangeCollector)
    requires band.metric == L2 && s.m.Sound() && s.kernel.Sound() && AllSameDimension(s.query, parts) && multiset(order) == multiset(parts)
    ensures SameDimension(s.query, Joined(parts))
    ensures var visited := Visited(s.m, s.kernel, s.query, Joined(parts), s.filter);
            && (ok <==> !Overflows(band.Cutoff(), visited))
            && (ok ==> multiset(merged.rows) == multiset(Admitted(band, visited)) && merged.scanned == |visited|
                       && merged.earlyAbandoned == Above(band.Cutoff(), visited))
  {
    forall i | 0 <= i < |order|
      ensures SameDimension(s.query, order[i])
    {
      assert order[i] in multiset(parts);
    }
    RowsOfJoined(s, parts);
    RowsOfPermuted(s, parts, order);
    MergeOrderIrrelevant(band, band.Cutoff(), RowsOfParts(s, parts), RowsOfParts(s, order));
    ok, merged := ScanInOrder(band, s, order);
    ghost var (x, y) := (s.Rows(Joined(parts)), Flatten(RowsOfParts(s, order)));
    if Overflows(band.Cutoff(), x) {
      OverflowByRows(band.Cutoff(), x, y);
    } else if Overflows(band.Cutoff(), y) {
      OverflowByRows(band.Cutoff(), y, x);
    }
  }
}
