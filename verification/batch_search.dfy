/** The batch form of progressive IVF search, proved to give each query its single-query result. */
module BatchSearch {
  import opened NatArith
  import opened Prelude
  import opened Slots
  import opened TopK
  import opened ProgressiveSearch

  /** The query in this slot still lacks results. */
  predicate Incomplete(p: Problem, result: seq<Hit>, i: nat) {
    |Real(Slot(result, i, p.topK))| < p.Required()
  }

  predicate Unique(active: seq<nat>) {
    forall a, b :: 0 <= a < b < |active| ==> active[a] != active[b]
  }

  predicate Within(active: seq<nat>, count: nat) {
    forall a :: 0 <= a < |active| ==> active[a] < count
  }

  /** The listed queries that are still incomplete, in the listed order. */
  function Still(p: Problem, result: seq<Hit>, active: seq<nat>): seq<nat> {
    if active == [] then []
    else if Incomplete(p, result, active[0]) then [active[0]] + Still(p, result, active[1..])
    else Still(p, result, active[1..])
  }

  lemma {:induction false} StillConcat(p: Problem, result: seq<Hit>, a: seq<nat>, b: seq<nat>)
    ensures Still(p, result, a + b) == Still(p, result, a) + Still(p, result, b)
  {
    if a == [] {
      assert a + b == b;
    } else {
      StillConcat(p, result, a[1..], b);
      assert (a + b)[1..] == a[1..] + b;
      if Incomplete(p, result, a[0]) {
        ConcatAssoc([a[0]], Still(p, result, a[1..]), Still(p, result, b));
      }
    }
  }

  lemma {:induction false} StillFrame(p: Problem, result: seq<Hit>, result': seq<Hit>, active: seq<nat>)
    requires forall a :: 0 <= a < |active| ==> Slot(result, active[a], p.topK) == Slot(result', active[a], p.topK)
    ensures Still(p, result, active) == Still(p, result', active)
  {
    if active != [] {
      assert Slot(result, active[0], p.topK) == Slot(result', active[0], p.topK);
      StillFrame(p, result, result', active[1..]);
    }
  }

  lemma {:induction false} StillMember(p: Problem, result: seq<Hit>, active: seq<nat>, x: nat)
    ensures x in Still(p, result, active) <==> x in active && Incomplete(p, result, x)
  {
    if active != [] {
      StillMember(p, result, active[1..], x);
      assert active == [active[0]] + active[1..];
    }
  }

  lemma {:induction false} StillUnique(p: Problem, result: seq<Hit>, active: seq<nat>, count: nat)
    requires Unique(active) && Within(active, count)
    ensures Unique(Still(p, result, active)) && Within(Still(p, result, active), count)
  {
    if active != [] {
      StillUnique(p, result, active[1..], count);
      StillMember(p, result, active[1..], active[0]);
    }
  }

  // ---------------------------------------------------------------------------------------
  // Packing and storing groups.

  /** Gathers the chosen groups of w elements, as the retry buffers are filled. */
  method Gather<T>(source: seq<T>, count: nat, w: nat, chunk: seq<nat>) returns (packed: seq<T>)
    requires |source| == count * w && Within(chunk, count)
    ensures |packed| == |chunk| * w
    ensures forall r :: 0 <= r < |chunk| ==> Slot(packed, r, w) == Slot(source, chunk[r], w)
  {
    packed := [];
    for n := 0 to |chunk|
      invariant |packed| == n * w
      invariant forall r :: 0 <= r < n ==> Slot(packed, r, w) == Slot(source, chunk[r], w)
    {
      SlotFits(chunk[n], count, w);
      var start: nat := chunk[n] * w;
      SlotOfAppend(packed, source[start..start + w], n, w);
      packed := packed + source[start..start + w];
    }
  }

  /** The first n groups of the round stand over their queries' groups; the others are as before. */
  ghost predicate Scattered(p: Problem, before: seq<Hit>, after: seq<Hit>, count: nat, round: seq<Hit>, chunk: seq<nat>, n: nat)
    requires n <= |chunk|
  {
    && |after| == |before|
    && (forall r :: 0 <= r < n ==> Slot(after, chunk[r], p.topK) == Slot(round, r, p.topK))
    && (forall i :: 0 <= i < count && i !in chunk[..n] ==> Slot(after, i, p.topK) == Slot(before, i, p.topK))
  }

  lemma ScatterStep(p: Problem, before: seq<Hit>, mid: seq<Hit>, count: nat, round: seq<Hit>, chunk: seq<nat>, n: nat)
      returns (after: seq<Hit>)
    requires |before| == count * p.topK && |round| == |chunk| * p.topK && Within(chunk, count) && Unique(chunk) && n < |chunk|
    requires Scattered(p, before, mid, count, round, chunk, n)
    ensures |Slot(round, n, p.topK)| == p.topK && after == WithSlot(mid, chunk[n], p.topK, Slot(round, n, p.topK))
    ensures Scattered(p, before, after, count, round, chunk, n + 1)
    ensures Still(p, after, chunk[..n + 1]) ==
            Still(p, mid, chunk[..n]) + if |Real(Slot(round, n, p.topK))| < p.Required() then [chunk[n]] else []
  {
    SlotFits(n, |chunk|, p.topK);
    var group := Slot(round, n, p.topK);
    after := WithSlot(mid, chunk[n], p.topK, group);
    forall i | 0 <= i < count
      ensures Slot(after, i, p.topK) == if i == chunk[n] then group else Slot(mid, i, p.topK)
    {
      SlotOfWithSlot(mid, chunk[n], p.topK, group, i, count);
    }
    assert chunk[..n + 1] == chunk[..n] + [chunk[n]];
    StillFrame(p, mid, after, chunk[..n]);
    StillConcat(p, after, chunk[..n], [chunk[n]]);
  }

  /** Copies each group of a round back over its query's group and lists who is still incomplete. */
  method Scatter(p: Problem, result: seq<Hit>, count: nat, round: seq<Hit>, chunk: seq<nat>)
      returns (result': seq<Hit>, still: seq<nat>)
    requires |result| == count * p.topK && |round| == |chunk| * p.topK && Within(chunk, count) && Unique(chunk)
    ensures Scattered(p, result, result', count, round, chunk, |chunk|)
    ensures still == Still(p, result', chunk)
  {
    result', still := result, [];
    for n := 0 to |chunk|
      invariant Scattered(p, result, result', count, round, chunk, n)
      invariant still == Still(p, result', chunk[..n])
    {
      ghost var after := ScatterStep(p, result, result', count, round, chunk, n);
      var group := Slot(round, n, p.topK);
      result' := WithSlot(result', chunk[n], p.topK, group);
      var complete := IsComplete(group, p.Required());
      if !complete {
        still := still + [chunk[n]];
      }
    }
    assert chunk[..|chunk|] == chunk;
  }

  // ---------------------------------------------------------------------------------------
  // One expansion round.

  ghost predicate CallbackFailed(search: Search, error: ErrorKind) {
    exists call: nat, queries: seq<u32>, count: nat, lo: nat, hi: nat, seed: seq<Hit> ::
      search(call, queries, count, lo, hi, seed) == Err(error)
  }

  /** Query i's group has been extended by the probe range. */
  predicate Extended(p: Problem, queries: seq<u32>, before: seq<Hit>, after: seq<Hit>, lo: nat, hi: nat, i: nat) {
    Real(Slot(after, i, p.topK)) == Best(p.topK, Real(Slot(before, i, p.topK)) + Real(p.Rows(Slot(queries, i, p.dimension), lo, hi)))
  }

  method SearchChunk(p: Problem, queries: seq<u32>, count: nat, result: seq<Hit>, chunk: seq<nat>,
                     lo: nat, hi: nat, call: nat, search: Search)
      returns (r: Result<(seq<Hit>, seq<nat>)>)
    requires p.Valid() && Honest(p, search) && lo <= hi && chunk != []
    requires |queries| == count * p.dimension && |result| == count * p.topK && Within(chunk, count) && Unique(chunk)
    ensures r.Ok? ==>
              && |r.value.0| == |result|
              && (forall a :: 0 <= a < |chunk| ==> Extended(p, queries, result, r.value.0, lo, hi, chunk[a]))
              && (forall i :: 0 <= i < count && i !in chunk ==> Slot(r.value.0, i, p.topK) == Slot(result, i, p.topK))
              && r.value.1 == Still(p, r.value.0, chunk)
    ensures r.Err? ==> CallbackFailed(search, r.kind)
  {
    var packed := Gather(queries, count, p.dimension, chunk);
    var seed := Gather(result, count, p.topK, chunk);
    var round := search(call, packed, |chunk|, lo, hi, seed);
    if round.Err? {
      return Err(round.kind);
    }
    assert Answers(p, round.value, packed, |chunk|, lo, hi, seed);
    var result', still := Scatter(p, result, count, round.value, chunk);
    assert chunk[..|chunk|] == chunk;
    forall a | 0 <= a < |chunk|
      ensures Extended(p, queries, result, result', lo, hi, chunk[a])
    {
      assert SlotAnswers(p, round.value, packed, lo, hi, seed, a);
    }
    return Ok((result', still));
  }

  /** How many queries the retry buffer holds. */
  function ChunkSize(p: Problem, limit: nat, active: nat): (size: nat)
    ensures size >= 1
  {
    var bytes := SaturatingAdd(SaturatingMul(p.dimension, 4), SaturatingMul(p.topK, 12));
    Max(1, if bytes == 0 then active else limit / bytes)
  }

  /** A chunk is as large as the buffer limit allows: four bytes a component and twelve a result, and one query at least. */
  lemma ChunkFillsBuffer(p: Problem, limit: nat, active: nat)
    requires 0 < 4 * p.dimension + 12 * p.topK < USIZE_RANGE
    ensures var (size, bytes) := (ChunkSize(p, limit, active), 4 * p.dimension + 12 * p.topK);
            (size == 1 || size * bytes <= limit) && (size + 1) * bytes > limit
  {
    var bytes := 4 * p.dimension + 12 * p.topK;
    assert SaturatingAdd(SaturatingMul(p.dimension, 4), SaturatingMul(p.topK, 12)) == bytes;
    assert limit == (limit / bytes) * bytes + limit % bytes;
    assert (limit / bytes + 1) * bytes == (limit / bytes) * bytes + bytes;
    MulMono(limit / bytes + 1, ChunkSize(p, limit, active) + 1, bytes);
  }

  /** What holds of the result while a round is past the first `done` active queries. */
  ghost predicate Progress(p: Problem, queries: seq<u32>, count: nat, before: seq<Hit>, after: seq<Hit>, active: seq<nat>, done: nat,
                           lo: nat, hi: nat)
    requires done <= |active|
  {
    && |after| == |before|
    && (forall a :: 0 <= a < done ==> Extended(p, queries, before, after, lo, hi, active[a]))
    && (forall i :: 0 <= i < count && i !in active[..done] ==> Slot(after, i, p.topK) == Slot(before, i, p.topK))
  }

  lemma ProgressByChunk(p: Problem, queries: seq<u32>, count: nat, before: seq<Hit>, mid: seq<Hit>, after: seq<Hit>,
                        active: seq<nat>, done: nat, next: nat, lo: nat, hi: nat)
    requires done <= next <= |active| && Within(active, count) && Unique(active)
    requires Progress(p, queries, count, before, mid, active, done, lo, hi) && |after| == |mid|
    requires forall a :: 0 <= a < next - done ==> Extended(p, queries, mid, after, lo, hi, active[done..next][a])
    requires forall i :: 0 <= i < count && i !in active[done..next] ==> Slot(after, i, p.topK) == Slot(mid, i, p.topK)
    ensures Progress(p, queries, count, before, after, active, next, lo, hi)
    ensures Still(p, after, active[..next]) == Still(p, mid, active[..done]) + Still(p, after, active[done..next])
  {
    forall a | 0 <= a < next
      ensures Extended(p, queries, before, after, lo, hi, active[a])
      ensures a < done ==> Slot(after, active[a], p.topK) == Slot(mid, active[a], p.topK)
    {
      if a < done {
        assert active[a] !in active[done..next];
      } else {
        assert active[done..next][a - done] == active[a];
        assert active[a] !in active[..done];
      }
    }
    assert active[..next] == active[..done] + active[done..next];
    StillFrame(p, mid, after, active[..done]);
    StillConcat(p, after, active[..done], active[done..next]);
  }

  method SearchRound(p: Problem, queries: seq<u32>, count: nat, result: seq<Hit>, active: seq<nat>,
                     lo: nat, hi: nat, limit: nat, calls: nat, search: Search)
      returns (r: Result<(seq<Hit>, seq<nat>)>, calls': nat)
    requires p.Valid() && Honest(p, search) && lo <= hi
    requires |queries| == count * p.dimension && |result| == count * p.topK && Within(active, count) && Unique(active)
    ensures r.Ok? ==>
              && Progress(p, queries, count, result, r.value.0, active, |active|, lo, hi)
              && r.value.1 == Still(p, r.value.0, active)
    ensures r.Err? ==> CallbackFailed(search, r.kind)
  {
    var size := ChunkSize(p, limit, |active|);
    var done, result', next := 0, result, [];
    calls' := calls;
    while done < |active|
      invariant done <= |active|
      invariant Progress(p, queries, count, result, result', active, done, lo, hi)
      invariant next == Still(p, result', active[..done])
    {
      var end := Min(done + size, |active|);
      var chunk := active[done..end];
      var step := SearchChunk(p, queries, count, result', chunk, lo, hi, calls', search);
      calls' := calls' + 1;
      if step.Err? {
        return Err(step.kind), calls';
      }
      ProgressByChunk(p, queries, count, result, result', step.value.0, active, done, end, lo, hi);
      result', next, done := step.value.0, next + step.value.1, end;
    }
    assert active[..done] == active;
    return Ok((result', next)), calls';
  }

  // ---------------------------------------------------------------------------------------
  // The whole batch.

  /**
   * The state between rounds: each query holds its single-query result so far, that is, its
   * result at the width it stops at or at the current width if it has not stopped, and the
   * active queries are exactly the incomplete ones.
   */
  ghost predicate BatchInv(p: Problem, queries: seq<u32>, count: nat, initial: nat, n: nat, result: seq<Hit>, active: seq<nat>)
    requires p.Valid() && 0 < initial <= n
  {
    && |result| == count * p.topK && Within(active, count) && Unique(active)
    && (forall i :: 0 <= i < count ==> QueryInv(p, Slot(queries, i, p.dimension), initial, n, Slot(result, i, p.topK)))
    && (forall i :: 0 <= i < count ==> (Incomplete(p, result, i) <==> i in active))
  }

  ghost predicate QueryInv(p: Problem, q: Query, initial: nat, n: nat, hits: seq<Hit>)
    requires p.Valid() && 0 < initial <= n
  {
    && Real(hits) == p.At(q, Min(p.Width(q, initial), n))
    && (p.Width(q, initial) <= n || p.Width(q, initial) == p.Width(q, n))
  }

  lemma QueryStarts(p: Problem, queries: seq<u32>, count: nat, initial: nat, result: seq<Hit>, i: nat)
    requires p.Valid() && initial > 0 && i < count
    requires Answers(p, result, queries, count, 0, initial, [])
    ensures QueryInv(p, Slot(queries, i, p.dimension), initial, initial, Slot(result, i, p.topK))
  {
    var q := Slot(queries, i, p.dimension);
    assert SlotAnswers(p, result, queries, 0, initial, [], i);
    assert i * p.topK + p.topK > 0;
    assert Real(Slot([], i, p.topK)) + Real(p.Rows(q, 0, initial)) == Real(p.Rows(q, 0, initial));
  }

  /** A query that takes part in the round holds its result at the new width. */
  lemma ActiveQueryAdvances(p: Problem, q: Query, initial: nat, n: nat, before: seq<Hit>, after: seq<Hit>)
    requires p.Valid() && 0 < initial <= n < p.nlist && QueryInv(p, q, initial, n, before) && |Real(before)| < p.Required()
    requires Real(after) == Best(p.topK, Real(before) + Real(p.Rows(q, n, p.Doubled(n))))
    ensures QueryInv(p, q, initial, p.Doubled(n), after)
  {
    SeededRoundIsWhole(p, q, n, p.Doubled(n));
  }

  /** A query that is complete has stopped, and stays as it is. */
  lemma CompleteQueryStays(p: Problem, q: Query, initial: nat, n: nat, hits: seq<Hit>)
    requires p.Valid() && 0 < initial <= n < p.nlist && QueryInv(p, q, initial, n, hits) && |Real(hits)| >= p.Required()
    ensures QueryInv(p, q, initial, p.Doubled(n), hits)
  {
  }

  lemma RoundKeepsInv(p: Problem, queries: seq<u32>, count: nat, initial: nat, n: nat, result: seq<Hit>, active: seq<nat>,
                      result': seq<Hit>)
    requires p.Valid() && 0 < initial <= n < p.nlist && BatchInv(p, queries, count, initial, n, result, active)
    requires Progress(p, queries, count, result, result', active, |active|, n, p.Doubled(n))
    ensures BatchInv(p, queries, count, initial, p.Doubled(n), result', Still(p, result', active))
  {
    assert active[..|active|] == active;
    StillUnique(p, result', active, count);
    forall i | 0 <= i < count
      ensures QueryInv(p, Slot(queries, i, p.dimension), initial, p.Doubled(n), Slot(result', i, p.topK))
      ensures Incomplete(p, result', i) <==> i in Still(p, result', active)
    {
      var q := Slot(queries, i, p.dimension);
      StillMember(p, result', active, i);
      if i in active {
        var a :| 0 <= a < |active| && active[a] == i;
        assert Extended(p, queries, result, result', n, p.Doubled(n), active[a]);
        ActiveQueryAdvances(p, q, initial, n, Slot(result, i, p.topK), Slot(result', i, p.topK));
      } else {
        CompleteQueryStays(p, q, initial, n, Slot(result, i, p.topK));
      }
    }
  }

  /** The queries left incomplete by the first search. */
  method InitialActive(p: Problem, result: seq<Hit>, count: nat) returns (active: seq<nat>)
    requires |result| == count * p.topK
    ensures Within(active, count) && Unique(active)
    ensures forall i :: 0 <= i < count ==> (Incomplete(p, result, i) <==> i in active)
  {
    active := [];
    for n := 0 to count
      invariant Within(active, n) && Unique(active)
      invariant forall i :: 0 <= i < n ==> (Incomplete(p, result, i) <==> i in active)
    {
      var complete := IsComplete(Slot(result, n, p.topK), p.Required());
      if !complete {
        active := active + [n];
      }
    }
  }

  /** Every query's group holds what the single-query loop returns for it. */
  ghost predicate Delivered(p: Problem, auto: bool, initial: nat, queries: seq<u32>, count: nat, result: seq<Hit>)
    requires p.Valid() && initial > 0
  {
    && |result| == count * p.topK
    && forall i :: 0 <= i < count ==>
         var q := Slot(queries, i, p.dimension);
         Real(Slot(result, i, p.topK)) == p.At(q, if auto then p.Width(q, initial) else initial)
  }

  lemma AllStart(p: Problem, queries: seq<u32>, count: nat, initial: nat, result: seq<Hit>)
    requires p.Valid() && initial > 0
    requires Answers(p, result, queries, count, 0, initial, [])
    ensures forall i :: 0 <= i < count ==> QueryInv(p, Slot(queries, i, p.dimension), initial, initial, Slot(result, i, p.topK))
    ensures Delivered(p, false, initial, queries, count, result)
  {
    forall i | 0 <= i < count
      ensures QueryInv(p, Slot(queries, i, p.dimension), initial, initial, Slot(result, i, p.topK))
    {
      QueryStarts(p, queries, count, initial, result, i);
    }
  }

  lemma AllStop(p: Problem, queries: seq<u32>, count: nat, initial: nat, n: nat, result: seq<Hit>, active: seq<nat>)
    requires p.Valid() && 0 < initial <= n && BatchInv(p, queries, count, initial, n, result, active)
    requires n >= p.nlist || p.Required() == 0 || active == []
    ensures Delivered(p, true, initial, queries, count, result)
  {
    forall i | 0 <= i < count
      ensures var q := Slot(queries, i, p.dimension);
              Real(Slot(result, i, p.topK)) == p.At(q, p.Width(q, initial))
    {
      assert QueryInv(p, Slot(queries, i, p.dimension), initial, n, Slot(result, i, p.topK));
      assert Incomplete(p, result, i) <==> i in active;
    }
  }

  /**
   * Each query gets what the single-query loop would give it: the best k over the first width
   * of its own doubling sequence at which it is complete, or over all lists. An error is
   * always an error of the callback.
   */
  method Search(p: Problem, auto: bool, initial: nat, queries: seq<u32>, count: nat, limit: nat, search: ProgressiveSearch.Search)
      returns (r: Result<seq<Hit>>)
    requires p.Valid() && initial > 0 && count > 0 && |queries| == count * p.dimension && Honest(p, search)
    ensures r.Ok? ==> Delivered(p, auto, initial, queries, count, r.value)
    ensures r.Err? ==> CallbackFailed(search, r.kind)
  {
    r := search(0, queries, count, 0, initial, []);
    if r.Err? {
      return;
    }
    AllStart(p, queries, count, initial, r.value);
    if !auto {
      return;
    }
    var n, calls, result := initial, 1, r.value;
    var active := InitialActive(p, result, count);
    while n < p.nlist && p.Required() != 0 && active != []
      invariant initial <= n && BatchInv(p, queries, count, initial, n, result, active)
      decreases p.nlist - n
    {
      var previous := n;
      n := p.Doubled(n);
      var round, calls' := SearchRound(p, queries, count, result, active, previous, n, limit, calls, search);
      if round.Err? {
        return Err(round.kind);
      }
      RoundKeepsInv(p, queries, count, initial, previous, result, active, round.value.0);
      calls, result, active := calls', round.value.0, round.value.1;
    }
    AllStop(p, queries, count, initial, n, result, active);
    return Ok(result);
  }
}
