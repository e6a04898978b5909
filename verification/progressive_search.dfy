/**
 * Progressive IVF search. The number of probed lists doubles until a query has enough results;
 * the batch form keeps only unfinished queries active, scans only the newly added probe range
 * seeded with what each query already has, and packs active queries into bounded chunks.
 */
module ProgressiveSearch {
  import opened Bits
  import opened Prelude
  import opened Slots
  import opened TopK

  const USIZE_RANGE: nat := U64_RANGE

  type Query = seq<u32>

  /**
   * One batch request. `probe(q, j)` are the rows of the list that is j-th closest to query q;
   * vectors are bit patterns of their components.
   */
  datatype Problem = Problem(
    probe: (Query, nat) -> seq<Hit>,
    dimension: nat,
    topK: nat,
    nlist: nat,
    availableMatches: nat
  ) {
    predicate Valid() {
      topK >= 1 && nlist < USIZE_RANGE
    }

    function Required(): nat {
      Min(topK, availableMatches)
    }

    function Rows(q: Query, lo: nat, hi: nat): seq<Hit>
      decreases hi
    {
      if lo >= hi then [] else Rows(q, lo, hi - 1) + probe(q, hi - 1)
    }

    /** What a query holds after probing its first n lists. */
    function At(q: Query, n: nat): seq<Hit> {
      Best(topK, Real(Rows(q, 0, n)))
    }

    function Doubled(n: nat): (r: nat)
      requires Valid()
      ensures 0 < n < nlist ==> n < r <= nlist
    {
      Min(SaturatingMul(n, 2), nlist)
    }

    predicate Done(q: Query, n: nat) {
      n >= nlist || |At(q, n)| >= Required()
    }

    /** The first width of the doubling sequence from n at which the query is complete, or all lists. */
    function Width(q: Query, n: nat): (w: nat)
      requires Valid() && n > 0
      ensures n <= w && Done(q, w) && (w == n || w <= nlist)
      decreases nlist - n
    {
      if Done(q, n) then n else Width(q, Doubled(n))
    }
  }

  function SaturatingMul(a: nat, b: nat): (r: nat) {
    Min(a * b, USIZE_RANGE - 1)
  }

  function SaturatingAdd(a: nat, b: nat): (r: nat) {
    Min(a + b, USIZE_RANGE - 1)
  }

  /**
   * A search callback. The first argument numbers the calls of a run, so that a callback with
   * state may answer or fail differently each time.
   */
  type Search = (nat, seq<u32>, nat, nat, nat, seq<Hit>) -> Result<seq<Hit>>

  predicate SlotAnswers(p: Problem, out: seq<Hit>, queries: seq<u32>, lo: nat, hi: nat, seed: seq<Hit>, i: nat) {
    Real(Slot(out, i, p.topK)) ==
    Best(p.topK, Real(Slot(seed, i, p.topK)) + Real(p.Rows(Slot(queries, i, p.dimension), lo, hi)))
  }

  /**
   * For each query of the call, the padded best k of its seed and the rows of the probe range;
   * an empty seed seeds no query.
   */
  predicate Answers(p: Problem, out: seq<Hit>, queries: seq<u32>, count: nat, lo: nat, hi: nat, seed: seq<Hit>) {
    |out| == count * p.topK && forall i :: 0 <= i < count ==> SlotAnswers(p, out, queries, lo, hi, seed, i)
  }

  /** The callback's contract: whenever it succeeds, its output answers the call. */
  ghost predicate Honest(p: Problem, search: Search) {
    forall call: nat, queries: seq<u32>, count: nat, lo: nat, hi: nat, seed: seq<Hit> ::
      var r := search(call, queries, count, lo, hi, seed);
      |queries| == count * p.dimension && lo <= hi && (seed == [] || |seed| == count * p.topK) && r.Ok? ==>
      Answers(p, r.value, queries, count, lo, hi, seed)
  }

  // ---------------------------------------------------------------------------------------
  // Widening a probe range.

  lemma {:induction false} RowsSplit(p: Problem, q: Query, lo: nat, mid: nat, hi: nat)
    requires lo <= mid <= hi
    ensures p.Rows(q, lo, mid) + p.Rows(q, mid, hi) == p.Rows(q, lo, hi)
    decreases hi
  {
    if mid == hi {
      assert p.Rows(q, lo, mid) + [] == p.Rows(q, lo, mid);
    } else {
      RowsSplit(p, q, lo, mid, hi - 1);
      ConcatAssoc(p.Rows(q, lo, mid), p.Rows(q, mid, hi - 1), p.probe(q, hi - 1));
    }
  }

  /** The rows of one list, and of none. */
  lemma RowsOfOne(p: Problem, q: Query, j: nat)
    ensures p.Rows(q, j, j) == [] && p.Rows(q, j, j + 1) == p.probe(q, j)
  {
  }

  /** Seeding with the best of the lists probed so far and scanning only the new ones loses nothing. */
  lemma SeededRoundIsWhole(p: Problem, q: Query, previous: nat, n: nat)
    requires previous <= n
    ensures Best(p.topK, p.At(q, previous) + Real(p.Rows(q, previous, n))) == p.At(q, n)
  {
    RowsSplit(p, q, 0, previous, n);
    RealConcat(p.Rows(q, 0, previous), p.Rows(q, previous, n));
    BestOfBest(p.topK, Real(p.Rows(q, 0, previous)), Real(p.Rows(q, previous, n)));
  }

  // ---------------------------------------------------------------------------------------
  // The sequence of widths.

  /** The query's first m lists hold enough hits that are not padding. */
  predicate Enough(p: Problem, q: Query, m: nat) {
    |Real(p.Rows(q, 0, m))| >= Min(p.topK, p.availableMatches)
  }

  lemma HoldsEnough(p: Problem, q: Query, m: nat)
    ensures |p.At(q, m)| == Min(p.topK, |Real(p.Rows(q, 0, m))|)
    ensures |p.At(q, m)| >= p.Required() <==> Enough(p, q, m)
  {
  }

  lemma PowersDouble(n: nat, k: nat)
    ensures n * Pow2(k + 1) == (2 * n) * Pow2(k)
  {
  }

  /** A width at which the search goes on. */
  predicate TooNarrow(p: Problem, q: Query, m: nat) {
    m < p.nlist && !Enough(p, q, m)
  }

  lemma WidthStep(p: Problem, q: Query, n: nat)
    requires p.Valid() && 0 < n
    ensures !TooNarrow(p, q, n) ==> p.Width(q, n) == n
    ensures TooNarrow(p, q, n) ==> p.Width(q, n) == p.Width(q, p.Doubled(n))
    ensures n < p.nlist ==> p.Doubled(n) == Min(2 * n, p.nlist)
  {
    HoldsEnough(p, q, n);
  }

  /** One doubling further back, the powers of 2n are powers of n. */
  lemma NarrowPowers(p: Problem, q: Query, n: nat, k: nat)
    requires TooNarrow(p, q, n) && forall j :: 0 <= j < k ==> TooNarrow(p, q, 2 * n * Pow2(j))
    ensures forall j :: 0 <= j < k + 1 ==> TooNarrow(p, q, n * Pow2(j))
  {
    forall j | 0 <= j < k + 1
      ensures TooNarrow(p, q, n * Pow2(j))
    {
      if j > 0 {
        PowersDouble(n, j - 1);
        assert TooNarrow(p, q, 2 * n * Pow2(j - 1));
      }
    }
  }

  /**
   * The final width: starting below the number of lists it is the first of n, 2n, 4n, ... that
   * holds enough hits or covers all lists, cut to the number of lists. Every earlier one is
   * smaller than that number and holds too few.
   */
  lemma {:induction false} WidthIsFirstPower(p: Problem, q: Query, n: nat) returns (k: nat)
    requires p.Valid() && 0 < n < p.nlist
    ensures p.Width(q, n) == Min(n * Pow2(k), p.nlist) && !TooNarrow(p, q, n * Pow2(k))
    ensures forall j :: 0 <= j < k ==> TooNarrow(p, q, n * Pow2(j))
    decreases p.nlist - n
  {
    WidthStep(p, q, n);
    if !TooNarrow(p, q, n) {
      k := 0;
    } else if 2 * n >= p.nlist {
      k := 1;
      WidthStep(p, q, p.nlist);
      PowersDouble(n, 0);
    } else {
      var rest := WidthIsFirstPower(p, q, 2 * n);
      k := rest + 1;
      PowersDouble(n, rest);
      NarrowPowers(p, q, n, rest);
    }
  }

  /** A search that starts with all lists, or more, stays there. */
  lemma WidthCovers(p: Problem, q: Query, n: nat)
    requires p.Valid() && n > 0 && n >= p.nlist
    ensures p.Width(q, n) == n
  {
  }

  // ---------------------------------------------------------------------------------------
  // The single-query loop.

  /** Whether at least `required` entries are not padding; counting stops at `required`. */
  method IsComplete(hits: seq<Hit>, required: nat) returns (complete: bool)
    ensures complete <==> |Real(hits)| >= required
  {
    var count, i := 0, 0;
    while i < |hits| && count < required
      invariant i <= |hits|
      invariant count == |Real(hits[..i])| && count <= required
    {
      RealConcat(hits[..i], [hits[i]]);
      assert hits[..i + 1] == hits[..i] + [hits[i]];
      if hits[i].distance != MAX_DISTANCE {
        count := count + 1;
      }
      i := i + 1;
    }
    RealConcat(hits[..i], hits[i..]);
    assert hits == hits[..i] + hits[i..];
    complete := count >= required;
  }

  /** A whole search of the first n lists for one query. */
  type Scan = (nat, nat) -> Result<seq<Hit>>

  ghost predicate ScansFor(p: Problem, q: Query, scan: Scan) {
    forall call: nat, n: nat ::
      var r := scan(call, n);
      r.Ok? ==> |r.value| == p.topK && Real(r.value) == p.At(q, n)
  }

  method SingleSearch(p: Problem, auto: bool, initial: nat, q: Query, scan: Scan) returns (r: Result<seq<Hit>>)
    requires p.Valid() && initial > 0 && ScansFor(p, q, scan)
    ensures r.Ok? ==> |r.value| == p.topK && Real(r.value) == p.At(q, if auto then p.Width(q, initial) else initial)
    ensures r.Err? ==> exists call, n :: scan(call, n) == r
  {
    var nprobe, call := initial, 0;
    while true
      invariant nprobe > 0
      invariant p.Width(q, nprobe) == p.Width(q, initial) && (!auto ==> nprobe == initial)
      decreases p.nlist - nprobe
    {
      r := scan(call, nprobe);
      if r.Err? {
        return;
      }
      call := call + 1;
      if !auto || nprobe >= p.nlist || p.Required() == 0 {
        return;
      }
      var complete := IsComplete(r.value, p.Required());
      if complete {
        return;
      }
      nprobe := p.Doubled(nprobe);
    }
  }
}
