/**
 * Squared-L2 kernels and their early-abandoning twins. A non-negative float is its rank among
 * the non-negative floats, so ranks compare as the floats do, and rounding addition is any
 * addition that never gives less than its operands and is monotone in both, as addition of
 * section 5.4.1 rounded to nearest by section 4.3.1 of IEEE 754-2019 is.
 */
module L2Kernels {
  import opened Prelude

  const L2_PROBE_STRIDE: nat := 128
  const LANES: nat := 8

  /** `term(x, y)` is the rounded square of the rounded difference of two finite components. */
  datatype Arithmetic = Arithmetic(term: (u32, u32) -> nat, add: (nat, nat) -> nat) {
    ghost predicate Sound() {
      && (forall s, t :: add(s, t) >= s)
      && (forall s, s', t, t' :: s <= s' && t <= t' ==> add(s, t) <= add(s', t'))
    }
  }

  /** How a vector unit accumulates one lane and reduces its eight lanes. */
  datatype Unit = Unit(step: (nat, u32, u32) -> nat, reduce: seq<nat> -> nat) {
    ghost predicate Sound() {
      && (forall s, x, y :: step(s, x, y) >= s)
      && (forall l, l' :: Below(l, l') ==> reduce(l) <= reduce(l'))
    }
  }

  predicate Below(l: seq<nat>, l': seq<nat>) {
    |l| == |l'| == LANES && forall j :: 0 <= j < LANES ==> l[j] <= l'[j]
  }

  /** AVX2: multiply, then add; halves added, then quarters, then the last two. */
  function Avx2(m: Arithmetic): Unit {
    Unit((s, x, y) => m.add(s, m.term(x, y)), l => Avx2Reduce(m, l))
  }

  function Avx2Reduce(m: Arithmetic, l: seq<nat>): nat {
    if |l| != LANES then 0 else
    var sum128 := [m.add(l[0], l[4]), m.add(l[1], l[5]), m.add(l[2], l[6]), m.add(l[3], l[7])];
    var sum64 := [m.add(sum128[0], sum128[2]), m.add(sum128[1], sum128[3])];
    m.add(sum64[0], sum64[1])
  }

  /** NEON: two four-lane accumulators with multiply-accumulate; added, then summed pairwise. */
  function Neon(m: Arithmetic, mla: (nat, u32, u32) -> nat): Unit {
    Unit(mla, l => NeonReduce(m, l))
  }

  function NeonReduce(m: Arithmetic, l: seq<nat>): nat {
    if |l| != LANES then 0 else
    var (s0, s1, s2, s3) := (m.add(l[0], l[4]), m.add(l[1], l[5]), m.add(l[2], l[6]), m.add(l[3], l[7]));
    m.add(m.add(s0, s1), m.add(s2, s3))
  }

  lemma ReductionsMonotone(m: Arithmetic, l: seq<nat>, l': seq<nat>)
    requires m.Sound() && Below(l, l')
    ensures Avx2Reduce(m, l) <= Avx2Reduce(m, l') && NeonReduce(m, l) <= NeonReduce(m, l')
  {
    assert forall j :: 0 <= j < 4 ==> m.add(l[j], l[j + 4]) <= m.add(l'[j], l'[j + 4]);
  }

  lemma UnitsSound(m: Arithmetic, mla: (nat, u32, u32) -> nat)
    requires m.Sound() && forall s, x, y :: mla(s, x, y) >= s
    ensures Avx2(m).Sound() && Neon(m, mla).Sound()
  {
    forall l, l' | Below(l, l')
      ensures Avx2(m).reduce(l) <= Avx2(m).reduce(l') && Neon(m, mla).reduce(l) <= Neon(m, mla).reduce(l')
    {
      ReductionsMonotone(m, l, l');
    }
  }

  // ---------------------------------------------------------------------------------------
  // The plain kernels.

  /** The running sum after the terms from..n, starting from `sum`. */
  function SumFrom(m: Arithmetic, a: seq<u32>, b: seq<u32>, sum: nat, from: nat, n: nat): nat
    requires from <= n <= |a| == |b|
    decreases n
  {
    if from == n then sum else m.add(SumFrom(m, a, b, sum, from, n - 1), m.term(a[n - 1], b[n - 1]))
  }

  /** The lane accumulators after the given number of eight-element blocks. */
  function Lanes(u: Unit, a: seq<u32>, b: seq<u32>, blocks: nat): (l: seq<nat>)
    requires LANES * blocks <= |a| == |b|
    ensures |l| == LANES
  {
    if blocks == 0 then seq(LANES, _ => 0) else
    var before := Lanes(u, a, b, blocks - 1);
    seq(LANES, j requires 0 <= j < LANES => u.step(before[j], a[LANES * (blocks - 1) + j], b[LANES * (blocks - 1) + j]))
  }

  function ScalarDistance(m: Arithmetic, a: seq<u32>, b: seq<u32>): nat
    requires |a| == |b|
  {
    SumFrom(m, a, b, 0, 0, |a|)
  }

  function LaneDistance(m: Arithmetic, u: Unit, a: seq<u32>, b: seq<u32>): nat
    requires |a| == |b|
  {
    var blocks := |a| / LANES;
    SumFrom(m, a, b, u.reduce(Lanes(u, a, b, blocks)), LANES * blocks, |a|)
  }

  lemma {:induction false} SumGrows(m: Arithmetic, a: seq<u32>, b: seq<u32>, sum: nat, from: nat, k: nat, n: nat)
    requires m.Sound() && from <= k <= n <= |a| == |b|
    ensures SumFrom(m, a, b, sum, from, k) <= SumFrom(m, a, b, sum, from, n)
    decreases n
  {
    if k < n {
      SumGrows(m, a, b, sum, from, k, n - 1);
      assert m.add(SumFrom(m, a, b, sum, from, n - 1), m.term(a[n - 1], b[n - 1])) >= SumFrom(m, a, b, sum, from, n - 1);
    }
  }

  lemma {:induction false} LanesGrow(u: Unit, a: seq<u32>, b: seq<u32>, k: nat, n: nat)
    requires u.Sound() && k <= n && LANES * n <= |a| == |b|
    ensures Below(Lanes(u, a, b, k), Lanes(u, a, b, n)) && u.reduce(Lanes(u, a, b, k)) <= u.reduce(Lanes(u, a, b, n))
    decreases n
  {
    if k < n {
      LanesGrow(u, a, b, k, n - 1);
    }
  }

  // ---------------------------------------------------------------------------------------
  // What they compute, if addition is exact.

  ghost predicate Exact(m: Arithmetic) {
    forall s: nat, t: nat :: m.add(s, t) == s + t
  }

  /** The sum of the first n terms. */
  function Terms(m: Arithmetic, a: seq<u32>, b: seq<u32>, n: nat): nat
    requires n <= |a| == |b|
  {
    if n == 0 then 0 else Terms(m, a, b, n - 1) + m.term(a[n - 1], b[n - 1])
  }

  function LaneTotal(l: seq<nat>): nat
    requires |l| == LANES
  {
    l[0] + l[1] + l[2] + l[3] + l[4] + l[5] + l[6] + l[7]
  }

  /** Both reductions add up all eight lanes. */
  lemma ReductionsAddLanes(m: Arithmetic, l: seq<nat>)
    requires Exact(m) && |l| == LANES
    ensures Avx2Reduce(m, l) == NeonReduce(m, l) == LaneTotal(l)
  {
  }

  lemma {:induction false} SumIsTerms(m: Arithmetic, a: seq<u32>, b: seq<u32>, sum: nat, from: nat, n: nat)
    requires Exact(m) && from <= n <= |a| == |b|
    ensures SumFrom(m, a, b, sum, from, n) + Terms(m, a, b, from) == sum + Terms(m, a, b, n)
    decreases n
  {
    if from < n {
      SumIsTerms(m, a, b, sum, from, n - 1);
    }
  }

  function TermAt(m: Arithmetic, a: seq<u32>, b: seq<u32>, i: nat): nat
    requires i < |a| == |b|
  {
    m.term(a[i], b[i])
  }

  /** The terms of the eight components from i on. */
  function BlockTerms(m: Arithmetic, a: seq<u32>, b: seq<u32>, i: nat): (t: seq<nat>)
    requires i + LANES <= |a| == |b|
    ensures |t| == LANES && forall j :: 0 <= j < LANES ==> t[j] == m.term(a[i + j], b[i + j])
  {
    [TermAt(m, a, b, i), TermAt(m, a, b, i + 1), TermAt(m, a, b, i + 2), TermAt(m, a, b, i + 3),
     TermAt(m, a, b, i + 4), TermAt(m, a, b, i + 5), TermAt(m, a, b, i + 6), TermAt(m, a, b, i + 7)]
  }

  lemma BlockOfTerms(m: Arithmetic, a: seq<u32>, b: seq<u32>, i: nat)
    requires i + LANES <= |a| == |b|
    ensures Terms(m, a, b, i + LANES) == Terms(m, a, b, i) + LaneTotal(BlockTerms(m, a, b, i))
  {
    var t := BlockTerms(m, a, b, i);
    assert Terms(m, a, b, i + 2) == Terms(m, a, b, i) + t[0] + t[1];
    assert Terms(m, a, b, i + 4) == Terms(m, a, b, i + 2) + t[2] + t[3];
    assert Terms(m, a, b, i + 6) == Terms(m, a, b, i + 4) + t[4] + t[5];
    assert Terms(m, a, b, i + 8) == Terms(m, a, b, i + 6) + t[6] + t[7];
  }

  lemma LaneTotalAdds(x: seq<nat>, y: seq<nat>, z: seq<nat>)
    requires |x| == |y| == |z| == LANES && forall j :: 0 <= j < LANES ==> z[j] == x[j] + y[j]
    ensures LaneTotal(z) == LaneTotal(x) + LaneTotal(y)
  {
  }

  /** The unit's multiply-accumulate is exact too. */
  ghost predicate ExactStep(m: Arithmetic, u: Unit) {
    forall s: nat, x: u32, y: u32 :: u.step(s, x, y) == s + m.term(x, y)
  }

  /** Together the lanes hold the terms of all blocks. */
  lemma {:induction false} LanesHoldTerms(m: Arithmetic, u: Unit, a: seq<u32>, b: seq<u32>, blocks: nat)
    requires ExactStep(m, u) && LANES * blocks <= |a| == |b|
    ensures LaneTotal(Lanes(u, a, b, blocks)) == Terms(m, a, b, LANES * blocks)
  {
    if blocks > 0 {
      LanesHoldTerms(m, u, a, b, blocks - 1);
      BlockOfTerms(m, a, b, LANES * (blocks - 1));
      LaneTotalAdds(Lanes(u, a, b, blocks - 1), BlockTerms(m, a, b, LANES * (blocks - 1)), Lanes(u, a, b, blocks));
    }
  }

  /** Whichever kernel is selected, the distance is the sum of all terms, for vectors of any length. */
  lemma DistanceIsSum(m: Arithmetic, mla: (nat, u32, u32) -> nat, kernel: Kernel, a: seq<u32>, b: seq<u32>)
    requires Exact(m) && (forall s: nat, x: u32, y: u32 :: mla(s, x, y) == s + m.term(x, y)) && |a| == |b|
    requires kernel == Scalar || kernel == Vector(Avx2(m)) || kernel == Vector(Neon(m, mla))
    ensures Distance(m, kernel, a, b) == Terms(m, a, b, |a|)
  {
    if kernel.Scalar? {
      SumIsTerms(m, a, b, 0, 0, |a|);
    } else {
      var (u, blocks) := (kernel.unit, |a| / LANES);
      LanesHoldTerms(m, u, a, b, blocks);
      ReductionsAddLanes(m, Lanes(u, a, b, blocks));
      SumIsTerms(m, a, b, u.reduce(Lanes(u, a, b, blocks)), LANES * blocks, |a|);
    }
  }

  // ---------------------------------------------------------------------------------------
  // Thresholds.

  /** A float threshold; -0.0 counts as zero. */
  datatype Threshold = Negative | Finite(rank: nat) | Infinite | NotANumber

  predicate Exceeds(value: nat, threshold: Threshold) {
    match threshold
    case Negative => true
    case Finite(rank) => value > rank
    case Infinite => false
    case NotANumber => false
  }

  /** The contract of an early-abandoning kernel: the plain value, unless that exceeds the threshold. */
  function Unless(value: nat, threshold: Threshold): Option<nat> {
    if Exceeds(value, threshold) then None else Some(value)
  }

  method AccumulateTail(m: Arithmetic, a: seq<u32>, b: seq<u32>, sum: nat, from: nat) returns (r: nat)
    requires from <= |a| == |b|
    ensures r == SumFrom(m, a, b, sum, from, |a|)
  {
    r := sum;
    for i := from to |a|
      invariant r == SumFrom(m, a, b, sum, from, i)
    {
      r := m.add(r, m.term(a[i], b[i]));
    }
  }

  method ScalarUnlessExceeds(m: Arithmetic, a: seq<u32>, b: seq<u32>, limit: nat) returns (r: Option<nat>)
    requires m.Sound() && |a| == |b|
    ensures r == Unless(ScalarDistance(m, a, b), Finite(limit))
  {
    var sum, i := 0, 0;
    while i + L2_PROBE_STRIDE < |a|
      invariant i <= |a| && sum == SumFrom(m, a, b, 0, 0, i)
    {
      var end := i + L2_PROBE_STRIDE;
      while i < end
        invariant i <= end <= |a| && sum == SumFrom(m, a, b, 0, 0, i)
      {
        sum := m.add(sum, m.term(a[i], b[i]));
        i := i + 1;
      }
      if sum > limit {
        SumGrows(m, a, b, 0, 0, i, |a|);
        return None;
      }
    }
    while i < |a|
      invariant i <= |a| && sum == SumFrom(m, a, b, 0, 0, i)
    {
      sum := m.add(sum, m.term(a[i], b[i]));
      i := i + 1;
    }
    return if sum > limit then None else Some(sum);
  }

  method AddBlock(u: Unit, a: seq<u32>, b: seq<u32>, lanes: seq<nat>, i: nat) returns (r: seq<nat>)
    requires i % LANES == 0 && i + LANES <= |a| == |b| && lanes == Lanes(u, a, b, i / LANES)
    ensures r == Lanes(u, a, b, i / LANES + 1)
  {
    r := [];
    for j := 0 to LANES
      invariant |r| == j
      invariant forall k :: 0 <= k < j ==> r[k] == u.step(lanes[k], a[i + k], b[i + k])
    {
      r := r + [u.step(lanes[j], a[i + j], b[i + j])];
    }
  }

  method LaneSum(m: Arithmetic, u: Unit, a: seq<u32>, b: seq<u32>) returns (r: nat)
    requires |a| == |b|
    ensures r == LaneDistance(m, u, a, b)
  {
    var lanes, i := seq(LANES, _ => 0), 0;
    while i + LANES <= |a|
      invariant i <= |a| && i % LANES == 0 && lanes == Lanes(u, a, b, i / LANES)
    {
      lanes := AddBlock(u, a, b, lanes, i);
      i := i + LANES;
    }
    r := AccumulateTail(m, a, b, u.reduce(lanes), i);
  }

  /** Every probe reads a lower bound of the value the kernel would return. */
  lemma ProbeIsLowerBound(m: Arithmetic, u: Unit, a: seq<u32>, b: seq<u32>, k: nat)
    requires m.Sound() && u.Sound() && |a| == |b| && k <= |a| / LANES
    ensures u.reduce(Lanes(u, a, b, k)) <= LaneDistance(m, u, a, b)
  {
    var blocks := |a| / LANES;
    LanesGrow(u, a, b, k, blocks);
    SumGrows(m, a, b, u.reduce(Lanes(u, a, b, blocks)), LANES * blocks, LANES * blocks, |a|);
  }

  method TailUnlessExceeds(m: Arithmetic, a: seq<u32>, b: seq<u32>, sum: nat, from: nat, limit: nat) returns (r: Option<nat>)
    requires m.Sound() && from <= |a| == |b| && sum <= limit
    ensures r == Unless(SumFrom(m, a, b, sum, from, |a|), Finite(limit))
  {
    var result, i := sum, from;
    while i < |a|
      invariant from <= i <= |a| && result == SumFrom(m, a, b, sum, from, i) && result <= limit
    {
      result := m.add(result, m.term(a[i], b[i]));
      i := i + 1;
      if result > limit {
        SumGrows(m, a, b, sum, from, i, |a|);
        return None;
      }
    }
    return Some(result);
  }

  method LaneUnlessExceeds(m: Arithmetic, u: Unit, a: seq<u32>, b: seq<u32>, limit: nat) returns (r: Option<nat>)
    requires m.Sound() && u.Sound() && |a| == |b|
    ensures r == Unless(LaneDistance(m, u, a, b), Finite(limit))
  {
    var lanes, i := seq(LANES, _ => 0), 0;
    while i + LANES <= |a|
      invariant i <= |a| && i % LANES == 0 && lanes == Lanes(u, a, b, i / LANES)
    {
      lanes := AddBlock(u, a, b, lanes, i);
      i := i + LANES;
      if i % L2_PROBE_STRIDE == 0 && u.reduce(lanes) > limit {
        ProbeIsLowerBound(m, u, a, b, i / LANES);
        return None;
      }
    }
    var result := u.reduce(lanes);
    if result > limit {
      ProbeIsLowerBound(m, u, a, b, i / LANES);
      return None;
    }
    r := TailUnlessExceeds(m, a, b, result, i, limit);
  }

  // ---------------------------------------------------------------------------------------
  // Dispatch.

  /** The kernel a build selects; the plain and the abandoning form select the same one. */
  datatype Kernel = Scalar | Vector(unit: Unit) {
    ghost predicate Sound() {
      Scalar? || unit.Sound()
    }
  }

  function Distance(m: Arithmetic, kernel: Kernel, a: seq<u32>, b: seq<u32>): nat
    requires |a| == |b|
  {
    match kernel
    case Scalar => ScalarDistance(m, a, b)
    case Vector(unit) => LaneDistance(m, unit, a, b)
  }

  method PlainDistance(m: Arithmetic, kernel: Kernel, a: seq<u32>, b: seq<u32>) returns (r: nat)
    requires |a| == |b|
    ensures r == Distance(m, kernel, a, b)
  {
    match kernel
    case Scalar => r := AccumulateTail(m, a, b, 0, 0);
    case Vector(unit) => r := LaneSum(m, unit, a, b);
  }

  /** Abandonment is exact: `None` if and only if the plain kernel's value exceeds the threshold. */
  method UnlessExceeds(m: Arithmetic, kernel: Kernel, a: seq<u32>, b: seq<u32>, threshold: Threshold) returns (r: Option<nat>)
    requires m.Sound() && kernel.Sound() && |a| == |b|
    ensures r == Unless(Distance(m, kernel, a, b), threshold)
  {
    match threshold
    case Negative => r := None;
    case Finite(limit) =>
      if kernel.Scalar? {
        r := ScalarUnlessExceeds(m, a, b, limit);
      } else {
        r := LaneUnlessExceeds(m, kernel.unit, a, b, limit);
      }
    case _ =>
      var value := PlainDistance(m, kernel, a, b);
      r := Some(value);
  }
}
