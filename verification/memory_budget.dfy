/**
 * The reader's memory budget: warming up, loading the row-ID order and preloading adjacency all
 * resize the two window caches around what is resident.
 */
module MemoryBudget {
  import opened HeaderLayout
  import opened NatArith
  import opened Prelude
  import RowIdSection

  const DECODE_BUFFER: nat := 1024 * 1024
  const PRELOAD_ALIGNMENT: nat := 64 * 1024

  // ---------------------------------------------------------------------------------------
  // Sizes derived from the header.

  function DecodedCodebook(h: Header): nat {
    var centroids: nat := h.dimension * Centroids(h.pqBits);
    (h.pqM + 1) * 8 + centroids * 4
  }

  function Norms(h: Header): nat {
    var count: nat := h.pqM * Centroids(h.pqBits);
    count * 4
  }

  function DecodedRowIds(h: Header): int {
    h.sections.rowIds.length - RowIdSection.HEADER_SIZE
  }

  /** Bytes that stay resident. */
  function Steady(h: Header): int {
    DecodedCodebook(h) + DecodedRowIds(h) + h.sections.pqCodes.length + Norms(h) + h.sections.adjacencyIndex.length
    + h.sections.adjacency.length / PAGE_SIZE
  }

  /** The most that is allocated at once while the resident sections are decoded. */
  function Peak(h: Header): int {
    var (codebook, rowIds, codes, index) :=
      (h.sections.codebook.length, h.sections.rowIds.length, h.sections.pqCodes.length, h.sections.adjacencyIndex.length);
    Max(Max(codebook + rowIds + codes + index + 1 + DecodedCodebook(h),
            rowIds + codes + index + DecodedCodebook(h) + DecodedRowIds(h) + 1),
        Max(codes + index + DecodedCodebook(h) + DecodedRowIds(h) + index + 1, Steady(h)))
  }

  /** For every constructed header both sizes are meaningful, and warm-up's check covers the steady size. */
  lemma SteadyWithinPeak(p: Params, h: Header)
    requires ForLayout(p) == Ok(h)
    ensures 0 <= Steady(h) <= Peak(h)
  {
    assert h.sections.rowIds.length == p.rowIdsLen >= RowIdSection.HEADER_SIZE;
  }

  // ---------------------------------------------------------------------------------------
  // The budget as values.

  datatype Order = NotLoaded | Loaded | UnavailableByBudget

  /** What never changes after a reader is opened. */
  datatype Limits = Limits(maxResident: u64, steady: nat, peak: nat, orderBytes: nat, adjacencyBytes: nat, preload: nat,
                           desiredAdjacency: u64)

  /** The limits of a reader opened on a header. */
  function LimitsOf(h: Header, maxResident: u64, preload: nat, desiredAdjacency: u64): Limits
    requires 0 <= Steady(h) <= Peak(h)
  {
    Limits(maxResident, Steady(h), Peak(h), h.sections.rowIdOrder.length, h.sections.adjacency.length, preload, desiredAdjacency)
  }

  datatype Memory = Memory(resident: bool, adjacencyCache: nat, rawCache: nat, hot: nat, order: Order, desiredRaw: u64)

  function OrderBytes(l: Limits, m: Memory): nat {
    if m.order.Loaded? then l.orderBytes else 0
  }

  /** Everything the reader holds and may come to hold. */
  function Used(l: Limits, m: Memory): nat {
    l.steady + m.hot + OrderBytes(l, m) + m.adjacencyCache + m.rawCache
  }

  predicate Budgeted(l: Limits, m: Memory) {
    m.resident && Used(l, m) <= l.maxResident
  }

  /** What holds from the start: what is loaded outside the caches fits. */
  predicate Reachable(l: Limits, m: Memory) {
    && l.steady <= l.peak
    && (m.resident ==> l.steady + m.hot + OrderBytes(l, m) <= l.maxResident)
    && (!m.resident ==> m.hot == 0 && m.order.NotLoaded?)
  }

  function SaturatingSub(a: nat, b: nat): nat {
    if a >= b then a - b else 0
  }

  function SaturatingAdd64(a: nat, b: nat): nat {
    Min(a + b, U64_RANGE - 1)
  }

  /** Both caches share the total in proportion to what each wants. */
  function AdjacencyShare(total: nat, desiredAdjacency: nat, desiredTotal: nat): int {
    if desiredTotal == 0 then 0 else total * desiredAdjacency / desiredTotal
  }

  lemma ShareAtMost(total: nat, desired: nat, whole: nat, bound: nat)
    requires 0 < whole && total * desired <= bound * whole
    ensures 0 <= total * desired / whole <= bound
  {
    DivNonNegative(total * desired, whole);
    assert (bound + 1) * whole == bound * whole + whole;
    DivBound(total * desired, bound + 1, whole);
  }

  lemma RestAtMost(total: nat, desired: nat, whole: nat)
    requires 0 < whole && total <= whole && desired <= whole
    ensures total - total * desired / whole <= whole - desired
  {
    if total + desired >= whole {
      var least: nat := total + desired - whole;
      assert total * desired - least * whole == (whole - total) * (whole - desired);
      assert (whole - total) * (whole - desired) >= 0;
      DivAtLeast(total * desired, least, whole);
    } else {
      DivNonNegative(total * desired, whole);
    }
  }

  /** Neither cache gets more than it wants, and together they get the total. */
  lemma ShareBounds(total: nat, desiredAdjacency: nat, desiredRaw: nat, desiredTotal: nat)
    requires total <= desiredTotal <= desiredAdjacency + desiredRaw && desiredAdjacency <= desiredTotal
    ensures 0 <= AdjacencyShare(total, desiredAdjacency, desiredTotal) <= Min(total, desiredAdjacency)
    ensures total - AdjacencyShare(total, desiredAdjacency, desiredTotal) <= desiredRaw
  {
    if desiredTotal > 0 {
      MulMono(desiredAdjacency, desiredTotal, total);
      ShareAtMost(total, desiredAdjacency, desiredTotal, total);
      MulMono(total, desiredTotal, desiredAdjacency);
      ShareAtMost(total, desiredAdjacency, desiredTotal, desiredAdjacency);
      RestAtMost(total, desiredAdjacency, desiredTotal);
    }
  }

  /** The adjacency cache gets its part of the total in proportion to what it wants, rounded down. */
  lemma ShareIsProportional(total: nat, desiredAdjacency: nat, desiredTotal: nat)
    requires desiredTotal > 0
    ensures var share := AdjacencyShare(total, desiredAdjacency, desiredTotal);
            share * desiredTotal <= total * desiredAdjacency < (share + 1) * desiredTotal
  {
    var share := AdjacencyShare(total, desiredAdjacency, desiredTotal);
    assert total * desiredAdjacency == share * desiredTotal + total * desiredAdjacency % desiredTotal;
    assert (share + 1) * desiredTotal == share * desiredTotal + desiredTotal;
  }

  function DesiredTotal(l: Limits, m: Memory): nat {
    SaturatingAdd64(l.desiredAdjacency, m.desiredRaw)
  }

  /** The caches resized to at most a total. */
  function Resized(l: Limits, m: Memory, total: nat): (r: Memory)
    ensures r.adjacencyCache + r.rawCache == Min(total, DesiredTotal(l, m))
    ensures r.adjacencyCache <= l.desiredAdjacency && r.rawCache <= m.desiredRaw
    ensures r == m.(adjacencyCache := r.adjacencyCache, rawCache := r.rawCache)
  {
    var capped := Min(total, DesiredTotal(l, m));
    ShareBounds(capped, l.desiredAdjacency, m.desiredRaw, DesiredTotal(l, m));
    var adjacency: nat := AdjacencyShare(capped, l.desiredAdjacency, DesiredTotal(l, m));
    m.(adjacencyCache := adjacency, rawCache := capped - adjacency)
  }

  /** Warming up gives the caches what they want; it fails when the decoding peak is over budget. */
  function Warmed(l: Limits, m: Memory, readOk: bool): Memory {
    if m.resident || l.peak > l.maxResident || !readOk then m
    else m.(resident := true, adjacencyCache := l.desiredAdjacency, rawCache := m.desiredRaw)
  }

  function OrderPeak(l: Limits, m: Memory): nat {
    l.steady + m.hot + l.orderBytes + Min(l.orderBytes, DECODE_BUFFER)
  }

  /** `readOk` says whether the section is read and passes its validation. */
  function OrderLoaded(l: Limits, before: Memory, warmOk: bool, readOk: bool): Memory {
    var m := Warmed(l, before, warmOk);
    if !m.resident || !m.order.NotLoaded? || OrderPeak(l, m) >= U64_RANGE then m
    else if OrderPeak(l, m) > l.maxResident then m.(order := UnavailableByBudget)
    else
      var reserved := Resized(l, m, l.maxResident - OrderPeak(l, m));
      if !readOk then reserved
      else Resized(l, reserved.(order := Loaded), SaturatingSub(l.maxResident, l.steady + m.hot + l.orderBytes))
  }

  function Available(l: Limits, m: Memory): nat {
    SaturatingSub(SaturatingSub(l.maxResident, l.steady), OrderBytes(l, m))
  }

  function PreloadLength(l: Limits, available: nat): (r: nat)
    ensures r <= available
  {
    var requested := Min(l.preload, l.adjacencyBytes);
    var rounded := Min(DivCeil(requested, PRELOAD_ALIGNMENT) * PRELOAD_ALIGNMENT, l.adjacencyBytes);
    var length := Min(rounded, available);
    if length < l.adjacencyBytes then length / PRELOAD_ALIGNMENT * PRELOAD_ALIGNMENT else length
  }

  /**
   * The preload is the whole adjacency if that was asked for, up to the alignment, and fits; else
   * the largest multiple of 64 KiB within what is available and what was asked for, rounded up.
   */
  lemma PreloadLengthMeans(l: Limits, available: nat)
    ensures var (length, unit) := (PreloadLength(l, available), 64 * 1024);
            var asked := DivCeil(Min(l.preload, l.adjacencyBytes), unit) * unit;
            if l.adjacencyBytes <= asked && l.adjacencyBytes <= available then length == l.adjacencyBytes
            else length % unit == 0 && length <= asked && length <= available && (length + unit > asked || length + unit > available)
  {
  }

  /** `readOk` says whether the pages are read and all pass validation. */
  function Preloaded(l: Limits, before: Memory, warmOk: bool, readOk: bool): Memory {
    var m := Warmed(l, before, warmOk);
    if !m.resident || l.preload == 0 || m.hot != 0 then m
    else
      var length := PreloadLength(l, Available(l, m));
      var reserved := Resized(l, m, Available(l, m) - length);
      if length == 0 || !readOk then reserved else reserved.(hot := length)
  }

  datatype Operation =
    | Warm(readOk: bool)
    | LoadOrder(warmOk: bool, readOk: bool)
    | Preload(warmOk: bool, readOk: bool)
    | LimitRaw(limit: u64)

  function After(l: Limits, m: Memory, op: Operation): Memory {
    match op
    case Warm(readOk) => Warmed(l, m, readOk)
    case LoadOrder(warmOk, readOk) => OrderLoaded(l, m, warmOk, readOk)
    case Preload(warmOk, readOk) => Preloaded(l, m, warmOk, readOk)
    case LimitRaw(limit) => m.(desiredRaw := Min(m.desiredRaw, limit))
  }

  /** Limiting the raw cache only ever lowers what it wants, and takes effect with the next resize. */
  lemma LimitMeans(l: Limits, m: Memory, limit: u64)
    ensures var limited := After(l, m, LimitRaw(limit));
            && limited.desiredRaw <= m.desiredRaw && limited.desiredRaw <= limit
            && (limited.desiredRaw == m.desiredRaw || limited.desiredRaw == limit) && limited == m.(desiredRaw := limited.desiredRaw)
  {
  }

  function AfterAll(l: Limits, m: Memory, ops: seq<Operation>): Memory
    decreases ops
  {
    if ops == [] then m else AfterAll(l, After(l, m, ops[0]), ops[1..])
  }

  // ---------------------------------------------------------------------------------------
  // What holds of every sequence of operations.

  lemma StepKeepsReachable(l: Limits, m: Memory, op: Operation)
    requires Reachable(l, m)
    ensures Reachable(l, After(l, m, op))
  {
  }

  /** Within budget stays within budget, whatever succeeds or fails. */
  lemma StepKeepsBudget(l: Limits, m: Memory, op: Operation)
    requires Reachable(l, m) && Budgeted(l, m)
    ensures Budgeted(l, After(l, m, op))
  {
  }

  /** A preload that gets as far as resizing the caches brings the reader within budget, even if its read fails. */
  lemma PreloadEstablishesBudget(l: Limits, m: Memory, warmOk: bool, readOk: bool)
    requires Reachable(l, m) && Warmed(l, m, warmOk).resident && l.preload > 0 && m.hot == 0
    ensures Budgeted(l, After(l, m, Preload(warmOk, readOk)))
  {
  }

  /** So does loading the row-ID order. */
  lemma OrderEstablishesBudget(l: Limits, m: Memory, warmOk: bool, readOk: bool)
    requires Reachable(l, m) && !m.order.Loaded? && After(l, m, LoadOrder(warmOk, readOk)).order.Loaded?
    ensures Budgeted(l, After(l, m, LoadOrder(warmOk, readOk)))
  {
  }

  /** While the row-ID order is read, the order, its decoding buffer and the caches fit the budget together. */
  lemma OrderLoadFits(l: Limits, m: Memory, warmOk: bool)
    requires Reachable(l, m) && m.order.NotLoaded? && Warmed(l, m, warmOk).resident
    requires l.steady + m.hot + l.orderBytes + Min(l.orderBytes, 1024 * 1024) <= l.maxResident
    ensures var reading := After(l, m, LoadOrder(warmOk, false));
            Used(l, reading) + l.orderBytes + Min(l.orderBytes, 1024 * 1024) <= l.maxResident
    ensures After(l, m, LoadOrder(warmOk, true)).order.Loaded?
  {
  }

  /** An order that cannot fit is not read, and stays so. */
  lemma OrderTooLarge(l: Limits, m: Memory, warmOk: bool, readOk: bool)
    requires m.order.NotLoaded? && Warmed(l, m, warmOk).resident && OrderPeak(l, Warmed(l, m, warmOk)) < U64_RANGE
    requires l.steady + m.hot + l.orderBytes + Min(l.orderBytes, 1024 * 1024) > l.maxResident
    ensures After(l, m, LoadOrder(warmOk, readOk)).order.UnavailableByBudget?
  {
  }

  /** The operation resizes the caches to what is left of the budget. */
  predicate Establishes(l: Limits, m: Memory, op: Operation) {
    match op
    case Preload(warmOk, _) => Warmed(l, m, warmOk).resident && l.preload > 0 && m.hot == 0
    case LoadOrder(_, _) => !m.order.Loaded? && After(l, m, op).order.Loaded?
    case _ => false
  }

  lemma {:induction false} RunKeepsReachable(l: Limits, m: Memory, ops: seq<Operation>)
    requires Reachable(l, m)
    ensures Reachable(l, AfterAll(l, m, ops)) && (Budgeted(l, m) ==> Budgeted(l, AfterAll(l, m, ops)))
    decreases ops
  {
    if ops != [] {
      StepKeepsReachable(l, m, ops[0]);
      if Budgeted(l, m) {
        StepKeepsBudget(l, m, ops[0]);
      }
      RunKeepsReachable(l, After(l, m, ops[0]), ops[1..]);
    }
  }

  lemma {:induction false} AfterConcat(l: Limits, m: Memory, a: seq<Operation>, b: seq<Operation>)
    ensures AfterAll(l, m, a + b) == AfterAll(l, AfterAll(l, m, a), b)
    decreases a
  {
    if a == [] {
      assert a + b == b;
    } else {
      AfterConcat(l, After(l, m, a[0]), a[1..], b);
      assert (a + b)[1..] == a[1..] + b;
    }
  }

  /**
   * In any sequence of operations, once a preload has reached its resize or an order load has
   * succeeded, the budget holds from then on, through successes and failed reads alike.
   */
  lemma BudgetHoldsFromThenOn(l: Limits, m: Memory, before: seq<Operation>, op: Operation, later: seq<Operation>)
    requires Reachable(l, m) && Establishes(l, AfterAll(l, m, before), op)
    ensures Budgeted(l, AfterAll(l, m, before + ([op] + later)))
  {
    var reached := AfterAll(l, m, before);
    RunKeepsReachable(l, m, before);
    match op {
      case Preload(warmOk, readOk) => PreloadEstablishesBudget(l, reached, warmOk, readOk);
      case LoadOrder(warmOk, readOk) => OrderEstablishesBudget(l, reached, warmOk, readOk);
      case _ =>
    }
    StepKeepsReachable(l, reached, op);
    RunKeepsReachable(l, After(l, reached, op), later);
    AfterConcat(l, m, before, [op] + later);
    assert ([op] + later)[1..] == later;
  }

  /** Until then the caches hold what they want: the budget is met right after warm-up if and only if that fits. */
  lemma WarmUpBudget(l: Limits, m: Memory)
    requires Reachable(l, m) && !m.resident && l.peak <= l.maxResident
    ensures Budgeted(l, After(l, m, Warm(true))) <==> l.steady + l.desiredAdjacency + m.desiredRaw <= l.maxResident
  {
  }

  // ---------------------------------------------------------------------------------------
  // The reader.

  class Reader {
    const limits: Limits
    var resident: bool
    var adjacencyCache: nat
    var rawCache: nat
    var hot: nat
    var order: Order
    var desiredRaw: u64

    function View(): Memory
      reads this
    {
      Memory(resident, adjacencyCache, rawCache, hot, order, desiredRaw)
    }

    /** Opened on an accepted header: nothing is resident yet. */
    constructor (h: Header, ghost p: Params, maxResident: u64, preload: nat, desiredAdjacency: u64, desiredRaw: u64)
      requires ForLayout(p) == Ok(h)
      ensures 0 <= Steady(h) <= Peak(h) && limits == LimitsOf(h, maxResident, preload, desiredAdjacency)
      ensures Reachable(limits, View()) && !resident && this.desiredRaw == desiredRaw
    {
      SteadyWithinPeak(p, h);
      this.limits, this.desiredRaw := LimitsOf(h, maxResident, preload, desiredAdjacency), desiredRaw;
      resident, adjacencyCache, rawCache, hot, order := false, 0, 0, 0, NotLoaded;
    }

    method ResizeCaches(total: nat)
      modifies this
      ensures View() == Resized(limits, old(View()), total)
    {
      var desiredTotal := SaturatingAdd64(limits.desiredAdjacency, desiredRaw);
      var capped := Min(total, desiredTotal);
      ShareBounds(capped, limits.desiredAdjacency, desiredRaw, desiredTotal);
      adjacencyCache := AdjacencyShare(capped, limits.desiredAdjacency, desiredTotal);
      rawCache := SaturatingSub(capped, adjacencyCache);
    }

    method EnsureResident(readOk: bool) returns (ok: bool)
      modifies this
      ensures View() == Warmed(limits, old(View()), readOk) && (ok <==> resident)
    {
      if resident {
        return true;
      }
      if limits.peak > limits.maxResident || !readOk {
        return false;
      }
      resident, adjacencyCache, rawCache := true, limits.desiredAdjacency, desiredRaw;
      return true;
    }

    /** `Ok(false)` when the budget excludes the order. */
    method EnsureRowIdOrder(warmOk: bool, readOk: bool) returns (r: Result<bool>)
      modifies this
      ensures View() == OrderLoaded(limits, old(View()), warmOk, readOk)
      ensures r == Ok(true) ==> order.Loaded?
      ensures r == Ok(false) ==> order.UnavailableByBudget?
    {
      var ok := EnsureResident(warmOk);
      if !ok {
        return Err(InvalidData);
      }
      if !order.NotLoaded? {
        return Ok(order.Loaded?);
      }
      var peak := limits.steady + hot + limits.orderBytes + Min(limits.orderBytes, DECODE_BUFFER);
      if peak >= U64_RANGE {
        return Err(InvalidData);
      }
      if peak > limits.maxResident {
        order := UnavailableByBudget;
        return Ok(false);
      }
      ResizeCaches(limits.maxResident - peak);
      if !readOk {
        return Err(InvalidData);
      }
      order := Loaded;
      ResizeCaches(SaturatingSub(limits.maxResident, limits.steady + hot + limits.orderBytes));
      return Ok(true);
    }

    method OptimizeForSearch(warmOk: bool, readOk: bool) returns (ok: bool)
      modifies this
      ensures View() == Preloaded(limits, old(View()), warmOk, readOk)
    {
      ok := EnsureResident(warmOk);
      if !ok || limits.preload == 0 || hot != 0 {
        return;
      }
      var orderBytes := if order.Loaded? then limits.orderBytes else 0;
      var available := SaturatingSub(SaturatingSub(limits.maxResident, limits.steady), orderBytes);
      var length := PreloadLength(limits, available);
      ResizeCaches(SaturatingSub(available, length));
      if length == 0 {
        return true;
      }
      if !readOk {
        return false;
      }
      hot := length;
      return true;
    }
  }
}
