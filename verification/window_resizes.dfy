/**
 * Resizes of the shared window cache over whole executions: which resize call stored each
 * shard's capacity last, and when the capacities add up to what a call asked for.
 */
module WindowResizes {
  import opened Prelude
  import opened NatArith
  import opened WindowCaches
  import opened WindowProtocol

  ghost predicate StepsTo(c: Config, s: State, step: Step, s': State) {
    Shaped(c, s) && Enabled(c, s, step) && s' == Apply(c, s, step)
  }

  /** A run together with its steps. */
  ghost predicate IsExecution(c: Config, run: seq<State>, steps: seq<Step>, total: nat) {
    && |run| == |steps| + 1 && Init(c, run[0], total)
    && forall k :: 0 <= k < |steps| ==> StepsTo(c, run[k], steps[k], run[k + 1])
  }

  /** Executions are the runs of the protocol. */
  lemma {:induction false} ExecutionIsRun(c: Config, run: seq<State>, steps: seq<Step>, total: nat)
    requires IsExecution(c, run, steps, total)
    ensures IsRun(c, run, total)
  {
    forall k | 0 < k < |run|
      ensures Next(c, run[k - 1], run[k])
    {
      assert StepsTo(c, run[k - 1], steps[k - 1], run[k]);
    }
  }

  lemma {:induction false} StepsUpTo(c: Config, run: seq<State>, total: nat, n: nat) returns (steps: seq<Step>)
    requires IsRun(c, run, total) && n < |run|
    ensures |steps| == n && forall k :: 0 <= k < n ==> StepsTo(c, run[k], steps[k], run[k + 1])
  {
    steps := [];
    if n > 0 {
      var before := StepsUpTo(c, run, total, n - 1);
      assert Next(c, run[n - 1], run[n]);
      var step :| Enabled(c, run[n - 1], step) && run[n] == Apply(c, run[n - 1], step);
      assert StepsTo(c, run[n - 1], step, run[n]);
      steps := before + [step];
    }
  }

  lemma RunIsExecution(c: Config, run: seq<State>, total: nat) returns (steps: seq<Step>)
    requires IsRun(c, run, total)
    ensures IsExecution(c, run, steps, total)
  {
    steps := StepsUpTo(c, run, total, |run| - 1);
  }

  // ---------------------------------------------------------------------------
  // Resize calls
  // ---------------------------------------------------------------------------

  /** The latest resize call before step `k`, as the position of its first step. */
  function Latest(steps: seq<Step>, k: nat): (call: Option<nat>)
    requires k <= |steps|
    ensures call.Some? ==> call.value < k && steps[call.value].ResizeStep?
  {
    if k == 0 then None
    else if steps[k - 1].ResizeStep? then Some(k - 1)
    else Latest(steps, k - 1)
  }

  /** The latest resize call of thread `t` before step `k`. */
  function LatestOf(steps: seq<Step>, k: nat, t: nat): (call: Option<nat>)
    requires k <= |steps|
    ensures call.Some? ==> call.value < k && steps[call.value].ResizeStep?
  {
    if k == 0 then None
    else if steps[k - 1].ResizeStep? && steps[k - 1].t == t then Some(k - 1)
    else LatestOf(steps, k - 1, t)
  }

  predicate Stores(s: State, step: Step, i: nat) {
    step.StoreStep? && step.t < |s.threads| && s.threads[step.t].pc.Resizing? && s.threads[step.t].pc.shard == i
  }

  /** The resize call that stored the capacity of shard `i` last, or none since construction. */
  function Storer(run: seq<State>, steps: seq<Step>, k: nat, i: nat): (call: Option<nat>)
    requires k <= |steps| < |run|
    ensures call.Some? ==> call.value < k && steps[call.value].ResizeStep?
  {
    if k == 0 then None
    else if Stores(run[k - 1], steps[k - 1], i) then LatestOf(steps, k - 1, steps[k - 1].t)
    else Storer(run, steps, k - 1, i)
  }

  predicate IsCall(steps: seq<Step>, k: nat, call: Option<nat>) {
    k <= |steps| && (call.Some? ==> call.value < k && steps[call.value].ResizeStep?)
  }

  /** What a call asked for; without a call, the capacity given at construction. */
  function Total(steps: seq<Step>, total: nat, call: Option<nat>): nat
    requires IsCall(steps, |steps|, call)
  {
    if call.None? then total else steps[call.value].total
  }

  /** Nobody is inside a resize. */
  predicate Settled(s: State) {
    forall t :: 0 <= t < |s.threads| ==> !s.threads[t].pc.Resizing?
  }

  /** A resize is called only while nobody is inside one. */
  predicate Sequential(run: seq<State>, steps: seq<Step>) {
    forall k :: 0 <= k < |steps| && steps[k].ResizeStep? && k < |run| ==> Settled(run[k])
  }

  /** Only the stepping thread moves in or out of a resize. */
  ghost predicate Moves(s: State, s': State, t: nat, pc: Pc, pc': Pc) {
    && t < |s.threads| == |s'.threads| && |s'.shards| == |s.shards|
    && s.threads[t].pc == pc && s'.threads[t].pc == pc'
    && forall u :: 0 <= u < |s.threads| && u != t ==> s'.threads[u] == s.threads[u]
  }

  lemma ResizeMoves(c: Config, s: State, step: Step, s': State)
    requires StepsTo(c, s, step, s') && step.ResizeStep?
    ensures Moves(s, s', step.t, Idle, Resizing(step.total, 0, false)) && s'.asked == s.asked
  {
  }

  lemma StoreMoves(c: Config, s: State, step: Step, s': State)
    requires StepsTo(c, s, step, s') && step.StoreStep?
    ensures var pc := s.threads[step.t].pc;
            && pc.Resizing? && pc.shard < |s.shards| && !pc.stored && Moves(s, s', step.t, pc, pc.(stored := true))
            && pc.shard < |s.asked| && s'.asked == s.asked[pc.shard := pc.total]
            && |s.capacities| == |s.shards| && s'.capacities == s.capacities[pc.shard := Share(pc.total, |s.shards|, pc.shard)]
  {
  }

  lemma EvictMoves(c: Config, s: State, step: Step, s': State)
    requires StepsTo(c, s, step, s') && step.EvictStep?
    ensures var pc := s.threads[step.t].pc;
            && pc.Resizing? && pc.shard < |s.shards| && pc.stored && s'.asked == s.asked && s'.capacities == s.capacities
            && Moves(s, s', step.t, pc, if pc.shard + 1 == |s.shards| then Idle else Resizing(pc.total, pc.shard + 1, false))
  {
  }

  /** The same resizers at the same places. */
  ghost predicate SameResizers(s: State, s': State) {
    && |s'.threads| == |s.threads| && |s'.shards| == |s.shards| && s'.asked == s.asked
    && forall u :: 0 <= u < |s.threads| ==>
         s'.threads[u].pc == s.threads[u].pc || (!s.threads[u].pc.Resizing? && !s'.threads[u].pc.Resizing?)
  }

  lemma OtherSteps(c: Config, s: State, step: Step, s': State)
    requires StepsTo(c, s, step, s') && !step.ResizeStep? && !step.StoreStep? && !step.EvictStep?
    ensures SameResizers(s, s')
  {
  }

  // ---------------------------------------------------------------------------
  // The last storer of every shard
  // ---------------------------------------------------------------------------

  /** A resizer works for its own latest call, and every shard carries the total of its last storer. */
  ghost predicate Attributed(run: seq<State>, steps: seq<Step>, total: nat, k: nat)
    requires k <= |steps| < |run|
  {
    var s := run[k];
    && (forall t :: 0 <= t < |s.threads| && s.threads[t].pc.Resizing? ==>
          LatestOf(steps, k, t).Some? && steps[LatestOf(steps, k, t).value].total == s.threads[t].pc.total)
    && (forall i :: 0 <= i < |s.asked| ==> s.asked[i] == Total(steps, total, Storer(run, steps, k, i)))
  }

  lemma AttributedStep(c: Config, run: seq<State>, steps: seq<Step>, total: nat, k: nat)
    requires IsExecution(c, run, steps, total) && k < |steps| && Attributed(run, steps, total, k)
    ensures Attributed(run, steps, total, k + 1)
  {
    var s, step, s' := run[k], steps[k], run[k + 1];
    assert StepsTo(c, s, step, s');
    if step.ResizeStep? {
      ResizeMoves(c, s, step, s');
    } else if step.StoreStep? {
      StoreMoves(c, s, step, s');
    } else if step.EvictStep? {
      EvictMoves(c, s, step, s');
    } else {
      OtherSteps(c, s, step, s');
    }
  }

  lemma {:induction false} AskedOfStorer(c: Config, run: seq<State>, steps: seq<Step>, total: nat, k: nat)
    requires IsExecution(c, run, steps, total) && k <= |steps|
    ensures Attributed(run, steps, total, k)
  {
    if k > 0 {
      AskedOfStorer(c, run, steps, total, k - 1);
      AttributedStep(c, run, steps, total, k - 1);
    }
  }

  function Sum(capacities: seq<nat>, k: nat): nat
    requires k <= |capacities|
  {
    if k == 0 then 0 else Sum(capacities, k - 1) + capacities[k - 1]
  }

  lemma {:induction false} SumOfShares(capacities: seq<nat>, total: nat, k: nat)
    requires k <= |capacities| && |capacities| > 0
    requires forall i :: 0 <= i < k ==> capacities[i] == Share(total, |capacities|, i)
    ensures Sum(capacities, k) == Shares(total, |capacities|, k)
  {
    if k > 0 {
      SumOfShares(capacities, total, k - 1);
    }
  }

  /** Every shard has its share of `total`. */
  predicate Carries(s: State, total: nat) {
    |s.capacities| > 0 && forall i :: 0 <= i < |s.capacities| ==> s.capacities[i] == Share(total, |s.capacities|, i)
  }

  lemma CarriedSum(s: State, total: nat)
    requires Carries(s, total)
    ensures Sum(s.capacities, |s.capacities|) == total
  {
    SumOfShares(s.capacities, total, |s.capacities|);
    SharesAddUp(total, |s.capacities|);
  }

  /** The capacity of a shard is the share of what its last storer asked for. */
  lemma CapacityOfStorer(c: Config, run: seq<State>, steps: seq<Step>, total: nat, k: nat, i: nat)
    requires IsExecution(c, run, steps, total) && k <= |steps| && i < |run[k].capacities|
    ensures run[k].capacities[i] == Share(Total(steps, total, Storer(run, steps, k, i)), |run[k].capacities|, i)
  {
    ExecutionIsRun(c, run, steps, total);
    RunKeepsInv(c, run, total, k);
    AskedOfStorer(c, run, steps, total, k);
    assert CapacityOk(run[k], i);
  }

  ghost predicate OneStorer(run: seq<State>, steps: seq<Step>, k: nat, call: Option<nat>)
    requires k <= |steps| < |run|
  {
    forall i :: 0 <= i < |run[k].capacities| ==> Storer(run, steps, k, i) == call
  }

  /** When one call was the last to store every shard, the capacities add up to what it asked for. */
  lemma OneStorerAddsUp(c: Config, run: seq<State>, steps: seq<Step>, total: nat, k: nat, call: Option<nat>)
    requires IsExecution(c, run, steps, total) && k <= |steps| && IsCall(steps, |steps|, call) && OneStorer(run, steps, k, call)
    ensures Carries(run[k], Total(steps, total, call))
    ensures Sum(run[k].capacities, |run[k].capacities|) == Total(steps, total, call)
  {
    ExecutionIsRun(c, run, steps, total);
    RunKeepsInv(c, run, total, k);
    forall i | 0 <= i < |run[k].capacities|
      ensures run[k].capacities[i] == Share(Total(steps, total, call), |run[k].capacities|, i)
    {
      CapacityOfStorer(c, run, steps, total, k, i);
    }
    CarriedSum(run[k], Total(steps, total, call));
  }

  /** Totals at least as far apart as there are shards have different shares everywhere. */
  lemma SharesApart(a: nat, b: nat, n: nat, i: nat)
    requires n > 0 && i < n && a + n <= b
    ensures Share(a, n, i) < Share(b, n, i)
  {
    var (q, r) := (a / n, a % n);
    assert a == q * n + r && b == (b / n) * n + b % n;
    assert (q + 1) * n == q * n + n;
    DivAtLeast(b, q + 1, n);
    if b / n == q + 1 {
      assert r <= b % n;
    }
  }

  /** Different calls ask for totals at least as far apart as there are shards. */
  ghost predicate FarApart(steps: seq<Step>, total: nat, n: nat) {
    forall p: Option<nat>, q: Option<nat> :: IsCall(steps, |steps|, p) && IsCall(steps, |steps|, q) && p != q ==>
      Total(steps, total, p) + n <= Total(steps, total, q) || Total(steps, total, q) + n <= Total(steps, total, p)
  }

  ghost predicate CarriesSome(run: seq<State>, steps: seq<Step>, total: nat, k: nat)
    requires k <= |steps| < |run|
  {
    exists call: Option<nat> :: IsCall(steps, |steps|, call) && Carries(run[k], Total(steps, total, call))
  }

  /**
   * For totals that far apart, overlapping or not: the shards carry the shares of one total if
   * and only if the call that stored shard 0 last was the last to store every shard.
   */
  lemma OneTotalIffOneStorer(c: Config, run: seq<State>, steps: seq<Step>, total: nat, k: nat)
    requires IsExecution(c, run, steps, total) && k <= |steps| && FarApart(steps, total, |run[k].capacities|)
    ensures CarriesSome(run, steps, total, k) <==> OneStorer(run, steps, k, Storer(run, steps, k, 0))
  {
    if CarriesSome(run, steps, total, k) {
      var call: Option<nat> :| IsCall(steps, |steps|, call) && Carries(run[k], Total(steps, total, call));
      forall i | 0 <= i < |run[k].capacities|
        ensures Storer(run, steps, k, i) == call
      {
        CapacityOfStorer(c, run, steps, total, k, i);
        var storer := Storer(run, steps, k, i);
        if storer != call {
          var (a, b) := (Total(steps, total, storer), Total(steps, total, call));
          assert a + |run[k].capacities| <= b || b + |run[k].capacities| <= a;
          SharesApart(Min(a, b), Max(a, b), |run[k].capacities|, i);
        }
      }
    }
    if OneStorer(run, steps, k, Storer(run, steps, k, 0)) {
      OneStorerAddsUp(c, run, steps, total, k, Storer(run, steps, k, 0));
    }
  }

  // ---------------------------------------------------------------------------
  // Resizes that do not overlap
  // ---------------------------------------------------------------------------

  predicate Passed(pc: Pc, i: nat)
    requires pc.Resizing?
  {
    i < pc.shard || (i == pc.shard && pc.stored)
  }

  /** The shards a resizer has passed carry its call, the others the call before. */
  predicate Replaced(storers: seq<Option<nat>>, pc: Pc, call: Option<nat>, before: Option<nat>)
    requires pc.Resizing?
  {
    forall i :: 0 <= i < |storers| ==> storers[i] == if Passed(pc, i) then call else before
  }

  function Storers(run: seq<State>, steps: seq<Step>, k: nat): (r: seq<Option<nat>>)
    requires k <= |steps| < |run|
    ensures |r| == |run[k].shards|
  {
    seq(|run[k].shards|, i requires 0 <= i < |run[k].shards| => Storer(run, steps, k, i))
  }

  /** Thread `t` alone is resizing, for the latest call, and has replaced the call before it up to its shard. */
  ghost predicate Replacing(s: State, t: nat, storers: seq<Option<nat>>, mine: Option<nat>, call: Option<nat>, before: Option<nat>)
    requires t < |s.threads|
  {
    && s.threads[t].pc.Resizing? && mine == call && Replaced(storers, s.threads[t].pc, call, before)
    && forall u :: 0 <= u < |s.threads| && u != t ==> !s.threads[u].pc.Resizing?
  }

  /** The call before a call. */
  function Previous(steps: seq<Step>, call: Option<nat>): (r: Option<nat>)
    ensures IsCall(steps, |steps|, r)
  {
    if call.Some? && call.value <= |steps| then Latest(steps, call.value) else None
  }

  /** Either nobody resizes and the latest call stored every shard, or one thread is replacing the call before it. */
  ghost predicate Phase(run: seq<State>, steps: seq<Step>, k: nat)
    requires k <= |steps| < |run|
  {
    var (s, storers, call) := (run[k], Storers(run, steps, k), Latest(steps, k));
    if Settled(s) then forall i :: 0 <= i < |storers| ==> storers[i] == call
    else exists t :: 0 <= t < |s.threads| && call.Some?
                     && Replacing(s, t, storers, LatestOf(steps, k, t), call, Previous(steps, call))
  }

  lemma PhaseOther(c: Config, run: seq<State>, steps: seq<Step>, total: nat, k: nat)
    requires IsExecution(c, run, steps, total) && k < |steps| && Phase(run, steps, k)
    requires !steps[k].ResizeStep? && !steps[k].StoreStep? && !steps[k].EvictStep?
    ensures Phase(run, steps, k + 1)
  {
    var s, s' := run[k], run[k + 1];
    assert StepsTo(c, s, steps[k], s');
    OtherSteps(c, s, steps[k], s');
    assert Storers(run, steps, k + 1) == Storers(run, steps, k);
    assert Settled(s') <==> Settled(s);
    if !Settled(s) {
      var call := Latest(steps, k);
      var t :| 0 <= t < |s.threads| && call.Some?
               && Replacing(s, t, Storers(run, steps, k), LatestOf(steps, k, t), call, Previous(steps, call));
      assert Replacing(s', t, Storers(run, steps, k + 1), LatestOf(steps, k + 1, t), call, Previous(steps, call));
    }
  }

  lemma PhaseResize(c: Config, run: seq<State>, steps: seq<Step>, total: nat, k: nat)
    requires IsExecution(c, run, steps, total) && Sequential(run, steps) && k < |steps| && Phase(run, steps, k)
    requires steps[k].ResizeStep?
    ensures Phase(run, steps, k + 1)
  {
    var s, s', t := run[k], run[k + 1], steps[k].t;
    assert StepsTo(c, s, steps[k], s') && Settled(s);
    ResizeMoves(c, s, steps[k], s');
    assert Storers(run, steps, k + 1) == Storers(run, steps, k);
    assert s'.threads[t].pc.Resizing?;
    assert Replacing(s', t, Storers(run, steps, k + 1), LatestOf(steps, k + 1, t), Some(k), Latest(steps, k));
  }

  lemma PhaseStore(c: Config, run: seq<State>, steps: seq<Step>, total: nat, k: nat)
    requires IsExecution(c, run, steps, total) && k < |steps| && Phase(run, steps, k)
    requires steps[k].StoreStep?
    ensures Phase(run, steps, k + 1)
  {
    var s, s', t, call := run[k], run[k + 1], steps[k].t, Latest(steps, k);
    assert StepsTo(c, s, steps[k], s');
    StoreMoves(c, s, steps[k], s');
    assert s.threads[t].pc.Resizing? && s'.threads[t].pc.Resizing?;
    assert Replacing(s, t, Storers(run, steps, k), LatestOf(steps, k, t), call, Previous(steps, call));
    var i := s.threads[t].pc.shard;
    assert Storers(run, steps, k + 1) == Storers(run, steps, k)[i := call];
    assert Replacing(s', t, Storers(run, steps, k + 1), LatestOf(steps, k + 1, t), call, Previous(steps, call));
  }

  lemma PhaseEvict(c: Config, run: seq<State>, steps: seq<Step>, total: nat, k: nat)
    requires IsExecution(c, run, steps, total) && k < |steps| && Phase(run, steps, k)
    requires steps[k].EvictStep?
    ensures Phase(run, steps, k + 1)
  {
    var s, s', t, call := run[k], run[k + 1], steps[k].t, Latest(steps, k);
    assert StepsTo(c, s, steps[k], s');
    EvictMoves(c, s, steps[k], s');
    assert s.threads[t].pc.Resizing?;
    assert Replacing(s, t, Storers(run, steps, k), LatestOf(steps, k, t), call, Previous(steps, call));
    assert Storers(run, steps, k + 1) == Storers(run, steps, k);
    if s'.threads[t].pc.Resizing? {
      assert Replacing(s', t, Storers(run, steps, k + 1), LatestOf(steps, k + 1, t), call, Previous(steps, call));
    } else {
      assert Settled(s');
    }
  }

  lemma {:induction false} PhaseHolds(c: Config, run: seq<State>, steps: seq<Step>, total: nat, k: nat)
    requires IsExecution(c, run, steps, total) && Sequential(run, steps) && k <= |steps|
    ensures Phase(run, steps, k)
  {
    if k == 0 {
      assert Settled(run[0]);
    } else {
      PhaseHolds(c, run, steps, total, k - 1);
      match steps[k - 1]
      case ResizeStep(_, _) => PhaseResize(c, run, steps, total, k - 1);
      case StoreStep(_) => PhaseStore(c, run, steps, total, k - 1);
      case EvictStep(_) => PhaseEvict(c, run, steps, total, k - 1);
      case _ => PhaseOther(c, run, steps, total, k - 1);
    }
  }

  /**
   * Resizes that do not overlap: whenever nobody is inside one, the capacities add up to what
   * the latest call asked for, or to the capacity at construction.
   */
  lemma CapacitiesAddUp(c: Config, run: seq<State>, steps: seq<Step>, total: nat, k: nat)
    requires IsExecution(c, run, steps, total) && Sequential(run, steps) && k <= |steps| && Settled(run[k])
    ensures Sum(run[k].capacities, |run[k].capacities|) == Total(steps, total, Latest(steps, k))
  {
    ExecutionIsRun(c, run, steps, total);
    RunKeepsInv(c, run, total, k);
    PhaseHolds(c, run, steps, total, k);
    forall i | 0 <= i < |run[k].capacities|
      ensures Storer(run, steps, k, i) == Latest(steps, k)
    {
      assert Storers(run, steps, k)[i] == Latest(steps, k);
    }
    OneStorerAddsUp(c, run, steps, total, k, Latest(steps, k));
  }

  /** While one resizes, the shards it has passed carry its total and the others that of the call before. */
  lemma CapacitiesDuring(c: Config, run: seq<State>, steps: seq<Step>, total: nat, k: nat, t: nat, i: nat)
    requires IsExecution(c, run, steps, total) && Sequential(run, steps) && k <= |steps|
    requires t < |run[k].threads| && run[k].threads[t].pc.Resizing? && i < |run[k].capacities|
    ensures Latest(steps, k).Some?
    ensures var call := Latest(steps, k);
            var carried := if Passed(run[k].threads[t].pc, i) then call else Previous(steps, call);
            run[k].capacities[i] == Share(Total(steps, total, carried), |run[k].capacities|, i)
  {
    ExecutionIsRun(c, run, steps, total);
    RunKeepsInv(c, run, total, k);
    PhaseHolds(c, run, steps, total, k);
    assert !Settled(run[k]);
    assert Storers(run, steps, k)[i] == Storer(run, steps, k, i);
    CapacityOfStorer(c, run, steps, total, k, i);
  }

  // ---------------------------------------------------------------------------
  // Resizes that overlap
  // ---------------------------------------------------------------------------

  lemma Extended(c: Config, run: seq<State>, total: nat, step: Step) returns (longer: seq<State>)
    requires IsRun(c, run, total) && Shaped(c, run[|run| - 1]) && Enabled(c, run[|run| - 1], step)
    ensures IsRun(c, longer, total) && longer[0] == run[0] && StepsTo(c, run[|run| - 1], step, longer[|longer| - 1])
  {
    var s := Apply(c, run[|run| - 1], step);
    longer := run + [s];
    assert Next(c, run[|run| - 1], s);
    forall k | 0 < k < |longer|
      ensures Next(c, longer[k - 1], longer[k])
    {
      assert k < |run| ==> Next(c, run[k - 1], run[k]);
    }
  }

  /** Thread `t` alone has moved; shards from `i` on carry `total`. */
  ghost predicate Resized(s: State, s': State, t: nat, pc: Pc, total: nat, i: nat) {
    && |s'.shards| == |s.shards| == |s.capacities| == |s'.capacities| > 0 && t < |s.threads| == |s'.threads| && s'.threads[t].pc == pc
    && (forall u :: 0 <= u < |s.threads| && u != t ==> s'.threads[u] == s.threads[u])
    && forall j :: 0 <= j < |s.capacities| ==>
         s'.capacities[j] == if j < i then s.capacities[j] else Share(total, |s.capacities|, j)
  }

  /** A resizer that is about to store shard `i` runs to its end, undisturbed. */
  lemma {:induction false} FinishResize(c: Config, run: seq<State>, init: nat, t: nat, total: nat, i: nat) returns (longer: seq<State>)
    requires IsRun(c, run, init) && t < |run[|run| - 1].threads| && i < |run[|run| - 1].shards|
    requires run[|run| - 1].threads[t].pc == Resizing(total, i, false)
    ensures IsRun(c, longer, init) && longer[0] == run[0]
    ensures Resized(run[|run| - 1], longer[|longer| - 1], t, Idle, total, i)
    decreases |run[|run| - 1].shards| - i
  {
    var s := run[|run| - 1];
    RunKeepsInv(c, run, init, |run| - 1);
    var stored := Extended(c, run, init, StoreStep(t));
    StoreMoves(c, s, StoreStep(t), stored[|stored| - 1]);
    RunKeepsInv(c, stored, init, |stored| - 1);
    longer := Extended(c, stored, init, EvictStep(t));
    EvictMoves(c, stored[|stored| - 1], EvictStep(t), longer[|longer| - 1]);
    if i + 1 < |s.shards| {
      longer := FinishResize(c, longer, init, t, total, i + 1);
    }
  }

  /** Thread 0 has stored shard 0 for a resize to `a` when thread 1 calls a resize to `b`. */
  lemma Overlap(c: Config, s: State, init: nat, a: nat, b: nat) returns (run: seq<State>)
    requires Init(c, s, init) && |s.threads| >= 2
    ensures IsRun(c, run, init) && run[0] == s && |run[|run| - 1].shards| == |s.shards|
    ensures var s' := run[|run| - 1];
            && |s'.threads| == |s.threads| && s'.threads[0].pc == Resizing(a, 0, true) && s'.threads[1].pc == Resizing(b, 0, false)
            && forall u :: 2 <= u < |s.threads| ==> s'.threads[u].pc.Idle?
  {
    run := [s];
    var steps := [ResizeStep(0, a), StoreStep(0), ResizeStep(1, b)];
    var first := Extended(c, run, init, steps[0]);
    ResizeMoves(c, s, steps[0], first[|first| - 1]);
    RunKeepsInv(c, first, init, |first| - 1);
    var second := Extended(c, first, init, steps[1]);
    StoreMoves(c, first[|first| - 1], steps[1], second[|second| - 1]);
    RunKeepsInv(c, second, init, |second| - 1);
    run := Extended(c, second, init, steps[2]);
    ResizeMoves(c, second[|second| - 1], steps[2], run[|run| - 1]);
  }

  /** The capacities that overlapping resizes to `a` and `b` can leave: one share of `b`, the others of `a`. */
  ghost predicate Mixed(capacities: seq<nat>, a: nat, b: nat) {
    && |capacities| > 1
    && forall i :: 0 <= i < |capacities| ==> capacities[i] == Share(if i == 0 then b else a, |capacities|, i)
  }

  lemma {:induction false} SumLess(x: seq<nat>, y: seq<nat>, k: nat, j: nat)
    requires |x| == |y| && j < k <= |x| && x[j] < y[j] && forall i :: 0 <= i < k ==> x[i] <= y[i]
    ensures Sum(x, k) < Sum(y, k)
  {
    if j < k - 1 {
      SumLess(x, y, k - 1, j);
    } else {
      SumAtMost(x, y, k - 1);
    }
  }

  lemma {:induction false} SumAtMost(x: seq<nat>, y: seq<nat>, k: nat)
    requires |x| == |y| && k <= |x| && forall i :: 0 <= i < k ==> x[i] <= y[i]
    ensures Sum(x, k) <= Sum(y, k)
  {
    if k > 0 {
      SumAtMost(x, y, k - 1);
    }
  }

  function AllShares(total: nat, n: nat): (r: seq<nat>)
    requires n > 0
    ensures |r| == n
  {
    seq(n, i requires 0 <= i < n => Share(total, n, i))
  }

  lemma AllSharesSum(total: nat, n: nat)
    requires n > 0
    ensures Sum(AllShares(total, n), n) == total
  {
    SumOfShares(AllShares(total, n), total, n);
    SharesAddUp(total, n);
  }

  /** Mixed capacities of totals at least as far apart as there are shards add up to neither. */
  lemma MixedBetween(capacities: seq<nat>, a: nat, b: nat)
    requires Mixed(capacities, a, b) && (a + |capacities| <= b || b + |capacities| <= a)
    ensures Min(a, b) < Sum(capacities, |capacities|) < Max(a, b)
  {
    var (n, low, high) := (|capacities|, Min(a, b), Max(a, b));
    forall i | 0 <= i < n
      ensures Share(low, n, i) < Share(high, n, i)
    {
      SharesApart(low, high, n, i);
    }
    var (x, y) := (AllShares(low, n), AllShares(high, n));
    AllSharesSum(low, n);
    AllSharesSum(high, n);
    SumLess(x, capacities, n, if b == high then 0 else 1);
    SumLess(capacities, y, n, if b == high then 1 else 0);
  }

  /**
   * Overlapping resizes need not leave either total. In any cache that is constructed with more
   * than one shard, for any two totals: one thread has stored shard 0 when another resizes, both
   * finish, and shard 0 has a share of one total and every other shard a share of the other.
   */
  lemma OverlappingResizesMix(c: Config, s: State, init: nat, a: nat, b: nat) returns (run: seq<State>)
    requires Init(c, s, init) && |s.threads| >= 2 && |s.shards| == ShardCount(init, MAX_SHARDS) > 1
    ensures IsRun(c, run, init) && run[0] == s && Settled(run[|run| - 1]) && Mixed(run[|run| - 1].capacities, a, b)
    ensures |run[|run| - 1].capacities| == |s.shards|
    ensures a + |s.shards| <= b || b + |s.shards| <= a ==>
              Min(a, b) < Sum(run[|run| - 1].capacities, |run[|run| - 1].capacities|) < Max(a, b)
  {
    run := Overlap(c, s, init, a, b);
    run := FinishResize(c, run, init, 1, b, 0);
    var between := run[|run| - 1];
    RunKeepsInv(c, run, init, |run| - 1);
    run := Extended(c, run, init, EvictStep(0));
    EvictMoves(c, between, EvictStep(0), run[|run| - 1]);
    run := FinishResize(c, run, init, 0, a, 1);
    if a + |s.shards| <= b || b + |s.shards| <= a {
      MixedBetween(run[|run| - 1].capacities, a, b);
    }
  }
}
