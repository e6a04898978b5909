/**
 * The memory budget of a reader and its clones. Clones share both caches and the row-ID order;
 * each keeps its own reference to a preloaded buffer, which a clone copies from its source.
 */
module MemoryClones {
  import opened HeaderLayout
  import opened MemoryBudget
  import opened Prelude

  /** A reader of the group: the buffer it has preloaded, and the raw-cache size it wants. */
  datatype Clone = Clone(hot: Option<nat>, desiredRaw: u64)

  /** What a warmed-up reader and its clones hold; `buffers` are the lengths of the preloads ever made. */
  datatype Group = Group(adjacencyCache: nat, rawCache: nat, order: Order, buffers: seq<nat>, clones: seq<Clone>)

  predicate CloneOk(g: Group, clone: Clone) {
    clone.hot.Some? ==> clone.hot.value < |g.buffers| && g.buffers[clone.hot.value] > 0
  }

  predicate WellFormed(g: Group) {
    g.clones != [] && forall i :: 0 <= i < |g.clones| ==> CloneOk(g, g.clones[i])
  }

  function HotOf(g: Group, i: nat): nat
    requires i < |g.clones| && CloneOk(g, g.clones[i])
  {
    if g.clones[i].hot.Some? then g.buffers[g.clones[i].hot.value] else 0
  }

  /** The memory as one reader sees it. */
  function View(g: Group, i: nat): Memory
    requires i < |g.clones| && CloneOk(g, g.clones[i])
  {
    Memory(true, g.adjacencyCache, g.rawCache, HotOf(g, i), g.order, g.clones[i].desiredRaw)
  }

  predicate Held(clones: seq<Clone>, b: nat) {
    exists i :: 0 <= i < |clones| && clones[i].hot == Some(b)
  }

  /** Bytes of the first k buffers that some reader holds, without the one that reader `except` holds. */
  function Live(buffers: seq<nat>, clones: seq<Clone>, except: Option<nat>, k: nat): nat
    requires k <= |buffers|
  {
    if k == 0 then 0 else
      Live(buffers, clones, except, k - 1) + (if Held(clones, k - 1) && except != Some(k - 1) then buffers[k - 1] else 0)
  }

  /** Bytes preloaded by others that reader i does not count. */
  function Uncounted(g: Group, i: nat): nat
    requires i < |g.clones|
  {
    Live(g.buffers, g.clones, g.clones[i].hot, |g.buffers|)
  }

  /** Everything the group holds and may come to hold. */
  function GroupUsed(l: Limits, g: Group): nat {
    l.steady + Live(g.buffers, g.clones, None, |g.buffers|) + (if g.order.Loaded? then l.orderBytes else 0) + g.adjacencyCache + g.rawCache
  }

  lemma {:induction false} LiveSplit(buffers: seq<nat>, clones: seq<Clone>, i: nat, k: nat)
    requires k <= |buffers| && i < |clones|
    ensures Live(buffers, clones, None, k) ==
            Live(buffers, clones, clones[i].hot, k) +
            (if clones[i].hot.Some? && clones[i].hot.value < k then buffers[clones[i].hot.value] else 0)
  {
    if k > 0 {
      LiveSplit(buffers, clones, i, k - 1);
      if clones[i].hot == Some(k - 1) {
        assert Held(clones, k - 1);
      }
    }
  }

  /** The group holds what one reader counts and what it does not count. */
  lemma GroupUsedSplit(l: Limits, g: Group, i: nat)
    requires WellFormed(g) && i < |g.clones|
    ensures GroupUsed(l, g) == Used(l, View(g, i)) + Uncounted(g, i)
  {
    assert CloneOk(g, g.clones[i]);
    LiveSplit(g.buffers, g.clones, i, |g.buffers|);
  }

  // ---------------------------------------------------------------------------------------
  // Actions.

  datatype Action =
    | Act(i: nat, op: Operation)
    | CloneOf(i: nat)
    | Refresh(i: nat, from: nat)
    | Drop(i: nat)

  predicate Enabled(g: Group, action: Action) {
    && action.i < |g.clones|
    && (action.Refresh? ==> action.from < |g.clones|)
    && (action.Drop? ==> |g.clones| > 1)
  }

  /** An operation of one reader: the caches and the order are shared, a new preload is its own. */
  function Acted(l: Limits, g: Group, i: nat, op: Operation): Group
    requires WellFormed(g) && i < |g.clones|
  {
    var m := After(l, View(g, i), op);
    if m.hot == HotOf(g, i) then
      Group(m.adjacencyCache, m.rawCache, m.order, g.buffers, g.clones[i := Clone(g.clones[i].hot, m.desiredRaw)])
    else
      Group(m.adjacencyCache, m.rawCache, m.order, g.buffers + [m.hot], g.clones[i := Clone(Some(|g.buffers|), m.desiredRaw)])
  }

  function Next(l: Limits, g: Group, action: Action): Group
    requires WellFormed(g) && Enabled(g, action)
  {
    match action
    case Act(i, op) => Acted(l, g, i, op)
    case CloneOf(i) => g.(clones := g.clones + [g.clones[i]])
    case Refresh(i, from) => g.(clones := g.clones[i := g.clones[from]])
    case Drop(i) => g.(clones := g.clones[..i] + g.clones[i + 1..])
  }

  lemma HotOnlyGrowsFromNone(l: Limits, m: Memory, op: Operation)
    requires m.resident
    ensures After(l, m, op).resident && (After(l, m, op).hot == m.hot || (m.hot == 0 && After(l, m, op).hot > 0))
  {
  }

  lemma NextWellFormed(l: Limits, g: Group, action: Action)
    requires WellFormed(g) && Enabled(g, action)
    ensures WellFormed(Next(l, g, action))
  {
    if action.Act? {
      HotOnlyGrowsFromNone(l, View(g, action.i), action.op);
    }
  }

  lemma ActedView(l: Limits, g: Group, i: nat, op: Operation)
    requires WellFormed(g) && i < |g.clones|
    ensures WellFormed(Acted(l, g, i, op)) && |Acted(l, g, i, op).clones| == |g.clones|
    ensures View(Acted(l, g, i, op), i) == After(l, View(g, i), op)
  {
    NextWellFormed(l, g, Act(i, op));
    HotOnlyGrowsFromNone(l, View(g, i), op);
  }

  lemma {:induction false} LiveSame(buffers: seq<nat>, more: seq<nat>, clones: seq<Clone>, clones': seq<Clone>,
                                    except: Option<nat>, except': Option<nat>, k: nat)
    requires k <= |buffers|
    requires forall b :: 0 <= b < k ==> ((Held(clones, b) && except != Some(b)) <==> (Held(clones', b) && except' != Some(b)))
    ensures Live(buffers, clones, except, k) == Live(buffers + more, clones', except', k)
  {
    if k > 0 {
      LiveSame(buffers, more, clones, clones', except, except', k - 1);
    }
  }

  lemma HeldByOthers(clones: seq<Clone>, i: nat, clone: Clone, b: nat)
    requires i < |clones| && Some(b) != clones[i].hot && Some(b) != clone.hot
    ensures Held(clones, b) <==> Held(clones[i := clone], b)
  {
    if Held(clones, b) {
      var j :| 0 <= j < |clones| && clones[j].hot == Some(b);
      assert clones[i := clone][j].hot == Some(b);
    }
  }

  /** What a reader does not count is not changed by what it does. */
  lemma UncountedKept(l: Limits, g: Group, i: nat, op: Operation)
    requires WellFormed(g) && i < |g.clones|
    ensures |Acted(l, g, i, op).clones| == |g.clones| && Uncounted(Acted(l, g, i, op), i) == Uncounted(g, i)
  {
    HotOnlyGrowsFromNone(l, View(g, i), op);
    var g' := Acted(l, g, i, op);
    var (hot, hot') := (g.clones[i].hot, g'.clones[i].hot);
    var more := g'.buffers[|g.buffers|..];
    assert g'.buffers == g.buffers + more && (hot' == hot || hot' == Some(|g.buffers|));
    forall b | 0 <= b < |g.buffers|
      ensures (Held(g.clones, b) && hot != Some(b)) <==> (Held(g'.clones, b) && hot' != Some(b))
    {
      if hot != Some(b) && hot' != Some(b) {
        HeldByOthers(g.clones, i, g'.clones[i], b);
      }
    }
    LiveSame(g.buffers, more, g.clones, g'.clones, hot, hot', |g.buffers|);
  }

  /** The group's memory after an operation: what the reader itself counts, and what it never counted. */
  lemma ActedUsed(l: Limits, g: Group, i: nat, op: Operation)
    requires WellFormed(g) && i < |g.clones|
    ensures GroupUsed(l, Acted(l, g, i, op)) == Used(l, After(l, View(g, i), op)) + Uncounted(g, i)
  {
    ActedView(l, g, i, op);
    UncountedKept(l, g, i, op);
    GroupUsedSplit(l, Acted(l, g, i, op), i);
  }

  // ---------------------------------------------------------------------------------------
  // When the budget survives clones.

  /** No reader holds a buffer other than that of reader 0, the one the others are clones of. */
  predicate Led(g: Group) {
    g.clones != [] && forall i :: 0 <= i < |g.clones| ==> g.clones[i].hot.None? || g.clones[i].hot == g.clones[0].hot
  }

  lemma {:induction false} LedCounts(g: Group, i: nat, k: nat)
    requires Led(g) && i < |g.clones| && g.clones[i].hot == g.clones[0].hot && k <= |g.buffers|
    ensures Live(g.buffers, g.clones, g.clones[i].hot, k) == 0
  {
    if k > 0 {
      LedCounts(g, i, k - 1);
    }
  }

  predicate GroupBudgeted(l: Limits, g: Group) {
    GroupUsed(l, g) <= l.maxResident
  }

  /** A warmed-up reader and clones that trail it. */
  predicate Safe(l: Limits, g: Group) {
    WellFormed(g) && Led(g) && CloneOk(g, g.clones[0]) && Reachable(l, View(g, 0))
  }

  /** Such a group holds what reader 0 counts. */
  lemma LedUsed(l: Limits, g: Group, i: nat)
    requires WellFormed(g) && Led(g) && i < |g.clones| && g.clones[i].hot == g.clones[0].hot
    ensures GroupUsed(l, g) == Used(l, View(g, i))
  {
    LedCounts(g, i, |g.buffers|);
    GroupUsedSplit(l, g, i);
  }

  /**
   * What the program does with clones: only reader 0 preloads, clones and refreshes come from it,
   * it is never dropped, and a clone loads the order only while it holds the buffer of reader 0.
   */
  predicate Disciplined(g: Group, action: Action) {
    match action
    case Act(i, op) =>
      i == 0 || op.Warm? || op.LimitRaw? || (op.LoadOrder? && i < |g.clones| && g.clones[i].hot == g.clones[0].hot)
    case CloneOf(i) => i == 0
    case Refresh(_, from) => from == 0
    case Drop(i) => i > 0
  }

  /** Only reader 0 can install a buffer, and only while nobody has one. */
  lemma ActedLed(l: Limits, g: Group, i: nat, op: Operation)
    requires WellFormed(g) && Led(g) && i < |g.clones| && Disciplined(g, Act(i, op))
    ensures WellFormed(Acted(l, g, i, op)) && Led(Acted(l, g, i, op))
    ensures i > 0 ==> Acted(l, g, i, op).clones[0] == g.clones[0] && Acted(l, g, i, op).clones[i].hot == g.clones[i].hot
  {
    ActedView(l, g, i, op);
    HotOnlyGrowsFromNone(l, View(g, i), op);
  }

  /** Warming up and limiting change nothing that is shared. */
  lemma QuietOperation(l: Limits, m: Memory, op: Operation)
    requires m.resident && (op.Warm? || op.LimitRaw?)
    ensures After(l, m, op) == m.(desiredRaw := After(l, m, op).desiredRaw)
  {
  }

  lemma ActedSafe(l: Limits, g: Group, i: nat, op: Operation)
    requires Safe(l, g) && i < |g.clones| && Disciplined(g, Act(i, op))
    ensures Safe(l, Acted(l, g, i, op)) && (GroupBudgeted(l, g) ==> GroupBudgeted(l, Acted(l, g, i, op)))
  {
    var g' := Acted(l, g, i, op);
    ActedLed(l, g, i, op);
    ActedView(l, g, i, op);
    LedUsed(l, g, 0);
    LedUsed(l, g', 0);
    if op.Warm? || op.LimitRaw? {
      QuietOperation(l, View(g, i), op);
    } else {
      LedUsed(l, g, i);
      LedUsed(l, g', i);
      StepKeepsReachable(l, View(g, i), op);
      if GroupBudgeted(l, g) {
        StepKeepsBudget(l, View(g, i), op);
      }
    }
  }

  /** Cloning, refreshing and dropping leave reader 0 and all that is shared alone. */
  lemma FollowersSafe(l: Limits, g: Group, g': Group)
    requires Safe(l, g) && WellFormed(g') && Led(g') && g' == g.(clones := g'.clones) && g'.clones[0] == g.clones[0]
    ensures Safe(l, g') && GroupUsed(l, g') == GroupUsed(l, g)
  {
    LedUsed(l, g, 0);
    LedUsed(l, g', 0);
  }

  lemma StepSafe(l: Limits, g: Group, action: Action)
    requires Safe(l, g) && Enabled(g, action) && Disciplined(g, action)
    ensures Safe(l, Next(l, g, action)) && (GroupBudgeted(l, g) ==> GroupBudgeted(l, Next(l, g, action)))
  {
    NextWellFormed(l, g, action);
    if action.Act? {
      ActedSafe(l, g, action.i, action.op);
    } else {
      FollowersSafe(l, g, Next(l, g, action));
    }
  }

  /** An operation that brings reader 0, or a clone with its buffer, within budget brings the whole group within it. */
  lemma GroupEstablishes(l: Limits, g: Group, i: nat, op: Operation)
    requires Safe(l, g) && i < |g.clones| && g.clones[i].hot == g.clones[0].hot && Establishes(l, View(g, i), op)
    ensures GroupBudgeted(l, Acted(l, g, i, op))
  {
    LedCounts(g, i, |g.buffers|);
    ActedUsed(l, g, i, op);
    match op
    case Preload(warmOk, readOk) => PreloadEstablishesBudget(l, View(g, i), warmOk, readOk);
    case LoadOrder(warmOk, readOk) => OrderEstablishesBudget(l, View(g, i), warmOk, readOk);
    case _ =>
  }

  /** A sequence of actions of the program. */
  predicate AllDisciplined(l: Limits, g: Group, actions: seq<Action>)
    requires Safe(l, g)
    decreases actions
  {
    actions == [] ||
    (Enabled(g, actions[0]) && Disciplined(g, actions[0])
     && (StepSafe(l, g, actions[0]); AllDisciplined(l, Next(l, g, actions[0]), actions[1..])))
  }

  function NextAll(l: Limits, g: Group, actions: seq<Action>): (r: Group)
    requires Safe(l, g) && AllDisciplined(l, g, actions)
    ensures Safe(l, r)
    decreases actions
  {
    if actions == [] then g else (StepSafe(l, g, actions[0]); NextAll(l, Next(l, g, actions[0]), actions[1..]))
  }

  /**
   * The budget survives clones: however reader 0 operates, clones, refreshes and drops, also when
   * it preloads while clones without its buffer exist, a group within budget stays within it.
   */
  lemma {:induction false} BudgetSurvivesClones(l: Limits, g: Group, actions: seq<Action>)
    requires Safe(l, g) && GroupBudgeted(l, g) && AllDisciplined(l, g, actions)
    ensures GroupBudgeted(l, NextAll(l, g, actions))
    decreases actions
  {
    if actions != [] {
      StepSafe(l, g, actions[0]);
      BudgetSurvivesClones(l, Next(l, g, actions[0]), actions[1..]);
    }
  }

  lemma {:induction false} NextAllConcat(l: Limits, g: Group, before: seq<Action>, later: seq<Action>)
    requires Safe(l, g) && AllDisciplined(l, g, before + later)
    ensures AllDisciplined(l, g, before) && AllDisciplined(l, NextAll(l, g, before), later)
    ensures NextAll(l, g, before + later) == NextAll(l, NextAll(l, g, before), later)
    decreases before
  {
    if before == [] {
      assert before + later == later;
    } else {
      assert (before + later)[0] == before[0] && (before + later)[1..] == before[1..] + later;
      StepSafe(l, g, before[0]);
      NextAllConcat(l, Next(l, g, before[0]), before[1..], later);
    }
  }

  /**
   * In any such sequence, from the first preload of reader 0 that reaches its resize, or the first
   * order load that succeeds, the whole group is within budget.
   */
  lemma GroupBudgetFromThenOn(l: Limits, g: Group, before: seq<Action>, i: nat, op: Operation, later: seq<Action>)
    requires Safe(l, g) && AllDisciplined(l, g, before + ([Act(i, op)] + later))
    requires AllDisciplined(l, g, before)
    requires var reached := NextAll(l, g, before); i < |reached.clones| && Establishes(l, View(reached, i), op)
    ensures GroupBudgeted(l, NextAll(l, g, before + ([Act(i, op)] + later)))
  {
    var (reached, rest) := (NextAll(l, g, before), [Act(i, op)] + later);
    NextAllConcat(l, g, before, rest);
    assert rest[0] == Act(i, op) && rest[1..] == later;
    GroupEstablishes(l, reached, i, op);
    StepSafe(l, reached, Act(i, op));
    BudgetSurvivesClones(l, Acted(l, reached, i, op), later);
  }

  // ---------------------------------------------------------------------------------------
  // The reader that keeps its clones as batch workers.

  /** The preload tries to read and fails. */
  predicate PreloadFails(l: Limits, m: Memory, readOk: bool) {
    l.preload > 0 && m.hot == 0 && PreloadLength(l, Available(l, m)) > 0 && !readOk
  }

  lemma PreloadTwice(l: Limits, m: Memory, readOk: bool)
    requires m.resident && !PreloadFails(l, m, readOk)
    ensures var m' := After(l, m, Preload(true, readOk));
            !PreloadFails(l, m', readOk) && After(l, m', Preload(true, readOk)) == m'
  {
  }

  /** A preload again, once it has not failed, changes nothing. */
  lemma ActedTwice(l: Limits, g: Group, readOk: bool)
    requires WellFormed(g) && !PreloadFails(l, View(g, 0), readOk)
    ensures var g' := Acted(l, g, 0, Preload(true, readOk));
            WellFormed(g') && !PreloadFails(l, View(g', 0), readOk) && Acted(l, g', 0, Preload(true, readOk)) == g'
  {
    ActedView(l, g, 0, Preload(true, readOk));
    PreloadTwice(l, View(g, 0), readOk);
    var g' := Acted(l, g, 0, Preload(true, readOk));
    assert g'.clones[0 := g'.clones[0]] == g'.clones;
  }

  /** The clones a batch leaves behind: all with the buffer of reader 0, each within its share of the raw cache. */
  predicate Fresh(g: Group, limit: u64, n: nat) {
    n <= |g.clones| && forall i :: 0 < i < n ==> g.clones[i] == Clone(g.clones[0].hot, Min(g.clones[0].desiredRaw, limit))
  }

  class BatchReader {
    const limits: Limits
    var group: Group

    predicate Valid()
      reads this
    {
      Safe(limits, group)
    }

    /** A warmed-up reader without workers. */
    constructor (limits: Limits, m: Memory)
      requires m.resident && m.hot == 0 && Reachable(limits, m)
      ensures Valid() && this.limits == limits && group.clones == [Clone(None, m.desiredRaw)] && View(group, 0) == m
    {
      this.limits := limits;
      group := Group(m.adjacencyCache, m.rawCache, m.order, [], [Clone(None, m.desiredRaw)]);
    }

    /** An operation of the reader itself, workers or not. */
    method Operate(op: Operation)
      requires Valid()
      modifies this
      ensures Valid() && group == Acted(limits, old(group), 0, op)
      ensures old(GroupBudgeted(limits, group)) || Establishes(limits, View(old(group), 0), op) ==> GroupBudgeted(limits, group)
    {
      ActedSafe(limits, group, 0, op);
      ghost var was := group;
      group := Acted(limits, group, 0, op);
      if Establishes(limits, View(was, 0), op) {
        GroupEstablishes(limits, was, 0, op);
      }
    }

    /** `batch_workers.clear()` and `truncate`. */
    method KeepWorkers(count: nat)
      requires Valid()
      modifies this
      ensures Valid() && group == old(group).(clones := old(group).clones[..Min(count + 1, |old(group).clones|)])
      ensures GroupUsed(limits, group) == old(GroupUsed(limits, group))
    {
      var kept := group.(clones := group.clones[..Min(count + 1, |group.clones|)]);
      FollowersSafe(limits, group, kept);
      group := kept;
    }

    /**
     * `take_batch_workers`. The reader preloads unless the batch is filtered, drops surplus
     * workers, clones missing ones and refreshes all of them; `cloneOk` says which clones succeed.
     * On success no worker trails the reader any more.
     */
    method TakeBatchWorkers(filtered: bool, count: nat, limit: u64, readOk: bool, cloneOk: nat -> bool) returns (ok: bool)
      requires Valid()
      modifies this
      ensures Valid() && (old(GroupBudgeted(limits, group)) ==> GroupBudgeted(limits, group))
      ensures var led := if filtered then old(group) else Acted(limits, old(group), 0, Preload(true, readOk));
              group == led.(clones := group.clones) && group.clones[0] == led.clones[0]
      ensures ok ==> |group.clones| == count + 1 && Fresh(group, limit, count + 1)
      ensures ok <== (filtered || !PreloadFails(limits, View(old(group), 0), readOk)) && forall n: nat :: cloneOk(n)
    {
      if !filtered {
        var failed := PreloadFails(limits, View(group, 0), readOk);
        ghost var was := group;
        Operate(Preload(true, readOk));
        if failed {
          return false;
        }
        ActedTwice(limits, was, readOk);
      }
      ghost var led := group;
      KeepWorkers(count);
      while |group.clones| < count + 1
        invariant Valid() && |group.clones| <= count + 1 && group == led.(clones := group.clones) && group.clones[0] == led.clones[0]
        invariant old(GroupBudgeted(limits, group)) ==> GroupBudgeted(limits, group)
        invariant filtered || Preloaded(limits, View(group, 0), true, readOk) == View(group, 0)
      {
        if !filtered {
          Again(readOk);
        }
        if !cloneOk(|group.clones|) {
          return false;
        }
        ghost var before := group;
        group := group.(clones := group.clones + [group.clones[0]]);
        FollowersSafe(limits, before, group);
      }
      for i := 1 to |group.clones|
        invariant Valid() && |group.clones| == count + 1 && group == led.(clones := group.clones) && group.clones[0] == led.clones[0]
        invariant old(GroupBudgeted(limits, group)) ==> GroupBudgeted(limits, group)
        invariant Fresh(group, limit, i)
      {
        RefreshWorker(i, limit);
      }
      return true;
    }

    /** `try_clone_for_search` preloads again, which changes nothing by then. */
    method Again(readOk: bool)
      requires Valid() && Preloaded(limits, View(group, 0), true, readOk) == View(group, 0)
      modifies this
      ensures group == old(group)
    {
      ghost var was := group;
      Operate(Preload(true, readOk));
      assert was.clones[0 := was.clones[0]] == was.clones;
    }

    method RefreshWorker(i: nat, limit: u64)
      requires Valid() && 0 < i < |group.clones|
      modifies this
      ensures Valid() && GroupUsed(limits, group) == old(GroupUsed(limits, group))
      ensures group == old(group).(clones := old(group).clones[i := Clone(old(group).clones[0].hot, Min(old(group).clones[0].desiredRaw, limit))])
    {
      ghost var was := group;
      var refreshed := group.clones[0];
      group := group.(clones := group.clones[i := refreshed.(desiredRaw := Min(refreshed.desiredRaw, limit))]);
      FollowersSafe(limits, was, group);
    }
  }

  // ---------------------------------------------------------------------------------------
  // When it does not.

  /** The operation gets through: a preload that installs a buffer, or an order load. */
  predicate GetsThrough(l: Limits, m: Memory, op: Operation) {
    match op
    case Preload(_, readOk) => readOk && l.preload > 0 && m.hot == 0 && PreloadLength(l, Available(l, m)) > 0
    case LoadOrder(_, readOk) => readOk && m.order.NotLoaded? && OrderPeak(l, m) <= l.maxResident
    case _ => false
  }

  /** The bytes it adds to what stays outside the caches. */
  function Adds(l: Limits, m: Memory, op: Operation): nat {
    match op
    case Preload(_, _) => PreloadLength(l, Available(l, m))
    case LoadOrder(_, _) => l.orderBytes
    case _ => 0
  }

  lemma Rest(l: Limits, m: Memory, op: Operation)
    requires Reachable(l, m) && m.resident && GetsThrough(l, m, op)
    ensures var outside := l.steady + OrderBytes(l, m) + m.hot + Adds(l, m, op);
            outside <= l.maxResident && Used(l, After(l, m, op)) == outside + Min(l.maxResident - outside, DesiredTotal(l, m))
  {
  }

  /**
   * For any reader of any group, exactly this decides: once its preload or order load got through,
   * the group is within budget if and only if there is no preload that this reader does not count,
   * or there is room for all such preloads beside all that the caches want.
   */
  lemma BudgetWithClones(l: Limits, g: Group, i: nat, op: Operation)
    requires WellFormed(g) && i < |g.clones| && Reachable(l, View(g, i)) && GetsThrough(l, View(g, i), op)
    ensures var m := View(g, i);
            GroupBudgeted(l, Acted(l, g, i, op)) <==>
            || Uncounted(g, i) == 0
            || l.steady + OrderBytes(l, m) + m.hot + Adds(l, m, op) + Uncounted(g, i) + DesiredTotal(l, m) <= l.maxResident
  {
    ActedUsed(l, g, i, op);
    Rest(l, View(g, i), op);
  }

  /** Limits of a constructed header, with room for two preloads of 64 KiB and caches that want everything. */
  function RoomForTwo(h: Header): Limits
    requires 0 <= Steady(h) <= Peak(h) && Peak(h) + 2 * PRELOAD_ALIGNMENT < U64_RANGE
  {
    LimitsOf(h, Peak(h) + 2 * PRELOAD_ALIGNMENT, PRELOAD_ALIGNMENT, Peak(h) + 2 * PRELOAD_ALIGNMENT)
  }

  lemma RoomyPreload(l: Limits, available: nat)
    requires l.preload == PRELOAD_ALIGNMENT <= l.adjacencyBytes && PRELOAD_ALIGNMENT <= available
    ensures PreloadLength(l, available) == PRELOAD_ALIGNMENT
  {
  }

  /** A reader right after warm-up, with one clone of it. */
  function WarmedPair(l: Limits): Group {
    Group(l.desiredAdjacency, 0, NotLoaded, [], [Clone(None, 0), Clone(None, 0)])
  }

  /**
   * A clone that preloads by itself, which the program never does: for every constructed header
   * whose adjacency has 64 KiB, a warmed-up reader is cloned and preloads, which leaves the group
   * within budget; the preload of the clone takes it over the budget.
   */
  lemma ClonePreloadsItself(p: Params, h: Header) returns (l: Limits, g: Group)
    requires ForLayout(p) == Ok(h) && PRELOAD_ALIGNMENT <= h.sections.adjacency.length && Peak(h) + 2 * PRELOAD_ALIGNMENT < U64_RANGE
    ensures 0 <= Steady(h) <= Peak(h) && l == RoomForTwo(h)
    ensures View(WarmedPair(l), 0) == After(l, Memory(false, 0, 0, 0, NotLoaded, 0), Warm(true))
    ensures Safe(l, WarmedPair(l)) && g == Acted(l, WarmedPair(l), 0, Preload(true, true)) && Safe(l, g) && GroupBudgeted(l, g)
    ensures |g.clones| == 2 && !Disciplined(g, Act(1, Preload(true, true))) && !GroupBudgeted(l, Acted(l, g, 1, Preload(true, true)))
  {
    SteadyWithinPeak(p, h);
    l := RoomForTwo(h);
    g := PairPreloads(l);
  }

  lemma PairPreloads(l: Limits) returns (g: Group)
    requires l.steady <= l.peak && l.peak + 2 * PRELOAD_ALIGNMENT == l.maxResident == l.desiredAdjacency
    requires l.preload == PRELOAD_ALIGNMENT <= l.adjacencyBytes
    ensures Safe(l, WarmedPair(l)) && g == Acted(l, WarmedPair(l), 0, Preload(true, true)) && Safe(l, g) && GroupBudgeted(l, g)
    ensures |g.clones| == 2 && !GroupBudgeted(l, Acted(l, g, 1, Preload(true, true)))
  {
    var pair := WarmedPair(l);
    RoomyPreload(l, Available(l, View(pair, 0)));
    GroupEstablishes(l, pair, 0, Preload(true, true));
    ActedSafe(l, pair, 0, Preload(true, true));
    g := Acted(l, pair, 0, Preload(true, true));
    StrandedClone(l, g);
    RoomyPreload(l, Available(l, View(g, 1)));
    BudgetWithClones(l, g, 1, Preload(true, true));
  }

  lemma StrandedClone(l: Limits, g: Group)
    requires g == Acted(l, WarmedPair(l), 0, Preload(true, true))
    requires Reachable(l, View(WarmedPair(l), 0)) && GetsThrough(l, View(WarmedPair(l), 0), Preload(true, true))
    ensures WellFormed(g) && |g.clones| == 2 && g.clones[1] == Clone(None, 0) && g.order.NotLoaded?
    ensures Uncounted(g, 1) == PreloadLength(l, Available(l, View(WarmedPair(l), 0))) && Reachable(l, View(g, 1))
  {
    var pair := WarmedPair(l);
    ActedView(l, pair, 0, Preload(true, true));
    ActedUsed(l, pair, 0, Preload(true, true));
    var length := PreloadLength(l, Available(l, View(pair, 0)));
    assert g.buffers == [length] && g.clones[0].hot == Some(0);
    assert Held(g.clones, 0);
    assert Live(g.buffers, g.clones, None, 1) == Live(g.buffers, g.clones, None, 0) + length;
  }
}
