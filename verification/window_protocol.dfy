/**
 * The shared window cache under arbitrary interleavings. Every operation under a shard lock
 * is one atomic step; a resize stores a shard's capacity and evicts in two separate steps;
 * a waiter sleeps on the shard's condition variable and may wake spuriously.
 */
module WindowProtocol {
  import opened Prelude
  import opened WindowShards
  import opened WindowCaches

  /** The shard of an offset, and the bytes of the file being cached. */
  datatype Config = Config(shardOf: u64 -> nat, file: seq<u8>) {
    /** The window of the file at an offset. */
    predicate IsWindow(offset: u64, bytes: seq<u8>) {
      offset + |bytes| <= |file| && bytes == file[offset..offset + |bytes|]
    }
  }

  datatype Pc =
    | Idle
    | Sleeping(offset: u64, length: nat, notified: bool)
    | Resizing(total: nat, shard: nat, stored: bool)

  /** A thread: where it is, the reservations it holds, and the last window it was given. */
  datatype Thread = Thread(pc: Pc, held: set<u64>, got: Option<(u64, nat, Payload)>)

  /**
   * For shard `i`: `asked[i]` is the total of the resize that stored its capacity last, and
   * `pending[i]` that thread while it has not yet evicted to it.
   */
  datatype State = State(
    shards: seq<Shard>, capacities: seq<nat>, asked: seq<nat>, pending: seq<Option<nat>>, threads: seq<Thread>)

  datatype Step =
    | LookupStep(t: nat, offset: u64, length: nat)
    | PublishStep(t: nat, offset: u64, payload: Payload)
    | CancelStep(t: nat, offsets: set<u64>, shard: nat)
    | WaitStep(t: nat, offset: u64, length: nat)
    | WakeStep(t: nat)
    | ResizeStep(t: nat, total: nat)
    | StoreStep(t: nat)
    | EvictStep(t: nat)

  // ---------------------------------------------------------------------------
  // Steps
  // ---------------------------------------------------------------------------

  /** `notify_all` on a shard's condition variable. */
  function Notify(c: Config, threads: seq<Thread>, shard: nat): (r: seq<Thread>)
    ensures |r| == |threads|
    ensures forall t :: 0 <= t < |threads| ==> r[t].held == threads[t].held && r[t].got == threads[t].got
  {
    seq(|threads|, t requires 0 <= t < |threads| =>
      match threads[t].pc
      case Sleeping(offset, length, _) =>
        if c.shardOf(offset) == shard then threads[t].(pc := Sleeping(offset, length, true)) else threads[t]
      case _ => threads[t])
  }

  ghost predicate Shaped(c: Config, s: State) {
    && |s.shards| == |s.capacities| == |s.asked| == |s.pending| > 0
    && forall x: u64 :: c.shardOf(x) < |s.shards|
  }

  /**
   * What a caller may do: only the holder of a reservation publishes it, with file bytes, or
   * cancels it, and a thread waits only once it has published or cancelled all it reserved.
   */
  ghost predicate Enabled(c: Config, s: State, step: Step)
    requires Shaped(c, s)
  {
    step.t < |s.threads|
    && var me := s.threads[step.t];
    match step
    case LookupStep(_, _, _) => me.pc.Idle?
    case PublishStep(_, offset, payload) =>
      me.pc.Idle? && offset in me.held && c.IsWindow(offset, payload.bytes)
      && s.shards[c.shardOf(offset)].retained + payload.capacity <= USIZE_MAX
    case CancelStep(_, offsets, shard) =>
      me.pc.Idle? && shard < |s.shards| && offsets <= me.held && forall x :: x in offsets ==> c.shardOf(x) == shard
    case WaitStep(_, _, _) => me.pc.Idle? && me.held == {}
    case WakeStep(_) => me.pc.Sleeping?
    case ResizeStep(_, _) => me.pc.Idle?
    case StoreStep(_) => me.pc.Resizing? && !me.pc.stored && me.pc.shard < |s.shards|
    case EvictStep(_) => me.pc.Resizing? && me.pc.stored && me.pc.shard < |s.shards|
  }

  /** `wait_for` from the point where the lock is held: sleep while loading, else take the entry. */
  function AwaitOrTake(c: Config, s: State, t: nat, offset: u64, length: nat): State
    requires t < |s.threads| && c.shardOf(offset) < |s.shards|
  {
    var i := c.shardOf(offset);
    if offset in s.shards[i].loading then
      s.(threads := s.threads[t := s.threads[t].(pc := Sleeping(offset, length, false))])
    else
      var (shard, found) := Take(s.shards[i], offset, length);
      var me := s.threads[t].(pc := Idle, got := if found.Some? then Some((offset, length, found.value)) else s.threads[t].got);
      s.(shards := s.shards[i := shard], threads := s.threads[t := me])
  }

  function Apply(c: Config, s: State, step: Step): State
    requires Shaped(c, s) && Enabled(c, s, step)
  {
    var t := step.t;
    var me := s.threads[t];
    match step
    case LookupStep(_, offset, length) =>
      var i := c.shardOf(offset);
      var (shard, found) := LookupOrReserve(s.shards[i], offset, length);
      var me' := match found
        case Hit(payload) => me.(got := Some((offset, length, payload)))
        case Reserved => me.(held := me.held + {offset})
        case Loading => me;
      s.(shards := s.shards[i := shard], threads := s.threads[t := me'])
    case PublishStep(_, offset, payload) =>
      var i := c.shardOf(offset);
      var threads := s.threads[t := me.(held := me.held - {offset})];
      s.(shards := s.shards[i := Publish(s.shards[i], offset, payload, s.capacities[i])], threads := Notify(c, threads, i))
    case CancelStep(_, offsets, i) =>
      var threads := s.threads[t := me.(held := me.held - offsets)];
      s.(shards := s.shards[i := RemoveLoading(s.shards[i], offsets)], threads := Notify(c, threads, i))
    case WaitStep(_, offset, length) => AwaitOrTake(c, s, t, offset, length)
    case WakeStep(_) => AwaitOrTake(c, s, t, me.pc.offset, me.pc.length)
    case ResizeStep(_, total) => s.(threads := s.threads[t := me.(pc := Resizing(total, 0, false))])
    case StoreStep(_) =>
      var i := me.pc.shard;
      s.(capacities := s.capacities[i := Share(me.pc.total, |s.shards|, i)],
         asked := s.asked[i := me.pc.total],
         pending := s.pending[i := Some(t)],
         threads := s.threads[t := me.(pc := me.pc.(stored := true))])
    case EvictStep(_) =>
      var i := me.pc.shard;
      var next := if i + 1 == |s.shards| then Idle else Resizing(me.pc.total, i + 1, false);
      s.(shards := s.shards[i := Evict(s.shards[i], Share(me.pc.total, |s.shards|, i))],
         pending := if s.pending[i] == Some(t) then s.pending[i := None] else s.pending,
         threads := s.threads[t := me.(pc := next)])
  }

  // ---------------------------------------------------------------------------
  // What every reachable state satisfies
  // ---------------------------------------------------------------------------

  /** A shard is consistent, holds only windows of the file, and only offsets of its own. */
  ghost predicate ShardOk(c: Config, shard: Shard, i: nat) {
    && Consistent(shard)
    && (forall x :: x in shard.entries ==> c.shardOf(x) == i && c.IsWindow(x, shard.entries[x].bytes))
    && (forall x :: x in shard.loading ==> c.shardOf(x) == i)
  }

  /** Once the latest resize of a shard has evicted, the shard is within its capacity. */
  ghost predicate CapacityOk(s: State, i: nat)
    requires i < |s.shards| == |s.capacities| == |s.asked| == |s.pending|
  {
    && s.capacities[i] == Share(s.asked[i], |s.shards|, i)
    && match s.pending[i]
       case None => s.shards[i].retained <= s.capacities[i]
       case Some(t) => t < |s.threads| && s.threads[t].pc == Resizing(s.asked[i], i, true)
  }

  /** A thread's reservations are loading, a sleeper that was not notified has something to wait for,
      and what it was given are the bytes of the file at the offset and length it asked for. */
  ghost predicate ThreadOk(c: Config, s: State, me: Thread)
    requires Shaped(c, s)
  {
    && (forall x :: x in me.held ==> x in s.shards[c.shardOf(x)].loading)
    && (me.pc.Sleeping? && !me.pc.notified ==> me.pc.offset in s.shards[c.shardOf(me.pc.offset)].loading)
    && (me.pc.Sleeping? ==> me.held == {})
    && (me.pc.Resizing? ==> me.pc.shard < |s.shards|)
    && (me.got.Some? ==> c.IsWindow(me.got.value.0, me.got.value.2.bytes) && |me.got.value.2.bytes| == me.got.value.1)
  }

  /** No two threads hold the same reservation. */
  ghost predicate Exclusive(s: State) {
    forall t, u :: 0 <= t < u < |s.threads| ==> s.threads[t].held !! s.threads[u].held
  }

  ghost predicate HeldBySome(s: State, x: u64) {
    exists t :: 0 <= t < |s.threads| && x in s.threads[t].held
  }

  ghost predicate Inv(c: Config, s: State) {
    && Shaped(c, s)
    && (forall i :: 0 <= i < |s.shards| ==> ShardOk(c, s.shards[i], i))
    && (forall i :: 0 <= i < |s.shards| ==> CapacityOk(s, i))
    && (forall t :: 0 <= t < |s.threads| ==> ThreadOk(c, s, s.threads[t]))
    && Exclusive(s)
    && (forall i, x :: 0 <= i < |s.shards| && x in s.shards[i].loading ==> HeldBySome(s, x))
  }

  /** A cache as constructed, and threads that have not started. */
  ghost predicate Init(c: Config, s: State, total: nat) {
    && Shaped(c, s)
    && (forall i :: 0 <= i < |s.shards| ==> s.shards[i] == EMPTY_SHARD && s.pending[i] == None
                                             && s.asked[i] == total && s.capacities[i] == Share(total, |s.shards|, i))
    && (forall t :: 0 <= t < |s.threads| ==> s.threads[t] == Thread(Idle, {}, None))
  }

  lemma InitInv(c: Config, s: State, total: nat)
    requires Init(c, s, total)
    ensures Inv(c, s)
  {
  }

  // ---------------------------------------------------------------------------
  // Every step keeps it
  // ---------------------------------------------------------------------------

  /** Another thread across a step on shard `i`: unchanged, or notified. */
  ghost predicate SameOrNotified(c: Config, before: Thread, after: Thread, i: nat) {
    after == before
    || (before.pc.Sleeping? && c.shardOf(before.pc.offset) == i && after == before.(pc := before.pc.(notified := true)))
  }

  ghost predicate AwakeOrNotified(c: Config, me: Thread, i: nat) {
    me.pc.Sleeping? && c.shardOf(me.pc.offset) == i ==> me.pc.notified
  }

  /**
   * A step of thread `t` on shard `i`, in which `t` gives up the reservations `removed` and
   * gains `added`. If it gives up any, it notifies every sleeper of the shard.
   */
  ghost predicate ShardStep(c: Config, s: State, s': State, i: nat, t: nat, added: set<u64>, removed: set<u64>)
    requires Shaped(c, s) && i < |s.shards| && t < |s.threads|
  {
    && |s'.threads| == |s.threads| && |s'.shards| == |s.shards|
    && |s'.capacities| == |s.capacities| && |s'.asked| == |s.asked| && |s'.pending| == |s.pending|
    && s'.shards == s.shards[i := s'.shards[i]]
    && (forall u :: 0 <= u < |s.threads| && u != t ==> SameOrNotified(c, s.threads[u], s'.threads[u], i))
    && s'.shards[i].loading == s.shards[i].loading - removed + added
    && s'.threads[t].held == s.threads[t].held - removed + added
    && removed <= s.threads[t].held && added !! s.shards[i].loading
    && (forall x :: x in added + removed ==> c.shardOf(x) == i)
    && (removed != {} ==> forall u :: 0 <= u < |s.threads| && u != t ==> AwakeOrNotified(c, s'.threads[u], i))
  }

  lemma OthersStayOk(c: Config, s: State, s': State, i: nat, t: nat, added: set<u64>, removed: set<u64>, u: nat)
    requires Inv(c, s) && i < |s.shards| && t < |s.threads| && u < |s.threads| && u != t
    requires ShardStep(c, s, s', i, t, added, removed)
    ensures ThreadOk(c, s', s'.threads[u])
  {
    assert ThreadOk(c, s, s.threads[u]);
    assert SameOrNotified(c, s.threads[u], s'.threads[u], i);
    assert s.threads[t].held !! s.threads[u].held;
    forall x | x in s'.threads[u].held ensures x in s'.shards[c.shardOf(x)].loading {
      assert x in s.threads[u].held && x !in removed;
    }
    var pc := s'.threads[u].pc;
    if pc.Sleeping? && !pc.notified && c.shardOf(pc.offset) == i {
      assert !AwakeOrNotified(c, s'.threads[u], i);
      assert removed == {};
    }
  }

  lemma ExclusiveKept(c: Config, s: State, s': State, i: nat, t: nat, added: set<u64>, removed: set<u64>)
    requires Inv(c, s) && i < |s.shards| && t < |s.threads|
    requires ShardStep(c, s, s', i, t, added, removed)
    ensures Exclusive(s')
  {
    forall u | 0 <= u < |s.threads| && u != t
      ensures s'.threads[u].held == s.threads[u].held && s'.threads[u].held !! s'.threads[t].held
    {
      assert SameOrNotified(c, s.threads[u], s'.threads[u], i);
      assert ThreadOk(c, s, s.threads[u]);
      assert s.threads[t].held !! s.threads[u].held;
      assert added !! s.threads[u].held;
    }
  }

  lemma LoadingIsHeld(c: Config, s: State, s': State, i: nat, t: nat, added: set<u64>, removed: set<u64>, j: nat, x: u64)
    requires Inv(c, s) && i < |s.shards| && t < |s.threads|
    requires ShardStep(c, s, s', i, t, added, removed)
    requires j < |s.shards| && x in s'.shards[j].loading
    ensures HeldBySome(s', x)
  {
    if j == i && x in added {
      assert x in s'.threads[t].held;
    } else {
      assert x in s.shards[j].loading && HeldBySome(s, x);
      var u :| 0 <= u < |s.threads| && x in s.threads[u].held;
      if u != t {
        assert SameOrNotified(c, s.threads[u], s'.threads[u], i);
      } else {
        assert ShardOk(c, s.shards[j], j);
      }
      assert x in s'.threads[u].held;
    }
  }

  /** A step on one shard keeps the invariant if its own shard, thread and capacities come out right. */
  lemma ShardStepKeepsInv(c: Config, s: State, s': State, i: nat, t: nat, added: set<u64>, removed: set<u64>)
    requires Inv(c, s) && i < |s.shards| && t < |s.threads|
    requires ShardStep(c, s, s', i, t, added, removed)
    requires ShardOk(c, s'.shards[i], i) && ThreadOk(c, s', s'.threads[t])
    requires forall j :: 0 <= j < |s.shards| ==> CapacityOk(s', j)
    ensures Inv(c, s')
  {
    forall u | 0 <= u < |s'.threads| ensures ThreadOk(c, s', s'.threads[u]) {
      if u != t {
        OthersStayOk(c, s, s', i, t, added, removed, u);
      }
    }
    ExclusiveKept(c, s, s', i, t, added, removed);
    forall j, x | 0 <= j < |s'.shards| && x in s'.shards[j].loading ensures HeldBySome(s', x) {
      LoadingIsHeld(c, s, s', i, t, added, removed, j, x);
    }
    forall j | 0 <= j < |s'.shards| ensures ShardOk(c, s'.shards[j], j) {
      assert j != i ==> ShardOk(c, s.shards[j], j);
    }
  }

  /** Capacities are kept when the stepping thread was not resizing and its shard is within bounds. */
  lemma CapacitiesKept(c: Config, s: State, s': State, i: nat, t: nat, added: set<u64>, removed: set<u64>)
    requires Inv(c, s) && i < |s.shards| && t < |s.threads|
    requires ShardStep(c, s, s', i, t, added, removed)
    requires s'.capacities == s.capacities && s'.asked == s.asked && s'.pending == s.pending && !s.threads[t].pc.Resizing?
    requires s'.shards[i].retained <= s.shards[i].retained || s'.shards[i].retained <= s.capacities[i]
    ensures forall j :: 0 <= j < |s.shards| ==> CapacityOk(s', j)
  {
    forall j | 0 <= j < |s.shards| ensures CapacityOk(s', j) {
      assert CapacityOk(s, j);
      if s.pending[j].Some? {
        assert SameOrNotified(c, s.threads[s.pending[j].value], s'.threads[s.pending[j].value], i);
      }
    }
  }

  lemma LookupShardOk(c: Config, shard: Shard, i: nat, offset: u64, length: nat)
    requires ShardOk(c, shard, i) && c.shardOf(offset) == i
    ensures var (shard', found) := LookupOrReserve(shard, offset, length);
            && ShardOk(c, shard', i)
            && shard'.retained <= shard.retained
            && (found.Hit? ==> c.IsWindow(offset, found.payload.bytes) && |found.payload.bytes| == length && shard'.loading == shard.loading)
            && (found.Reserved? ==> offset !in shard.loading && shard'.loading == shard.loading + {offset})
            && (found.Loading? ==> shard'.loading == shard.loading)
  {
    LookupConsistent(shard, offset, length);
  }

  lemma LookupKeepsInv(c: Config, s: State, t: nat, offset: u64, length: nat)
    requires Inv(c, s) && Enabled(c, s, LookupStep(t, offset, length))
    ensures Inv(c, Apply(c, s, LookupStep(t, offset, length)))
  {
    var i := c.shardOf(offset);
    var s' := Apply(c, s, LookupStep(t, offset, length));
    assert ShardOk(c, s.shards[i], i) && ThreadOk(c, s, s.threads[t]);
    LookupShardOk(c, s.shards[i], i, offset, length);
    var found := LookupOrReserve(s.shards[i], offset, length).1;
    var added := if found.Reserved? then {offset} else {};
    assert ShardStep(c, s, s', i, t, added, {});
    CapacitiesKept(c, s, s', i, t, added, {});
    ShardStepKeepsInv(c, s, s', i, t, added, {});
  }

  lemma PublishShardOk(c: Config, shard: Shard, i: nat, offset: u64, payload: Payload, capacity: nat)
    requires ShardOk(c, shard, i) && c.shardOf(offset) == i && c.IsWindow(offset, payload.bytes)
    requires shard.retained + payload.capacity <= USIZE_MAX
    ensures var shard' := Publish(shard, offset, payload, capacity);
            ShardOk(c, shard', i) && shard'.retained <= capacity && shard'.loading == shard.loading - {offset}
  {
    InsertConsistent(shard, offset, payload);
    PublishConsistent(shard, offset, payload, capacity);
    EvictConsistent(Insert(shard, offset, payload), capacity);
  }

  lemma NotifiedStep(c: Config, threads: seq<Thread>, i: nat, u: nat)
    requires u < |threads|
    ensures SameOrNotified(c, threads[u], Notify(c, threads, i)[u], i) && AwakeOrNotified(c, Notify(c, threads, i)[u], i)
  {
  }

  lemma PublishKeepsInv(c: Config, s: State, t: nat, offset: u64, payload: Payload)
    requires Inv(c, s) && Enabled(c, s, PublishStep(t, offset, payload))
    ensures Inv(c, Apply(c, s, PublishStep(t, offset, payload)))
  {
    var i := c.shardOf(offset);
    var s' := Apply(c, s, PublishStep(t, offset, payload));
    assert ShardOk(c, s.shards[i], i) && ThreadOk(c, s, s.threads[t]);
    PublishShardOk(c, s.shards[i], i, offset, payload, s.capacities[i]);
    var threads := s.threads[t := s.threads[t].(held := s.threads[t].held - {offset})];
    forall u | 0 <= u < |s.threads| && u != t
      ensures SameOrNotified(c, s.threads[u], s'.threads[u], i) && AwakeOrNotified(c, s'.threads[u], i)
    {
      NotifiedStep(c, threads, i, u);
    }
    assert ShardStep(c, s, s', i, t, {}, {offset});
    CapacitiesKept(c, s, s', i, t, {}, {offset});
    ShardStepKeepsInv(c, s, s', i, t, {}, {offset});
  }

  lemma CancelKeepsInv(c: Config, s: State, t: nat, offsets: set<u64>, i: nat)
    requires Inv(c, s) && Enabled(c, s, CancelStep(t, offsets, i))
    ensures Inv(c, Apply(c, s, CancelStep(t, offsets, i)))
  {
    var s' := Apply(c, s, CancelStep(t, offsets, i));
    assert ShardOk(c, s.shards[i], i) && ThreadOk(c, s, s.threads[t]);
    var threads := s.threads[t := s.threads[t].(held := s.threads[t].held - offsets)];
    forall u | 0 <= u < |s.threads| && u != t
      ensures SameOrNotified(c, s.threads[u], s'.threads[u], i) && AwakeOrNotified(c, s'.threads[u], i)
    {
      NotifiedStep(c, threads, i, u);
    }
    assert ShardStep(c, s, s', i, t, {}, offsets);
    CapacitiesKept(c, s, s', i, t, {}, offsets);
    ShardStepKeepsInv(c, s, s', i, t, {}, offsets);
  }

  lemma AwaitKeepsInv(c: Config, s: State, t: nat, offset: u64, length: nat)
    requires Inv(c, s) && t < |s.threads| && !s.threads[t].pc.Resizing? && s.threads[t].held == {}
    ensures Inv(c, AwaitOrTake(c, s, t, offset, length))
  {
    var i := c.shardOf(offset);
    var s' := AwaitOrTake(c, s, t, offset, length);
    assert ShardOk(c, s.shards[i], i) && ThreadOk(c, s, s.threads[t]);
    TakeConsistent(s.shards[i], offset, length);
    assert ShardStep(c, s, s', i, t, {}, {});
    CapacitiesKept(c, s, s', i, t, {}, {});
    ShardStepKeepsInv(c, s, s', i, t, {}, {});
  }

  lemma StoreKeepsInv(c: Config, s: State, t: nat)
    requires Inv(c, s) && Enabled(c, s, StoreStep(t))
    ensures Inv(c, Apply(c, s, StoreStep(t)))
  {
    var i := s.threads[t].pc.shard;
    var s' := Apply(c, s, StoreStep(t));
    assert ShardOk(c, s.shards[i], i) && ThreadOk(c, s, s.threads[t]);
    assert ShardStep(c, s, s', i, t, {}, {});
    forall j | 0 <= j < |s.shards| ensures CapacityOk(s', j) {
      assert CapacityOk(s, j);
    }
    ShardStepKeepsInv(c, s, s', i, t, {}, {});
  }

  lemma EvictCapacity(c: Config, s: State, t: nat, j: nat)
    requires Shaped(c, s) && Enabled(c, s, EvictStep(t)) && j < |s.shards|
    requires Consistent(s.shards[s.threads[t].pc.shard]) && CapacityOk(s, j)
    ensures CapacityOk(Apply(c, s, EvictStep(t)), j)
  {
    var i := s.threads[t].pc.shard;
    EvictConsistent(s.shards[i], Share(s.threads[t].pc.total, |s.shards|, i));
  }

  lemma EvictKeepsInv(c: Config, s: State, t: nat)
    requires Inv(c, s) && Enabled(c, s, EvictStep(t))
    ensures Inv(c, Apply(c, s, EvictStep(t)))
  {
    var i := s.threads[t].pc.shard;
    var s' := Apply(c, s, EvictStep(t));
    assert ShardOk(c, s.shards[i], i) && ThreadOk(c, s, s.threads[t]);
    EvictConsistent(s.shards[i], Share(s.threads[t].pc.total, |s.shards|, i));
    assert ShardStep(c, s, s', i, t, {}, {});
    forall j | 0 <= j < |s.shards| ensures CapacityOk(s', j) {
      assert CapacityOk(s, j);
      EvictCapacity(c, s, t, j);
    }
    ShardStepKeepsInv(c, s, s', i, t, {}, {});
  }

  lemma ResizeKeepsInv(c: Config, s: State, t: nat, total: nat)
    requires Inv(c, s) && Enabled(c, s, ResizeStep(t, total))
    ensures Inv(c, Apply(c, s, ResizeStep(t, total)))
  {
    var s' := Apply(c, s, ResizeStep(t, total));
    assert ShardOk(c, s.shards[0], 0) && ThreadOk(c, s, s.threads[t]);
    assert ShardStep(c, s, s', 0, t, {}, {});
    CapacitiesKept(c, s, s', 0, t, {}, {});
    ShardStepKeepsInv(c, s, s', 0, t, {}, {});
  }

  lemma StepKeepsInv(c: Config, s: State, step: Step)
    requires Inv(c, s) && Enabled(c, s, step)
    ensures Inv(c, Apply(c, s, step))
  {
    match step
    case LookupStep(t, offset, length) => LookupKeepsInv(c, s, t, offset, length);
    case PublishStep(t, offset, payload) => PublishKeepsInv(c, s, t, offset, payload);
    case CancelStep(t, offsets, shard) => CancelKeepsInv(c, s, t, offsets, shard);
    case WaitStep(t, offset, length) => AwaitKeepsInv(c, s, t, offset, length);
    case WakeStep(t) =>
      assert ThreadOk(c, s, s.threads[t]);
      AwaitKeepsInv(c, s, t, s.threads[t].pc.offset, s.threads[t].pc.length);
    case ResizeStep(t, total) => ResizeKeepsInv(c, s, t, total);
    case StoreStep(t) => StoreKeepsInv(c, s, t);
    case EvictStep(t) => EvictKeepsInv(c, s, t);
  }

  // ---------------------------------------------------------------------------
  // Whole runs
  // ---------------------------------------------------------------------------

  ghost predicate Next(c: Config, s: State, s': State) {
    Shaped(c, s) && exists step :: Enabled(c, s, step) && s' == Apply(c, s, step)
  }

  /** A run of the cache from its construction, by any threads in any order. */
  ghost predicate IsRun(c: Config, run: seq<State>, total: nat) {
    && run != [] && Init(c, run[0], total)
    && forall k :: 0 < k < |run| ==> Next(c, run[k - 1], run[k])
  }

  lemma NextKeepsInv(c: Config, s: State, s': State)
    requires Inv(c, s) && Next(c, s, s')
    ensures Inv(c, s')
  {
    var step :| Enabled(c, s, step) && s' == Apply(c, s, step);
    StepKeepsInv(c, s, step);
  }

  lemma RunSteps(c: Config, run: seq<State>, total: nat, k: nat)
    requires IsRun(c, run, total) && 0 < k < |run|
    ensures Next(c, run[k - 1], run[k])
  {
  }

  lemma {:induction false} RunKeepsInv(c: Config, run: seq<State>, total: nat, k: nat)
    requires IsRun(c, run, total) && k < |run|
    ensures Inv(c, run[k])
  {
    if k == 0 {
      InitInv(c, run[0], total);
    } else {
      RunKeepsInv(c, run, total, k - 1);
      RunSteps(c, run, total, k);
      NextKeepsInv(c, run[k - 1], run[k]);
    }
  }

  /**
   * Single flight: in every state of every run, an offset is loading exactly when a thread
   * holds its reservation, exactly one does, and it is not cached at the same time.
   */
  lemma SingleFlight(c: Config, run: seq<State>, total: nat, k: nat, x: u64)
    requires IsRun(c, run, total) && k < |run|
    ensures Shaped(c, run[k])
    ensures x in run[k].shards[c.shardOf(x)].loading <==> HeldBySome(run[k], x)
    ensures forall t, u :: 0 <= t < u < |run[k].threads| ==> x !in run[k].threads[t].held || x !in run[k].threads[u].held
    ensures x in run[k].shards[c.shardOf(x)].loading ==> x !in run[k].shards[c.shardOf(x)].entries
  {
    RunKeepsInv(c, run, total, k);
    var s := run[k];
    assert ShardOk(c, s.shards[c.shardOf(x)], c.shardOf(x));
    if HeldBySome(s, x) {
      var t :| 0 <= t < |s.threads| && x in s.threads[t].held;
      assert ThreadOk(c, s, s.threads[t]);
    }
  }

  /**
   * No lost wake-up and no deadlock among waiters: a sleeper that nobody notified waits for an
   * offset that is still loading, and its loader is awake.
   */
  lemma SleepersAreServed(c: Config, run: seq<State>, total: nat, k: nat, t: nat) returns (owner: nat)
    requires IsRun(c, run, total) && k < |run| && t < |run[k].threads|
    requires run[k].threads[t].pc.Sleeping? && !run[k].threads[t].pc.notified
    ensures owner < |run[k].threads| && run[k].threads[t].pc.offset in run[k].threads[owner].held
    ensures !run[k].threads[owner].pc.Sleeping?
  {
    RunKeepsInv(c, run, total, k);
    var s := run[k];
    assert ThreadOk(c, s, s.threads[t]);
    assert HeldBySome(s, s.threads[t].pc.offset);
    owner :| 0 <= owner < |s.threads| && s.threads[t].pc.offset in s.threads[owner].held;
    assert ThreadOk(c, s, s.threads[owner]);
  }

  /** Agreement: whatever a hit or a wait gave out are the file's bytes at that offset and length. */
  lemma WindowsAgree(c: Config, run: seq<State>, total: nat, k: nat, t: nat)
    requires IsRun(c, run, total) && k < |run| && t < |run[k].threads| && run[k].threads[t].got.Some?
    ensures var (offset, length, payload) := run[k].threads[t].got.value;
            offset + length <= |c.file| && payload.bytes == c.file[offset..offset + length]
  {
    RunKeepsInv(c, run, total, k);
    assert ThreadOk(c, run[k], run[k].threads[t]);
  }

  /**
   * Accounting: every shard's retained bytes are the sum of its entries' capacities; and a
   * shard whose latest resize has evicted is within its capacity.
   */
  lemma AccountingHolds(c: Config, run: seq<State>, total: nat, k: nat, i: nat)
    requires IsRun(c, run, total) && k < |run| && i < |run[k].shards|
    ensures Shaped(c, run[k]) && Consistent(run[k].shards[i])
    ensures run[k].pending[i].None? ==> run[k].shards[i].retained <= run[k].capacities[i]
  {
    RunKeepsInv(c, run, total, k);
    assert ShardOk(c, run[k].shards[i], i) && CapacityOk(run[k], i);
  }

  // ---------------------------------------------------------------------------
  // What callers get
  // ---------------------------------------------------------------------------

  /** A stored window of the length asked for is given to the caller; a miss nobody is loading is reserved for them. */
  lemma LookupDelivers(c: Config, s: State, t: nat, offset: u64, length: nat)
    requires Shaped(c, s) && Enabled(c, s, LookupStep(t, offset, length))
    ensures var (shard, s') := (s.shards[c.shardOf(offset)], Apply(c, s, LookupStep(t, offset, length)));
            && t < |s'.threads|
            && (offset in shard.entries && |shard.entries[offset].bytes| == length ==>
                  s'.threads[t].got == Some((offset, length, shard.entries[offset])))
            && (offset !in shard.entries && offset !in shard.loading ==> offset in s'.threads[t].held)
  {
  }

  /** A waiter who finds the window published is given it, and sleeps only while it is being loaded. */
  lemma WakeDelivers(c: Config, s: State, t: nat)
    requires Shaped(c, s) && Enabled(c, s, WakeStep(t))
    ensures var (offset, length) := (s.threads[t].pc.offset, s.threads[t].pc.length);
            var (shard, s') := (s.shards[c.shardOf(offset)], Apply(c, s, WakeStep(t)));
            && t < |s'.threads| && (s'.threads[t].pc.Sleeping? <==> offset in shard.loading) && (!s'.threads[t].pc.Sleeping? ==> s'.threads[t].pc.Idle?)
            && (offset !in shard.loading && offset in shard.entries && |shard.entries[offset].bytes| == length ==>
                  s'.threads[t].got == Some((offset, length, shard.entries[offset])))
  {
  }
}
