/** The mutable shards of the shared window cache, each operation proved against its value form. */
module WindowCaches {
  import opened Prelude
  import opened OffsetLrus
  import opened WindowShards
  import opened NatArith

  function Elements(offsets: seq<u64>): set<u64> {
    set i | 0 <= i < |offsets| :: offsets[i]
  }

  /** Popping the oldest offset with its entry and charge is dropping it. */
  lemma PopDrops(s: Shard)
    requires Consistent(s) && s.order != []
    ensures var x := s.order[0];
            && x in s.entries
            && Drop(s, x) == Shard(s.entries - {x}, s.loading, s.order[1..], SaturatingSub(s.retained, s.entries[x].capacity))
            && Consistent(Drop(s, x))
  {
    PopIsDrop(s);
    DropConsistent(s, s.order[0]);
  }

  class WindowShard {
    var entries: map<u64, Payload>
    var loading: set<u64>
    const recency: OffsetLru
    var retained: nat
    var capacity: nat

    /** The shard as a value. */
    ghost function State(): Shard
      reads this, recency
    {
      Shard(entries, loading, recency.order, retained)
    }

    ghost predicate Valid()
      reads this, recency
    {
      recency.Valid() && Consistent(State())
    }

    constructor (capacity: nat)
      ensures Valid() && State() == EMPTY_SHARD && this.capacity == capacity && fresh(recency)
    {
      entries, loading, retained := map[], {}, 0;
      this.capacity := capacity;
      recency := new OffsetLru();
    }

    /** `lookup_or_reserve`, the body under the lock. */
    method LookupOrReserve(offset: u64, length: nat) returns (r: Lookup)
      requires Valid()
      modifies this, recency
      ensures Valid() && capacity == old(capacity)
      ensures (State(), r) == WindowShards.LookupOrReserve(old(State()), offset, length)
    {
      LookupConsistent(State(), offset, length);
      if offset in entries {
        var payload := entries[offset];
        if |payload.bytes| == length {
          recency.Touch(offset);
          return Hit(payload);
        }
        entries := entries - {offset};
        recency.Remove(offset);
        retained := SaturatingSub(retained, payload.capacity);
      }
      if offset in loading {
        return Loading;
      }
      loading := loading + {offset};
      return Reserved;
    }

    /** One turn of the eviction loop; false when nothing is left to evict. */
    method EvictOldest() returns (more: bool)
      requires Valid()
      modifies this, recency
      ensures Valid() && capacity == old(capacity)
      ensures more <==> old(recency.order) != []
      ensures more ==> old(recency.order)[0] in old(entries) && State() == Drop(old(State()), old(recency.order)[0])
      ensures !more ==> State() == old(State())
    {
      ghost var before := State();
      var oldest := recency.PopOldest();
      if oldest.None? {
        return false;
      }
      PopDrops(before);
      if oldest.value in entries {
        retained := SaturatingSub(retained, entries[oldest.value].capacity);
        entries := entries - {oldest.value};
      }
      assert State() == Drop(before, oldest.value);
      return true;
    }

    /** The eviction loop shared by `publish` and `set_total_capacity`. */
    method EvictTo(limit: nat) returns (evictions: nat)
      requires Valid()
      modifies this, recency
      ensures Valid() && capacity == old(capacity)
      ensures State() == Evict(old(State()), limit)
      ensures evictions == |old(recency.order)| - |recency.order|
    {
      evictions := 0;
      while retained > limit
        invariant Valid() && capacity == old(capacity)
        invariant Evict(State(), limit) == Evict(old(State()), limit)
        invariant evictions == |old(recency.order)| - |recency.order|
        decreases |recency.order|
      {
        ghost var before := State();
        var more := EvictOldest();
        if !more {
          break;
        }
        PopIsDrop(before);
        evictions := evictions + 1;
      }
    }

    /** `publish`, the body under the lock. */
    method Publish(offset: u64, payload: Payload) returns (evictions: nat)
      requires Valid() && retained + payload.capacity <= USIZE_MAX
      modifies this, recency
      ensures Valid() && capacity == old(capacity)
      ensures State() == WindowShards.Publish(old(State()), offset, payload, capacity)
    {
      InsertConsistent(State(), offset, payload);
      ghost var inserted := Insert(State(), offset, payload);
      loading := loading - {offset};
      if offset in entries {
        retained := SaturatingSub(retained, entries[offset].capacity);
      }
      entries := entries[offset := payload];
      retained := SaturatingAdd(retained, payload.capacity);
      recency.Touch(offset);
      assert State() == inserted;
      evictions := EvictTo(capacity);
    }

    /** `remove_loading`, the body under the lock. */
    method RemoveLoading(offsets: seq<u64>)
      requires Valid()
      modifies this
      ensures Valid() && capacity == old(capacity)
      ensures State() == WindowShards.RemoveLoading(old(State()), Elements(offsets))
    {
      for i := 0 to |offsets|
        invariant unchanged(this`entries, this`retained, this`capacity)
        invariant loading == old(loading) - Elements(offsets[..i])
      {
        assert Elements(offsets[..i + 1]) == Elements(offsets[..i]) + {offsets[i]};
        loading := loading - {offsets[i]};
      }
      assert offsets[..|offsets|] == offsets;
    }

    /** The end of `wait_for`. */
    method Take(offset: u64, length: nat) returns (r: Option<Payload>)
      requires Valid()
      modifies this, recency
      ensures Valid() && capacity == old(capacity)
      ensures (State(), r) == WindowShards.Take(old(State()), offset, length)
    {
      TakeConsistent(State(), offset, length);
      if offset in entries && |entries[offset].bytes| == length {
        recency.Touch(offset);
        return Some(entries[offset]);
      }
      return None;
    }
  }

  // ---------------------------------------------------------------------------
  // Dividing a capacity
  // ---------------------------------------------------------------------------

  const MAX_SHARDS: nat := 16
  const MAX_WINDOW_BYTES: nat := 64 * 1024

  /** `new_with_max_shards`: one shard unless every shard can hold a full window. */
  function ShardCount(capacity: nat, maxShards: nat): (n: nat)
    ensures 1 <= n && (n > 1 ==> capacity >= n * MAX_WINDOW_BYTES)
  {
    var limit := Max(maxShards, 1);
    if capacity >= limit * MAX_WINDOW_BYTES then limit else 1
  }

  /** The capacity of shard `i` of `n`: an equal share, and one byte of the remainder. */
  function Share(capacity: nat, n: nat, i: nat): nat
    requires n > 0
  {
    capacity / n + (if i < capacity % n then 1 else 0)
  }

  function Shares(capacity: nat, n: nat, k: nat): nat
    requires n > 0
  {
    if k == 0 then 0 else Shares(capacity, n, k - 1) + Share(capacity, n, k - 1)
  }

  lemma {:induction false} SharesSum(capacity: nat, n: nat, k: nat)
    requires n > 0 && k <= n
    ensures Shares(capacity, n, k) == k * (capacity / n) + Min(k, capacity % n)
  {
    if k > 0 {
      SharesSum(capacity, n, k - 1);
      assert k * (capacity / n) == (k - 1) * (capacity / n) + capacity / n;
    }
  }

  /** The shares of a capacity add up to it. */
  lemma SharesAddUp(capacity: nat, n: nat)
    requires n > 0
    ensures Shares(capacity, n, n) == capacity
  {
    SharesSum(capacity, n, n);
  }

  /** Each shard of a divided cache still holds one full read window. */
  lemma ShareHoldsWindow(capacity: nat, maxShards: nat, i: nat)
    requires i < ShardCount(capacity, maxShards) && ShardCount(capacity, maxShards) > 1
    ensures Share(capacity, ShardCount(capacity, maxShards), i) >= MAX_WINDOW_BYTES
  {
    DivAtLeast(capacity, MAX_WINDOW_BYTES, ShardCount(capacity, maxShards));
  }

  /** A cache has sixteen shards from 1 MiB on, and one below. */
  lemma ShardCountMeans(capacity: nat)
    ensures ShardCount(capacity, MAX_SHARDS) == if capacity >= 16 * 64 * 1024 then 16 else 1
  {
  }

  /** No share is more than one byte larger than another, and earlier shards get the larger ones. */
  lemma SharesBalanced(capacity: nat, n: nat, i: nat, j: nat)
    requires i <= j < n
    ensures Share(capacity, n, j) <= Share(capacity, n, i) <= Share(capacity, n, j) + 1
  {
  }
}
