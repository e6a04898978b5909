/**
 * One shard of the shared window cache: byte-bounded entries with LRU eviction, and the
 * set of offsets whose bytes are being loaded by someone.
 */
module WindowShards {
  import opened Prelude
  import opened OffsetLrus

  const USIZE_MAX: nat := 0xffff_ffff_ffff_ffff

  /** A shared buffer; an entry is charged its allocated capacity, not its length. */
  datatype Payload = Payload(bytes: seq<u8>, capacity: nat)

  datatype Lookup = Hit(payload: Payload) | Reserved | Loading

  /** A shard as a value; `order` is the recency sequence, oldest first. */
  datatype Shard = Shard(entries: map<u64, Payload>, loading: set<u64>, order: seq<u64>, retained: nat)

  const EMPTY_SHARD := Shard(map[], {}, [], 0)

  function SaturatingAdd(a: nat, b: nat): nat {
    if a + b > USIZE_MAX then USIZE_MAX else a + b
  }

  function SaturatingSub(a: nat, b: nat): nat {
    if a < b then 0 else a - b
  }

  /** Capacities of the entries in a recency sequence. */
  function Total(entries: map<u64, Payload>, order: seq<u64>): nat
    requires forall x :: x in order ==> x in entries
  {
    if order == [] then 0 else entries[order[0]].capacity + Total(entries, order[1..])
  }

  /** Entries and recency agree, nothing is both present and loading, and the accounting is exact. */
  ghost predicate Consistent(s: Shard) {
    && Distinct(s.order)
    && (forall x :: x in s.entries <==> x in s.order)
    && s.entries.Keys !! s.loading
    && s.retained == Total(s.entries, s.order) <= USIZE_MAX
  }

  // ---------------------------------------------------------------------------
  // Totals
  // ---------------------------------------------------------------------------

  lemma {:induction false} TotalFrame(a: map<u64, Payload>, b: map<u64, Payload>, order: seq<u64>)
    requires forall x :: x in order ==> x in a && x in b && a[x] == b[x]
    ensures Total(a, order) == Total(b, order)
  {
    if order != [] {
      TotalFrame(a, b, order[1..]);
    }
  }

  lemma {:induction false} TotalConcat(entries: map<u64, Payload>, a: seq<u64>, b: seq<u64>)
    requires forall x :: x in a + b ==> x in entries
    ensures forall x :: x in a ==> x in a + b
    ensures forall x :: x in b ==> x in a + b
    ensures Total(entries, a + b) == Total(entries, a) + Total(entries, b)
  {
    assert forall x :: x in a ==> x in a + b;
    assert forall x :: x in b ==> x in a + b;
    if a == [] {
      assert a + b == b;
    } else {
      assert (a + b)[1..] == a[1..] + b;
      assert forall x :: x in a[1..] + b ==> x in a + b;
      TotalConcat(entries, a[1..], b);
    }
  }

  /** Dropping one entry lowers the total by its capacity. */
  lemma TotalWithout(entries: map<u64, Payload>, order: seq<u64>, x: u64)
    requires Distinct(order) && x in order && forall y :: y in order ==> y in entries
    ensures Total(entries, order) == entries[x].capacity + Total(entries, Without(order, x))
  {
    var k :| 0 <= k < |order| && order[k] == x;
    WithoutAt(order, k);
    var (before, after) := (order[..k], order[k + 1..]);
    assert order == before + ([x] + after);
    TotalMiddle(entries, before, x, after);
  }

  lemma {:induction false} TotalMiddle(entries: map<u64, Payload>, before: seq<u64>, x: u64, after: seq<u64>)
    requires forall y :: y in before + ([x] + after) ==> y in entries
    ensures x in entries && forall y :: y in before + after ==> y in entries
    ensures Total(entries, before + ([x] + after)) == entries[x].capacity + Total(entries, before + after)
    decreases before
  {
    var (all, rest) := (before + ([x] + after), before + after);
    assert all[|before|] == x;
    forall y | y in rest
      ensures y in entries
    {
      assert y in before || y in after;
      assert y in all;
    }
    if before == [] {
      assert all[1..] == after && rest == after;
    } else {
      assert all[1..] == before[1..] + ([x] + after) && rest[1..] == before[1..] + after;
      assert forall y :: y in all[1..] ==> y in all;
      TotalMiddle(entries, before[1..], x, after);
    }
  }

  lemma TouchedHolds(order: seq<u64>, x: u64)
    requires Distinct(order)
    ensures Distinct(Touched(order, x))
    ensures forall y :: y in Touched(order, x) <==> y in order || y == x
  {
    WithoutDistinct(order, x);
    var kept := Without(order, x);
    forall y
      ensures y in kept + [x] <==> y in order || y == x
    {
      assert y in kept + [x] <==> y in kept || y in [x];
    }
  }

  lemma TotalTouched(entries: map<u64, Payload>, order: seq<u64>, x: u64)
    requires Distinct(order) && (forall y :: y in order ==> y in entries) && x in entries
    ensures Distinct(Touched(order, x))
    ensures forall y :: y in Touched(order, x) <==> y in order || y == x
    ensures Total(entries, Touched(order, x)) == entries[x].capacity + Total(entries, Without(order, x))
  {
    TouchedHolds(order, x);
    WithoutDistinct(order, x);
    TotalConcat(entries, Without(order, x), [x]);
    assert Total(entries, [x]) == entries[x].capacity;
  }

  // ---------------------------------------------------------------------------
  // Operations under the shard lock
  // ---------------------------------------------------------------------------

  /** Removes an entry, its recency and its charge. */
  function Drop(s: Shard, x: u64): Shard
    requires x in s.entries
  {
    s.(entries := s.entries - {x}, order := Without(s.order, x), retained := SaturatingSub(s.retained, s.entries[x].capacity))
  }

  /** `lookup_or_reserve`. A cached window of another length is dropped. */
  function LookupOrReserve(s: Shard, offset: u64, length: nat): (Shard, Lookup) {
    if offset in s.entries && |s.entries[offset].bytes| == length then
      (s.(order := Touched(s.order, offset)), Hit(s.entries[offset]))
    else
      var s := if offset in s.entries then Drop(s, offset) else s;
      if offset in s.loading then (s, Loading) else (s.(loading := s.loading + {offset}), Reserved)
  }

  /** The eviction loop: oldest first, until the shard is within `capacity`. */
  function Evict(s: Shard, capacity: nat): Shard
    decreases |s.order|
  {
    if s.retained <= capacity || s.order == [] then s
    else
      var x := s.order[0];
      var popped := s.(order := s.order[1..]);
      Evict(if x in s.entries then popped.(entries := s.entries - {x}, retained := SaturatingSub(s.retained, s.entries[x].capacity))
            else popped, capacity)
  }

  /** `publish` up to its eviction loop. */
  function Insert(s: Shard, offset: u64, payload: Payload): Shard {
    var freed := if offset in s.entries then SaturatingSub(s.retained, s.entries[offset].capacity) else s.retained;
    Shard(s.entries[offset := payload], s.loading - {offset}, Touched(s.order, offset), SaturatingAdd(freed, payload.capacity))
  }

  function Publish(s: Shard, offset: u64, payload: Payload, capacity: nat): Shard {
    Evict(Insert(s, offset, payload), capacity)
  }

  /** `remove_loading`. */
  function RemoveLoading(s: Shard, offsets: set<u64>): Shard {
    s.(loading := s.loading - offsets)
  }

  /** The end of `wait_for`, once the offset is no longer loading. */
  function Take(s: Shard, offset: u64, length: nat): (Shard, Option<Payload>) {
    if offset in s.entries && |s.entries[offset].bytes| == length then
      (s.(order := Touched(s.order, offset)), Some(s.entries[offset]))
    else (s, None)
  }

  // ---------------------------------------------------------------------------
  // What they keep
  // ---------------------------------------------------------------------------

  lemma DropConsistent(s: Shard, x: u64)
    requires Consistent(s) && x in s.entries
    ensures Consistent(Drop(s, x)) && Drop(s, x).retained == s.retained - s.entries[x].capacity
  {
    TotalWithout(s.entries, s.order, x);
    WithoutDistinct(s.order, x);
    TotalFrame(s.entries, s.entries - {x}, Without(s.order, x));
  }

  lemma TouchConsistent(s: Shard, x: u64)
    requires Consistent(s) && x in s.entries
    ensures Consistent(s.(order := Touched(s.order, x)))
  {
    TotalTouched(s.entries, s.order, x);
    TotalWithout(s.entries, s.order, x);
  }

  lemma LookupConsistent(s: Shard, offset: u64, length: nat)
    requires Consistent(s)
    ensures Consistent(LookupOrReserve(s, offset, length).0)
    ensures LookupOrReserve(s, offset, length).0.retained <= s.retained
  {
    if offset in s.entries {
      if |s.entries[offset].bytes| == length {
        TouchConsistent(s, offset);
      } else {
        DropConsistent(s, offset);
      }
    }
  }

  lemma TakeConsistent(s: Shard, offset: u64, length: nat)
    requires Consistent(s)
    ensures Consistent(Take(s, offset, length).0) && Take(s, offset, length).0.retained == s.retained
  {
    if offset in s.entries && |s.entries[offset].bytes| == length {
      TouchConsistent(s, offset);
    }
  }

  lemma InsertConsistent(s: Shard, offset: u64, payload: Payload)
    requires Consistent(s) && s.retained + payload.capacity <= USIZE_MAX
    ensures Consistent(Insert(s, offset, payload))
  {
    var entries := s.entries[offset := payload];
    TotalTouched(entries, s.order, offset);
    if offset in s.entries {
      TotalWithout(s.entries, s.order, offset);
    }
    TotalFrame(s.entries, entries, Without(s.order, offset));
  }

  lemma PopIsDrop(s: Shard)
    requires Consistent(s) && s.order != []
    ensures s.order[0] in s.entries && Without(s.order, s.order[0]) == s.order[1..]
  {
    WithoutAt(s.order, 0);
    assert s.order[0] in s.order;
  }

  lemma {:induction false} EvictConsistent(s: Shard, capacity: nat)
    requires Consistent(s)
    ensures Consistent(Evict(s, capacity)) && Evict(s, capacity).retained <= s.retained
    ensures Evict(s, capacity).retained <= capacity
    ensures Evict(s, capacity).loading == s.loading
    ensures forall x :: x in Evict(s, capacity).entries ==> x in s.entries && Evict(s, capacity).entries[x] == s.entries[x]
    decreases |s.order|
  {
    if s.retained > capacity && s.order != [] {
      PopIsDrop(s);
      DropConsistent(s, s.order[0]);
      EvictConsistent(Drop(s, s.order[0]), capacity);
    }
  }

  lemma SuffixInside(s: Shard, m: nat)
    requires Consistent(s) && m <= |s.order|
    ensures forall x :: x in s.order[m..] ==> x in s.entries
  {
  }

  /**
   * Eviction drops exactly the shortest oldest-first prefix that brings the shard within
   * capacity: the `n` oldest go, and with any fewer gone the rest would still be too big.
   */
  lemma {:induction false} EvictShortestPrefix(s: Shard, capacity: nat) returns (n: nat)
    requires Consistent(s)
    ensures n <= |s.order| && Evict(s, capacity).order == s.order[n..]
    ensures forall x :: x in s.order[n..] ==> x in s.entries
    ensures Total(s.entries, s.order[n..]) <= capacity
    ensures forall m :: 0 <= m < n ==> (SuffixInside(s, m); Total(s.entries, s.order[m..]) > capacity)
    decreases |s.order|
  {
    if s.retained <= capacity || s.order == [] {
      n := 0;
      assert s.order[0..] == s.order;
    } else {
      PopIsDrop(s);
      var rest := Drop(s, s.order[0]);
      DropConsistent(s, s.order[0]);
      var k := EvictShortestPrefix(rest, capacity);
      n := k + 1;
      assert rest.order[k..] == s.order[n..];
      SuffixInside(s, n);
      TotalFrame(s.entries, rest.entries, s.order[n..]);
      forall m | 0 <= m < n ensures (SuffixInside(s, m); Total(s.entries, s.order[m..]) > capacity) {
        SuffixInside(s, m);
        if m == 0 {
          assert s.order[0..] == s.order;
        } else {
          assert rest.order[m - 1..] == s.order[m..];
          SuffixInside(rest, m - 1);
          TotalFrame(s.entries, rest.entries, s.order[m..]);
        }
      }
    }
  }

  lemma PublishConsistent(s: Shard, offset: u64, payload: Payload, capacity: nat)
    requires Consistent(s) && s.retained + payload.capacity <= USIZE_MAX
    ensures Consistent(Publish(s, offset, payload, capacity))
    ensures Publish(s, offset, payload, capacity).retained <= capacity
    ensures Publish(s, offset, payload, capacity).loading == s.loading - {offset}
  {
    InsertConsistent(s, offset, payload);
    EvictConsistent(Insert(s, offset, payload), capacity);
  }

  // ---------------------------------------------------------------------------
  // What they do
  // ---------------------------------------------------------------------------

  /**
   * What is left of a recency sequence and its entries: the `n` oldest are gone, the shortest
   * oldest-first prefix that brings the total within capacity.
   */
  ghost predicate Leaves(entries: map<u64, Payload>, order: seq<u64>, capacity: nat, n: nat, after: Shard) {
    && (forall x :: x in order ==> x in entries)
    && n <= |order| && after.order == order[n..]
    && (forall x :: x in after.entries <==> x in order[n..])
    && (forall x :: x in after.entries ==> x in entries && after.entries[x] == entries[x])
    && Total(entries, order[n..]) <= capacity
    && forall m :: 0 <= m < n ==> Total(entries, order[m..]) > capacity
  }

  lemma EvictLeaves(s: Shard, capacity: nat) returns (n: nat)
    requires Consistent(s)
    ensures Leaves(s.entries, s.order, capacity, n, Evict(s, capacity))
  {
    n := EvictShortestPrefix(s, capacity);
    EvictConsistent(s, capacity);
    forall m | 0 <= m < n
      ensures Total(s.entries, s.order[m..]) > capacity
    {
      SuffixInside(s, m);
    }
  }

  lemma LastStays(entries: map<u64, Payload>, order: seq<u64>, capacity: nat, n: nat, after: Shard)
    requires Leaves(entries, order, capacity, n, after) && order != [] && entries[order[|order| - 1]].capacity <= capacity
    ensures n < |order| && order[|order| - 1] in after.entries
  {
    var m := |order| - 1;
    assert order[m..] == [order[m]] && order[m..][1..] == [];
    assert Total(entries, order[m..]) == entries[order[m]].capacity;
    assert order[n..][m - n] == order[m];
  }

  /**
   * What a publish leaves: the offset becomes the most recent, and of that recency sequence the
   * shortest oldest-first prefix goes that brings the total within capacity. The entries are those
   * of the rest, so a window that fits the shard by itself is stored.
   */
  lemma PublishKeeps(s: Shard, offset: u64, payload: Payload, capacity: nat) returns (n: nat)
    requires Consistent(s) && s.retained + payload.capacity <= USIZE_MAX
    ensures Leaves(s.entries[offset := payload], Without(s.order, offset) + [offset], capacity, n, Publish(s, offset, payload, capacity))
    ensures payload.capacity <= capacity ==>
              offset in Publish(s, offset, payload, capacity).entries && Publish(s, offset, payload, capacity).entries[offset] == payload
  {
    InsertConsistent(s, offset, payload);
    n := EvictLeaves(Insert(s, offset, payload), capacity);
    if payload.capacity <= capacity {
      LastStays(s.entries[offset := payload], Without(s.order, offset) + [offset], capacity, n, Publish(s, offset, payload, capacity));
    }
  }

  /** The offset is the most recent, and the others are in the order they were in. */
  predicate MadeMostRecent(before: seq<u64>, after: seq<u64>, offset: u64) {
    after != [] && after[|after| - 1] == offset && after[..|after| - 1] == Without(before, offset)
  }

  /**
   * What a lookup does: exactly a stored window of that length is a hit, which makes it the most
   * recent; otherwise a window of another length is dropped, and the offset is reserved unless it
   * is being loaded.
   */
  lemma LookupMeans(s: Shard, offset: u64, length: nat)
    requires Consistent(s)
    ensures var (after, found) := LookupOrReserve(s, offset, length);
            && (found.Hit? <==> offset in s.entries && |s.entries[offset].bytes| == length)
            && (found.Hit? ==> found.payload == s.entries[offset] && MadeMostRecent(s.order, after.order, offset)
                               && after == s.(order := after.order))
            && (!found.Hit? ==> after.order == Without(s.order, offset) && after.entries == s.entries - {offset})
            && (found.Loading? <==> offset in s.loading && !found.Hit?)
            && after.loading == s.loading + (if found.Reserved? then {offset} else {})
  {
    if offset !in s.entries {
      assert s.entries - {offset} == s.entries;
    }
  }

  /** A waiter's hit makes the window the most recent; a miss changes nothing. */
  lemma TakeMeans(s: Shard, offset: u64, length: nat)
    ensures var (after, found) := Take(s, offset, length);
            && (found.Some? <==> offset in s.entries && |s.entries[offset].bytes| == length)
            && (found.Some? ==> found.value == s.entries[offset] && MadeMostRecent(s.order, after.order, offset)
                                && after == s.(order := after.order))
            && (found.None? ==> after == s)
  {
  }

  /** The two most recent stay if they fit together. */
  lemma LastTwoStay(entries: map<u64, Payload>, front: seq<u64>, x: u64, y: u64, capacity: nat, n: nat, after: Shard)
    requires Leaves(entries, front + [x, y], capacity, n, after) && entries[x].capacity + entries[y].capacity <= capacity
    ensures x in after.entries && y in after.entries
  {
    var (order, m) := (front + [x, y], |front|);
    assert order[m..] == [x, y] && [x, y][1..] == [y] && [y][1..] == [];
    assert Total(entries, [x, y]) == entries[x].capacity + Total(entries, [y]) && Total(entries, [y]) == entries[y].capacity + Total(entries, []);
    assert n <= m;
    assert order[n..][m - n] == x && order[n..][m - n + 1] == y;
  }

  /** A hit protects a window: the next publish of another one keeps it if both fit the shard together. */
  lemma HitSurvivesPublish(s: Shard, hit: u64, length: nat, offset: u64, payload: Payload, capacity: nat)
    requires Consistent(s) && LookupOrReserve(s, hit, length).1.Hit? && offset != hit
    requires s.retained + payload.capacity <= USIZE_MAX && s.entries[hit].capacity + payload.capacity <= capacity
    ensures var after := Publish(LookupOrReserve(s, hit, length).0, offset, payload, capacity);
            hit in after.entries && offset in after.entries
  {
    LookupConsistent(s, hit, length);
    MostRecentSurvives(LookupOrReserve(s, hit, length).0, Without(s.order, hit), hit, offset, payload, capacity);
  }

  lemma MostRecentSurvives(s: Shard, others: seq<u64>, last: u64, offset: u64, payload: Payload, capacity: nat)
    requires Consistent(s) && s.order == others + [last] && offset != last && last in s.entries
    requires s.retained + payload.capacity <= USIZE_MAX && s.entries[last].capacity + payload.capacity <= capacity
    ensures last in Publish(s, offset, payload, capacity).entries && offset in Publish(s, offset, payload, capacity).entries
  {
    var n := PublishKeeps(s, offset, payload, capacity);
    WithoutLast(others, last, offset);
    assert Without(s.order, offset) + [offset] == Without(others, offset) + [last, offset];
    LastTwoStay(s.entries[offset := payload], Without(others, offset), last, offset, capacity, n, Publish(s, offset, payload, capacity));
  }

  lemma {:induction false} WithoutLast(order: seq<u64>, last: u64, x: u64)
    requires last != x
    ensures Without(order + [last], x) == Without(order, x) + [last]
  {
    if order == [] {
      assert order + [last] == [last] && Without([last], x) == [last] + Without([last][1..], x);
    } else {
      WithoutLast(order[1..], last, x);
      assert (order + [last])[1..] == order[1..] + [last];
    }
  }
}
