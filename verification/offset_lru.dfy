/**
 * A least-recently-used list of offsets: a doubly linked list threaded through a hash map.
 * The links always spell out one sequence, oldest first.
 */
module OffsetLrus {
  import opened Prelude

  datatype Link = Link(older: Option<u64>, newer: Option<u64>)

  // ---------------------------------------------------------------------------
  // Recency sequences
  // ---------------------------------------------------------------------------

  predicate Distinct(order: seq<u64>) {
    forall i, j :: 0 <= i < j < |order| ==> order[i] != order[j]
  }

  /** The sequence without `x`. */
  function Without(order: seq<u64>, x: u64): (r: seq<u64>)
    ensures x !in order ==> r == order
    ensures forall y :: y in r <==> y in order && y != x
  {
    if order == [] then [] else if order[0] == x then Without(order[1..], x) else [order[0]] + Without(order[1..], x)
  }

  /** `x` made the most recent. */
  function Touched(order: seq<u64>, x: u64): seq<u64> {
    Without(order, x) + [x]
  }

  lemma {:induction false} WithoutMiddle(before: seq<u64>, x: u64, after: seq<u64>)
    requires x !in before && x !in after
    ensures Without(before + [x] + after, x) == before + after
  {
    var whole := before + [x] + after;
    if before == [] {
      assert whole[1..] == after && before + after == after;
    } else {
      WithoutMiddle(before[1..], x, after);
      assert whole[1..] == before[1..] + [x] + after;
      assert before + after == [before[0]] + (before[1..] + after);
    }
  }

  lemma WithoutAt(order: seq<u64>, k: nat)
    requires k < |order| && Distinct(order)
    ensures Without(order, order[k]) == order[..k] + order[k + 1..]
  {
    assert order == order[..k] + [order[k]] + order[k + 1..];
    assert order[k] !in order[..k] && order[k] !in order[k + 1..];
    WithoutMiddle(order[..k], order[k], order[k + 1..]);
  }

  lemma {:induction false} WithoutDistinct(order: seq<u64>, x: u64)
    requires Distinct(order)
    ensures Distinct(Without(order, x))
  {
    if x in order {
      var k :| 0 <= k < |order| && order[k] == x;
      WithoutAt(order, k);
    }
  }

  // ---------------------------------------------------------------------------
  // Links
  // ---------------------------------------------------------------------------

  function Previous(order: seq<u64>, i: nat): Option<u64>
    requires i <= |order|
  {
    if i == 0 then None else Some(order[i - 1])
  }

  function Next(order: seq<u64>, i: nat): Option<u64>
    requires i < |order|
  {
    if i + 1 == |order| then None else Some(order[i + 1])
  }

  /** The entry of the `i`-th offset points at its neighbours. */
  predicate LinkAt(links: map<u64, Link>, order: seq<u64>, i: nat) {
    i < |order| && order[i] in links && links[order[i]] == Link(Previous(order, i), Next(order, i))
  }

  /** The links, read from `oldest`, spell out `order`; read from `newest`, its reverse. */
  ghost predicate WellLinked(links: map<u64, Link>, oldest: Option<u64>, newest: Option<u64>, order: seq<u64>) {
    && Distinct(order)
    && (forall x :: x in links <==> x in order)
    && oldest == (if order == [] then None else Some(order[0]))
    && newest == Previous(order, |order|)
    && forall i {:trigger LinkAt(links, order, i)} :: 0 <= i < |order| ==> LinkAt(links, order, i)
  }

  /** The entry of `order[i]` once `order[k]` is cut out. */
  predicate CutLinkAt(links: map<u64, Link>, order: seq<u64>, k: nat, i: nat)
    requires k < |order| && i < |order| && i != k
  {
    && order[i] in links
    && links[order[i]] == Link(if i == k + 1 then Previous(order, k) else Previous(order, i),
                               if i + 1 == k then Next(order, k) else Next(order, i))
  }

  lemma CutLinkMoves(links: map<u64, Link>, order: seq<u64>, k: nat, i: nat, rest: seq<u64>)
    requires k < |order| && i < |order| && i != k && CutLinkAt(links, order, k, i)
    requires rest == order[..k] + order[k + 1..]
    ensures LinkAt(links, rest, if i < k then i else i - 1)
  {
  }

  /** What is left once one offset is cut out. */
  lemma RestOf(order: seq<u64>, k: nat) returns (rest: seq<u64>)
    requires Distinct(order) && k < |order|
    ensures rest == order[..k] + order[k + 1..] == Without(order, order[k]) && Distinct(rest)
    ensures (if rest == [] then None else Some(rest[0])) == if k == 0 then Next(order, k) else Some(order[0])
    ensures Previous(rest, |rest|) == if k + 1 == |order| then Previous(order, k) else Some(order[|order| - 1])
  {
    rest := order[..k] + order[k + 1..];
    WithoutAt(order, k);
    WithoutDistinct(order, order[k]);
  }

  /** A chain with one offset cut out of it: its neighbours are linked to each other. */
  lemma CutOut(order: seq<u64>, k: nat, links: map<u64, Link>, oldest: Option<u64>, newest: Option<u64>)
    requires Distinct(order) && k < |order|
    requires forall x :: x in links <==> x in order && x != order[k]
    requires forall i {:trigger CutLinkAt(links, order, k, i)} :: 0 <= i < |order| && i != k ==> CutLinkAt(links, order, k, i)
    requires oldest == if k == 0 then Next(order, k) else Some(order[0])
    requires newest == if k + 1 == |order| then Previous(order, k) else Some(order[|order| - 1])
    ensures WellLinked(links, oldest, newest, Without(order, order[k]))
  {
    var rest := RestOf(order, k);
    RestLinked(order, k, links, rest);
  }

  lemma RestLinked(order: seq<u64>, k: nat, links: map<u64, Link>, rest: seq<u64>)
    requires k < |order| && rest == order[..k] + order[k + 1..]
    requires forall i {:trigger CutLinkAt(links, order, k, i)} :: 0 <= i < |order| && i != k ==> CutLinkAt(links, order, k, i)
    ensures forall i {:trigger LinkAt(links, rest, i)} :: 0 <= i < |rest| ==> LinkAt(links, rest, i)
  {
    forall i | 0 <= i < |rest| ensures LinkAt(links, rest, i) {
      CutLinkMoves(links, order, k, if i < k then i else i + 1, rest);
    }
  }

  /** The two assignments of `detach` leave the chain without the offset. */
  lemma Relinked(links: map<u64, Link>, oldest: Option<u64>, newest: Option<u64>, order: seq<u64>, k: nat,
                 links': map<u64, Link>, oldest': Option<u64>, newest': Option<u64>)
    requires WellLinked(links, oldest, newest, order) && k < |order|
    requires var (older, newer) := (Previous(order, k), Next(order, k));
             && oldest' == (if older.Some? then oldest else newer)
             && newest' == (if newer.Some? then newest else older)
             && links'.Keys == links.Keys
             && forall x :: x in links ==>
                  links'[x] == Link(if newer == Some(x) then older else links[x].older,
                                    if older == Some(x) then newer else links[x].newer)
    ensures order[k] in links'
    ensures WellLinked(links' - {order[k]}, oldest', newest', Without(order, order[k]))
  {
    forall i | 0 <= i < |order| && i != k ensures CutLinkAt(links' - {order[k]}, order, k, i) {
      assert LinkAt(links, order, i);
    }
    CutOut(order, k, links' - {order[k]}, oldest', newest');
  }

  /** A chain with a new offset linked at its end. */
  lemma LinkedAtEnd(links: map<u64, Link>, oldest: Option<u64>, newest: Option<u64>, order: seq<u64>, x: u64,
                    links': map<u64, Link>)
    requires WellLinked(links, oldest, newest, order) && x !in order
    requires forall y :: y in links' <==> y in links || y == x
    requires links'[x] == Link(newest, None)
    requires forall y :: y in links ==> links'[y] == if Some(y) == newest then links[y].(newer := Some(x)) else links[y]
    ensures WellLinked(links', if order == [] then Some(x) else oldest, Some(x), order + [x])
  {
    var longer := order + [x];
    forall i | 0 <= i < |longer| ensures LinkAt(links', longer, i) {
      if i < |order| {
        assert LinkAt(links, order, i);
        assert longer[i] == order[i];
      }
    }
  }

  // ---------------------------------------------------------------------------
  // The class
  // ---------------------------------------------------------------------------

  class OffsetLru {
    var links: map<u64, Link>
    var oldest: Option<u64>
    var newest: Option<u64>
    /** Offsets from the least to the most recently touched. */
    ghost var order: seq<u64>

    ghost predicate Valid()
      reads this
    {
      WellLinked(links, oldest, newest, order)
    }

    constructor ()
      ensures Valid() && order == []
    {
      links, oldest, newest, order := map[], None, None, [];
    }

    /** Links the neighbours of `offset` to each other; its own entry stays behind. */
    method Detach(offset: u64)
      requires Valid() && offset in order
      modifies this
      ensures offset in links && WellLinked(links - {offset}, oldest, newest, order)
      ensures order == Without(old(order), offset)
    {
      ghost var k :| 0 <= k < |order| && order[k] == offset;
      assert LinkAt(links, order, k);
      var link := links[offset];
      if link.older.Some? {
        links := links[link.older.value := links[link.older.value].(newer := link.newer)];
      } else {
        oldest := link.newer;
      }
      if link.newer.Some? {
        links := links[link.newer.value := links[link.newer.value].(older := link.older)];
      } else {
        newest := link.older;
      }
      Relinked(old(links), old(oldest), old(newest), order, k, links, oldest, newest);
      order := Without(order, offset);
    }

    /** `OffsetLru::touch`. */
    method Touch(offset: u64)
      requires Valid()
      modifies this
      ensures Valid() && order == Touched(old(order), offset)
    {
      if newest == Some(offset) {
        WithoutAt(order, |order| - 1);
        assert order == order[..|order| - 1] + [offset];
        return;
      }
      if offset in links {
        Detach(offset);
      } else {
        links := links[offset := Link(None, None)];
        assert links - {offset} == old(links);
      }
      Append(offset);
    }

    /** The second half of `touch`: links a detached offset at the newest end. */
    method Append(offset: u64)
      requires offset in links && WellLinked(links - {offset}, oldest, newest, order)
      modifies this
      ensures Valid() && order == old(order) + [offset]
    {
      ghost var rest := links - {offset};
      var older := newest;
      if older.Some? {
        assert older.value == order[|order| - 1] && older.value in rest;
        links := links[older.value := links[older.value].(newer := Some(offset))];
      } else {
        oldest := Some(offset);
      }
      links := links[offset := Link(older, None)];
      newest := Some(offset);
      LinkedAtEnd(rest, old(oldest), older, order, offset, links);
      order := order + [offset];
    }

    /** `OffsetLru::remove`. */
    method Remove(offset: u64)
      requires Valid()
      modifies this
      ensures Valid() && order == Without(old(order), offset)
    {
      if offset in links {
        Detach(offset);
        links := links - {offset};
      }
    }

    /** `OffsetLru::pop_oldest`. */
    method PopOldest() returns (r: Option<u64>)
      requires Valid()
      modifies this
      ensures Valid()
      ensures old(order) == [] ==> r == None && order == []
      ensures old(order) != [] ==> r == Some(old(order)[0]) && order == old(order)[1..]
    {
      if oldest.None? {
        return None;
      }
      var offset := oldest.value;
      WithoutAt(order, 0);
      Remove(offset);
      return Some(offset);
    }

    /** `OffsetLru::clear`. */
    method Clear()
      modifies this
      ensures Valid() && order == []
    {
      links, oldest, newest, order := map[], None, None, [];
    }

    /** `OffsetLru::oldest_offsets`: walking the links from the oldest yields the sequence. */
    method OldestOffsets() returns (offsets: seq<u64>)
      requires Valid()
      ensures offsets == order
    {
      offsets := [];
      var current := oldest;
      while current.Some?
        invariant |offsets| <= |order| && offsets == order[..|offsets|]
        invariant current == if |offsets| == |order| then None else Some(order[|offsets|])
        decreases |order| - |offsets|
      {
        assert LinkAt(links, order, |offsets|);
        offsets := offsets + [current.value];
        current := links[current.value].newer;
      }
    }
  }
}
