/** Flat arrays of equal-width groups. */
module Slots {
  /** The i-th group of w consecutive elements. */
  function Slot<T>(s: seq<T>, i: nat, w: nat): (r: seq<T>)
    ensures 0 <= i * w && i * w + w <= |s| ==> |r| == w
  {
    if 0 <= i * w && i * w + w <= |s| then s[i * w..i * w + w] else []
  }

  lemma SlotFits(i: nat, n: nat, w: nat)
    requires i < n
    ensures 0 <= i * w && i * w + w <= n * w
  {
    assert (n - i - 1) * w >= 0;
    assert n * w == i * w + w + (n - i - 1) * w;
  }

  lemma SlotsApart(i: nat, j: nat, w: nat)
    requires i != j
    ensures i * w + w <= j * w || j * w + w <= i * w
  {
    if i < j {
      SlotFits(i, j, w);
    } else {
      SlotFits(j, i, w);
    }
  }

  lemma SlotOfAppend<T>(s: seq<T>, group: seq<T>, n: nat, w: nat)
    requires |s| == n * w && |group| == w
    ensures |s + group| == (n + 1) * w && Slot(s + group, n, w) == group
    ensures forall i :: 0 <= i < n ==> Slot(s + group, i, w) == Slot(s, i, w)
  {
    assert (n + 1) * w == n * w + w;
    forall i | 0 <= i < n
      ensures Slot(s + group, i, w) == Slot(s, i, w)
    {
      SlotFits(i, n, w);
    }
  }

  /** Overwrites one group. */
  function WithSlot<T>(s: seq<T>, i: nat, w: nat, group: seq<T>): (r: seq<T>)
    requires |group| == w
    ensures |r| == |s|
  {
    if 0 <= i * w && i * w + w <= |s| then s[..i * w] + group + s[i * w + w..] else s
  }

  lemma SlotOfWithSlot<T>(s: seq<T>, i: nat, w: nat, group: seq<T>, j: nat, count: nat)
    requires |group| == w && |s| == count * w && i < count && j < count
    ensures Slot(WithSlot(s, i, w, group), j, w) == if i == j then group else Slot(s, j, w)
  {
    SlotFits(i, count, w);
    SlotFits(j, count, w);
    if i != j {
      SlotsApart(i, j, w);
    }
  }
}
