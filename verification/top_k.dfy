/**
 * Ranked hits: the order on (distance, row ID), and the first k of a collection under it.
 * Distances are ranks of finite floats, negative for the negative distances that inner product
 * gives; `MAX_DISTANCE` is the padding value.
 */
module TopK {
  import opened Prelude

  const MAX_DISTANCE: int := 0x7F7F_FFFF

  datatype Hit = Hit(distance: int, id: i64)

  predicate Before(a: Hit, b: Hit) {
    a.distance < b.distance || (a.distance == b.distance && a.id <= b.id)
  }

  /** The entries that are not padding, in order. */
  function Real(s: seq<Hit>): (r: seq<Hit>)
    ensures |r| <= |s|
  {
    if s == [] then []
    else if s[0].distance != MAX_DISTANCE then [s[0]] + Real(s[1..])
    else Real(s[1..])
  }

  lemma RealCons(s: seq<Hit>)
    requires s != []
    ensures Real(s) == (if s[0].distance != MAX_DISTANCE then [s[0]] else []) + Real(s[1..])
  {
  }

  lemma {:induction false} RealConcat(a: seq<Hit>, b: seq<Hit>)
    ensures Real(a + b) == Real(a) + Real(b)
  {
    if a == [] {
      assert a + b == b;
    } else {
      RealConcat(a[1..], b);
      assert (a + b)[1..] == a[1..] + b && (a + b)[0] == a[0];
      RealCons(a + b);
      RealCons(a);
      ConcatAssoc([a[0]], Real(a[1..]), Real(b));
    }
  }

  /** Exactly the hits at another distance than `f32::MAX`, each as often as it occurs. */
  lemma {:induction false} RealCounts(s: seq<Hit>, h: Hit)
    ensures multiset(Real(s))[h] == if h.distance != 0x7F7F_FFFF then multiset(s)[h] else 0
  {
    if s != [] {
      RealCounts(s[1..], h);
      RealCons(s);
      assert s == [s[0]] + s[1..];
    }
  }

  function Insert(x: Hit, s: seq<Hit>): (r: seq<Hit>)
    ensures |r| == |s| + 1
  {
    if s == [] || Before(x, s[0]) then [x] + s else [s[0]] + Insert(x, s[1..])
  }

  function InsertAll(sorted: seq<Hit>, s: seq<Hit>): (r: seq<Hit>)
    ensures |r| == |sorted| + |s|
    decreases s
  {
    if s == [] then sorted else InsertAll(Insert(s[0], sorted), s[1..])
  }

  function Sorted(s: seq<Hit>): seq<Hit> {
    InsertAll([], s)
  }

  function First(k: nat, s: seq<Hit>): (r: seq<Hit>)
    ensures |r| == Min(k, |s|)
  {
    if |s| <= k then s else s[..k]
  }

  /** The k best hits in order. */
  function Best(k: nat, s: seq<Hit>): seq<Hit> {
    First(k, Sorted(s))
  }

  predicate Ascending(s: seq<Hit>) {
    forall i, j :: 0 <= i < j < |s| ==> Before(s[i], s[j])
  }

  lemma {:induction false} InsertKeepsOrder(x: Hit, s: seq<Hit>)
    requires Ascending(s)
    ensures Ascending(Insert(x, s)) && multiset(Insert(x, s)) == multiset(s) + multiset{x}
  {
    if s != [] && !Before(x, s[0]) {
      InsertKeepsOrder(x, s[1..]);
      assert s == [s[0]] + s[1..];
      forall y | y in Insert(x, s[1..])
        ensures Before(s[0], y)
      {
        assert y in multiset(s[1..]) + multiset{x};
      }
    }
  }

  lemma {:induction false} InsertAllKeepsOrder(sorted: seq<Hit>, s: seq<Hit>)
    requires Ascending(sorted)
    ensures Ascending(InsertAll(sorted, s)) && multiset(InsertAll(sorted, s)) == multiset(sorted) + multiset(s)
    decreases s
  {
    if s != [] {
      InsertKeepsOrder(s[0], sorted);
      InsertAllKeepsOrder(Insert(s[0], sorted), s[1..]);
      assert s == [s[0]] + s[1..];
    }
  }

  /**
   * `Best` against its meaning: the hits split into k kept ones, in order, and a rest none of
   * which comes before a kept one.
   */
  lemma BestIsTopK(k: nat, s: seq<Hit>) returns (rest: seq<Hit>)
    ensures |Best(k, s)| == Min(k, |s|) && Ascending(Best(k, s))
    ensures multiset(Best(k, s)) + multiset(rest) == multiset(s)
    ensures forall i, j :: 0 <= i < |Best(k, s)| && 0 <= j < |rest| ==> Before(Best(k, s)[i], rest[j])
    ensures forall i, j :: 0 <= i < j < |Best(k, s)| ==>
              || Best(k, s)[i].distance < Best(k, s)[j].distance
              || (Best(k, s)[i].distance == Best(k, s)[j].distance && Best(k, s)[i].id <= Best(k, s)[j].id)
  {
    InsertAllKeepsOrder([], s);
    var all := Sorted(s);
    var n := Min(k, |all|);
    rest := all[n..];
    assert all == all[..n] + all[n..];
    assert Best(k, s) == all[..n];
  }

  lemma {:induction false} FirstOfInsert(k: nat, x: Hit, s: seq<Hit>)
    ensures First(k, Insert(x, First(k, s))) == First(k, Insert(x, s))
    decreases k, |s|
  {
    if k == 0 || |s| <= k {
    } else if Before(x, s[0]) {
      assert First(k, [x] + s[..k]) == First(k, [x] + s);
    } else {
      FirstOfInsert(k - 1, x, s[1..]);
      assert First(k, s)[1..] == First(k - 1, s[1..]);
      FirstOfCons(k, s[0], Insert(x, First(k, s)[1..]));
      FirstOfCons(k, s[0], Insert(x, s[1..]));
    }
  }

  lemma FirstOfCons(k: nat, x: Hit, s: seq<Hit>)
    requires k > 0
    ensures First(k, [x] + s) == [x] + First(k - 1, s)
  {
  }

  lemma {:induction false} FirstOfInsertAll(k: nat, sorted: seq<Hit>, s: seq<Hit>)
    ensures First(k, InsertAll(First(k, sorted), s)) == First(k, InsertAll(sorted, s))
    decreases s
  {
    if s != [] {
      var (x, rest) := (s[0], s[1..]);
      FirstOfInsertAll(k, Insert(x, First(k, sorted)), rest);
      FirstOfInsertAll(k, Insert(x, sorted), rest);
      FirstOfInsert(k, x, sorted);
    }
  }

  lemma {:induction false} InsertAllConcat(sorted: seq<Hit>, a: seq<Hit>, b: seq<Hit>)
    ensures InsertAll(sorted, a + b) == InsertAll(InsertAll(sorted, a), b)
    decreases a
  {
    if a == [] {
      assert a + b == b;
    } else {
      InsertAllConcat(Insert(a[0], sorted), a[1..], b);
      assert (a + b)[1..] == a[1..] + b;
    }
  }

  lemma {:induction false} InsertLast(x: Hit, s: seq<Hit>)
    requires Ascending(s) && forall i :: 0 <= i < |s| ==> Before(s[i], x)
    ensures Insert(x, s) == s + [x]
  {
    if s != [] {
      if Before(x, s[0]) {
        // Everything from here on equals x.
        assert forall i :: 0 <= i < |s| ==> s[i] == x;
      } else {
        InsertLast(x, s[1..]);
      }
    }
  }

  lemma {:induction false} SortedOfAscending(s: seq<Hit>, n: nat)
    requires Ascending(s) && n <= |s|
    ensures Sorted(s[..n]) == s[..n]
  {
    if n > 0 {
      SortedOfAscending(s, n - 1);
      assert s[..n] == s[..n - 1] + [s[n - 1]];
      InsertAllConcat([], s[..n - 1], [s[n - 1]]);
      InsertLast(s[n - 1], s[..n - 1]);
    }
  }

  /** Keeping the best k before adding more hits changes nothing about the best k of all. */
  lemma BestOfBest(k: nat, a: seq<Hit>, b: seq<Hit>)
    ensures Best(k, Best(k, a) + b) == Best(k, a + b)
  {
    InsertAllKeepsOrder([], a);
    var n := Min(k, |a|);
    SortedOfAscending(Sorted(a), n);
    assert Best(k, a) == Sorted(a)[..n];
    InsertAllConcat([], Best(k, a), b);
    InsertAllConcat([], a, b);
    FirstOfInsertAll(k, Sorted(a), b);
  }
}
