/** Streaming reservoir sampling of training vectors, in batches and in one shot. */
module Reservoir {
  import opened Prelude

  type Vector = seq<u32>

  /** The random draws: for each stream index past the limit, the slot it might replace. */
  type Draws = nat -> nat

  /** Which stream index each slot of the sample holds after n vectors. */
  function Origins(limit: nat, draws: Draws, n: nat): (r: seq<nat>)
    ensures |r| == Min(n, limit)
  {
    if n == 0 then [] else
    var before := Origins(limit, draws, n - 1);
    if n - 1 < limit then before + [n - 1]
    else if draws(n - 1) < limit then before[draws(n - 1) := n - 1]
    else before
  }

  /** The sample never holds a vector of the stream twice, and nothing else. */
  lemma {:induction false} OriginsDistinct(limit: nat, draws: Draws, n: nat)
    ensures forall r :: 0 <= r < |Origins(limit, draws, n)| ==> Origins(limit, draws, n)[r] < n
    ensures forall r, q :: 0 <= r < q < |Origins(limit, draws, n)| ==> Origins(limit, draws, n)[r] != Origins(limit, draws, n)[q]
  {
    if n > 0 {
      OriginsDistinct(limit, draws, n - 1);
    }
  }

  /** Up to the limit the sample is the stream itself. */
  lemma {:induction false} OriginsStart(limit: nat, draws: Draws, n: nat)
    requires n <= limit
    ensures forall r :: 0 <= r < n ==> Origins(limit, draws, n)[r] == r
  {
    if n > 0 {
      OriginsStart(limit, draws, n - 1);
    }
  }

  /** Stream index i goes to slot r: it is the slot's first vector, or it is drawn into it past the limit. */
  predicate GoesTo(limit: nat, draws: Draws, i: nat, r: nat) {
    i == r || (i >= limit && draws(i) == r)
  }

  /** A slot holds the last vector that went to it. */
  lemma {:induction false} SlotHoldsLast(limit: nat, draws: Draws, n: nat, r: nat)
    requires r < Min(n, limit)
    ensures var origin := Origins(limit, draws, n)[r];
            origin < n && GoesTo(limit, draws, origin, r) && forall i :: origin < i < n ==> !GoesTo(limit, draws, i, r)
  {
    if r < Min(n - 1, limit) {
      SlotHoldsLast(limit, draws, n - 1, r);
    }
  }

  /** The sample of the first n vectors of a stream. */
  predicate Samples(data: seq<Vector>, stream: seq<Vector>, limit: nat, draws: Draws, n: nat) {
    && n <= |stream| && |data| == Min(n, limit)
    && var origins := Origins(limit, draws, n);
       forall r :: 0 <= r < |data| ==> origins[r] < |stream| && data[r] == stream[origins[r]]
  }

  /** Longer streams keep what was sampled. */
  lemma SamplesKept(data: seq<Vector>, stream: seq<Vector>, more: seq<Vector>, limit: nat, draws: Draws, n: nat)
    requires Samples(data, stream, limit, draws, n)
    ensures Samples(data, stream + more, limit, draws, n)
  {
  }

  class Trainer {
    const limit: nat
    const draws: Draws
    var data: seq<Vector>
    var count: nat
    var seen: nat
    ghost var stream: seq<Vector>

    ghost predicate Valid()
      reads this
    {
      |stream| == seen && count == Min(seen, limit) && Samples(data, stream, limit, draws, seen)
    }

    constructor (limit: nat, draws: Draws)
      ensures Valid() && this.limit == limit && this.draws == draws && stream == []
    {
      this.limit, this.draws := limit, draws;
      this.data, this.count, this.seen, this.stream := [], 0, 0, [];
    }

    /** A rejected batch changes nothing; an accepted one extends the stream. */
    method AddBatch(batch: seq<Vector>) returns (ok: bool)
      requires Valid()
      modifies this
      ensures Valid() && (ok <==> 0 < |batch| && old(seen) + |batch| < U64_RANGE)
      ensures stream == old(stream) + (if ok then batch else []) && seen == |stream|
    {
      if batch == [] || seen + |batch| >= U64_RANGE {
        return false;
      }
      ghost var whole := stream + batch;
      SamplesKept(data, stream, batch, limit, draws, seen);
      for i := 0 to |batch|
        invariant seen == old(seen) && stream == old(stream) && |stream| == seen
        invariant Samples(data, whole, limit, draws, seen + i)
      {
        var index := seen + i;
        assert whole[index] == batch[i];
        if index < limit {
          data := data + [batch[i]];
        } else {
          var replacement := draws(index);
          if replacement < limit {
            data := data[replacement := batch[i]];
          }
        }
      }
      count, seen, stream := Min(seen + |batch|, limit), seen + |batch|, whole;
      return true;
    }
  }

  function Joined(batches: seq<seq<Vector>>): seq<Vector> {
    if batches == [] then [] else Joined(batches[..|batches| - 1]) + batches[|batches| - 1]
  }

  /** However a stream is cut into batches, the sample depends on the stream and the draws alone. */
  method TrainInBatches(limit: nat, draws: Draws, batches: seq<seq<Vector>>) returns (ok: bool, data: seq<Vector>, count: nat)
    ensures ok ==> Samples(data, Joined(batches), limit, draws, |Joined(batches)|) && count == |data| == Min(|Joined(batches)|, limit)
    ensures (forall k :: 0 <= k < |batches| ==> batches[k] != []) && |Joined(batches)| < U64_RANGE ==> ok
  {
    var trainer := new Trainer(limit, draws);
    data, count := [], 0;
    for k := 0 to |batches|
      invariant fresh(trainer) && trainer.Valid() && trainer.stream == Joined(batches[..k])
      invariant trainer.limit == limit && trainer.draws == draws
    {
      JoinedGrows(batches, k + 1);
      assert batches[..k + 1][..k] == batches[..k];
      ok := trainer.AddBatch(batches[k]);
      if !ok {
        return;
      }
    }
    assert batches[..|batches|] == batches;
    return true, trainer.data, trainer.count;
  }

  lemma {:induction false} JoinedGrows(batches: seq<seq<Vector>>, k: nat)
    requires k <= |batches|
    ensures |Joined(batches[..k])| <= |Joined(batches)|
  {
    if k == |batches| {
      assert batches[..k] == batches;
    } else {
      JoinedGrows(batches[..|batches| - 1], k);
      assert batches[..|batches| - 1][..k] == batches[..k];
    }
  }

  /** The one-shot sampler of a stream longer than the limit gives the same sample for the same draws. */
  method SampleOnce(stream: seq<Vector>, limit: nat, draws: Draws) returns (r: Option<seq<Vector>>)
    ensures r.None? <==> |stream| <= limit
    ensures r.Some? ==> Samples(r.value, stream, limit, draws, |stream|)
  {
    if |stream| <= limit {
      return None;
    }
    var sample := stream[..limit];
    OriginsStart(limit, draws, limit);
    for index := limit to |stream|
      invariant Samples(sample, stream, limit, draws, index)
    {
      var replacement := draws(index);
      if replacement < limit {
        sample := sample[replacement := stream[index]];
      }
    }
    return Some(sample);
  }

  /** There is one sample of a stream under given draws, so every batching and the one-shot sampler agree. */
  lemma SampleIsUnique(a: seq<Vector>, b: seq<Vector>, stream: seq<Vector>, limit: nat, draws: Draws)
    requires Samples(a, stream, limit, draws, |stream|) && Samples(b, stream, limit, draws, |stream|)
    ensures a == b
  {
  }
}
