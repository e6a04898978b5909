/** Whole FastScan and row-major scans, what each row gets, and where the two agree. */
module FastScanLoops {
  import opened BlockLayout
  import opened FastScan
  import opened FastScanKernels
  import opened NatArith
  import opened Prelude
  import opened Slots

  datatype Instructions = Scalar | Avx2

  /** How many leading rows are summed exactly: all of them when a u16 sum could overflow. */
  function FlatEnd(n: nat, m: nat): (r: nat)
    ensures r <= n
  {
    if m > MAX_U16_SUBQUANTIZERS then n else Min(n, FLAT_NUM)
  }

  predicate Fits(table: seq<real>, packed: seq<u8>, n: nat, cs: nat) {
    cs > 0 && |table| == 2 * ENTRIES * cs && |packed| == PackedLength(n, cs)
  }

  // ---------------------------------------------------------------------------------------
  // The block layout.

  method ExactRow(table: seq<real>, packed: seq<u8>, n: nat, cs: nat, i: nat) returns (d: real)
    requires Fits(table, packed, n, cs) && i < n
    ensures d == Exact(table, BlockRow(packed, n, cs, i))
  {
    d := 0.0;
    for pair := 0 to cs
      invariant d == ExactTo(table, BlockRow(packed, n, cs, i), pair)
    {
      PlaceFits(cs, i, pair, n);
      var byte := packed[Place(cs, i, pair)];
      d := d + table[pair * 2 * ENTRIES + Low(byte)];
      d := d + table[(pair * 2 + 1) * ENTRIES + High(byte)];
    }
  }

  method ExactRows(table: seq<real>, packed: seq<u8>, n: nat, cs: nat, from: nat, to: nat, dists: array<real>)
    requires Fits(table, packed, n, cs) && to <= n <= dists.Length
    modifies dists
    ensures forall i :: from <= i < to ==> dists[i] == Exact(table, BlockRow(packed, n, cs, i))
    ensures forall i :: 0 <= i < dists.Length && !(from <= i < to) ==> dists[i] == old(dists[i])
  {
    var i := from;
    while i < to
      invariant forall k :: from <= k < Min(i, to) ==> dists[k] == Exact(table, BlockRow(packed, n, cs, k))
      invariant forall k :: 0 <= k < dists.Length && !(from <= k < Min(i, to)) ==> dists[k] == old(dists[k])
    {
      dists[i] := ExactRow(table, packed, n, cs, i);
      i := i + 1;
    }
  }

  lemma SumsStart(qtable: seq<u8>, packed: seq<u8>, n: nat, cs: nat, block: nat)
    requires |packed| == PackedLength(n, cs) && |qtable| == 2 * ENTRIES * cs && block < DivCeil(n, BBS)
    ensures forall v :: 0 <= v < BBS ==> BlockSums(qtable, packed, n, cs, block, 0)[v] == 0
  {
    forall v | 0 <= v < BBS
      ensures BlockSums(qtable, packed, n, cs, block, 0)[v] == 0
    {
      assert SumTo(qtable, BlockRow(packed, n, cs, block * BBS + v), 0) == 0;
    }
  }

  lemma SumsEstimate(q: Quantized, packed: seq<u8>, n: nat, cs: nat, block: nat, v: nat)
    requires |q.table| == 2 * ENTRIES * cs && |packed| == PackedLength(n, cs) && block < DivCeil(n, BBS) && v < BBS
    ensures Estimate(q, BlockRow(packed, n, cs, block * BBS + v)) ==
            ScaledBack(BlockSums(q.table, packed, n, cs, block, cs)[v] as real, (2 * cs) as real, q.Unit(), q.qmin)
  {
  }

  method ScalarBlock(qtable: seq<u8>, packed: seq<u8>, n: nat, cs: nat, block: nat, vecs: nat) returns (q: seq<u16>)
    requires |packed| == PackedLength(n, cs) && |qtable| == 2 * ENTRIES * cs && block < DivCeil(n, BBS) && vecs <= BBS
    requires 2 * cs <= MAX_U16_SUBQUANTIZERS
    ensures |q| == BBS && forall v :: 0 <= v < vecs ==> q[v] == BlockSums(qtable, packed, n, cs, block, cs)[v]
  {
    var sums := new u16[BBS](_ => 0);
    SumsStart(qtable, packed, n, cs, block);
    for pair := 0 to cs
      invariant forall v :: 0 <= v < vecs ==> sums[v] == BlockSums(qtable, packed, n, cs, block, pair)[v]
    {
      var low, high, codes := LowTable(qtable, cs, pair), HighTable(qtable, cs, pair), Group(packed, n, cs, block, pair);
      for v := 0 to vecs
        invariant forall u :: 0 <= u < v ==> sums[u] == BlockSums(qtable, packed, n, cs, block, pair + 1)[u]
        invariant forall u :: v <= u < vecs ==> sums[u] == BlockSums(qtable, packed, n, cs, block, pair)[u]
      {
        SumsStep(qtable, packed, n, cs, block, pair, v);
        var a: u16, b: u16 := low[Low(codes[v])], high[High(codes[v])];
        sums[v] := sums[v] + (a + b);
      }
    }
    q := sums[..];
  }

  method QuantizedBlock(q: Quantized, packed: seq<u8>, n: nat, cs: nat, block: nat, with: Instructions, dists: array<real>)
    requires cs > 0 && |q.table| == 2 * ENTRIES * cs && |packed| == PackedLength(n, cs) && block < DivCeil(n, BBS) && n <= dists.Length
    requires 2 * cs <= MAX_U16_SUBQUANTIZERS
    modifies dists
    ensures forall i :: block * BBS <= i < Min((block + 1) * BBS, n) ==> dists[i] == Estimate(q, BlockRow(packed, n, cs, i))
    ensures forall i :: 0 <= i < n && !(block * BBS <= i < (block + 1) * BBS) ==> dists[i] == old(dists[i])
  {
    var base := block * BBS;
    var vecs := Min(BBS, n - base);
    var sums: seq<u16>;
    var end := vecs;
    if with.Scalar? {
      sums := ScalarBlock(q.table, packed, n, cs, block, vecs);
    } else {
      sums := Avx2Block(q.table, packed, n, cs, block);
      end := Min(BBS, dists.Length - base);
    }
    for v := 0 to end
      invariant forall i :: base <= i < Min(base + v, n) ==> dists[i] == Estimate(q, BlockRow(packed, n, cs, i))
      invariant forall i :: 0 <= i < n && !(base <= i < base + v) ==> dists[i] == old(dists[i])
    {
      SumsEstimate(q, packed, n, cs, block, v);
      dists[base + v] := ScaledBack(sums[v] as real, (2 * cs) as real, q.Unit(), q.qmin);
    }
  }

  /** Which rows of the block scan are exact: the flat prefix and the rest of its last block. */
  predicate IsExactRow(n: nat, cs: nat, i: nat) {
    i < DivCeil(FlatEnd(n, 2 * cs), BBS) * BBS
  }

  /** What the block scan gives row i whose code bytes are `row`. */
  function FastValue(table: seq<real>, n: nat, i: nat, row: seq<u8>): real
    requires row != [] && |table| == 2 * ENTRIES * |row|
  {
    if IsExactRow(n, |row|, i) then Exact(table, row) else Estimate(Quantize(table, Some(Highest(table))), row)
  }

  /** Every one of the n rows is written, whichever instructions scan the blocks. */
  method FastScan4Bit(table: seq<real>, packed: seq<u8>, n: nat, cs: nat, with: Instructions, dists: array<real>)
    requires Fits(table, packed, n, cs) && n <= dists.Length
    modifies dists
    ensures forall i :: 0 <= i < n ==> dists[i] == FastValue(table, n, i, BlockRow(packed, n, cs, i))
  {
    var flatEnd := FlatEnd(n, 2 * cs);
    ExactRows(table, packed, n, cs, 0, flatEnd, dists);
    if flatEnd == n {
      return;
    }
    var q := Quantize(table, Some(Highest(table)));
    var (start, blocks) := (DivCeil(flatEnd, BBS), DivCeil(n, BBS));
    var block := start;
    while block < blocks
      invariant start <= block
      invariant forall i :: 0 <= i < flatEnd ==> dists[i] == Exact(table, BlockRow(packed, n, cs, i))
      invariant forall i :: start * BBS <= i < Min(block * BBS, n) ==> dists[i] == Estimate(q, BlockRow(packed, n, cs, i))
    {
      QuantizedBlock(q, packed, n, cs, block, with, dists);
      block := block + 1;
    }
    ExactRows(table, packed, n, cs, flatEnd, Min(start * BBS, n), dists);
  }

  // ---------------------------------------------------------------------------------------
  // The row-major scan.

  function RowAt(codes: seq<u8>, n: nat, cs: nat, i: nat): (row: seq<u8>)
    requires |codes| == n * cs && i < n
    ensures |row| == cs
  {
    SlotFits(i, n, cs);
    Slot(codes, i, cs)
  }

  lemma ByteAt(codes: seq<u8>, n: nat, cs: nat, i: nat, pair: nat)
    requires |codes| == n * cs && i < n && pair < cs
    ensures Cell(cs, i, pair) < |codes| && RowAt(codes, n, cs, i)[pair] == codes[Cell(cs, i, pair)]
  {
    CellFits(cs, i, pair, n);
    SlotFits(i, n, cs);
  }

  /** What the row-major scan gives row i whose code bytes are `row`. */
  function RowMajorValue(table: seq<real>, n: nat, i: nat, row: seq<u8>): real
    requires row != [] && |table| == 2 * ENTRIES * |row|
  {
    if i < FlatEnd(n, 2 * |row|) then Exact(table, row) else Estimate(Quantize(table, None), row)
  }

  method ExactRowMajor(table: seq<real>, codes: seq<u8>, n: nat, cs: nat, i: nat, ghost row: seq<u8>) returns (d: real)
    requires cs > 0 && |table| == 2 * ENTRIES * cs && |codes| == n * cs && i < n && row == RowAt(codes, n, cs, i)
    ensures d == Exact(table, row)
  {
    d := 0.0;
    for pair := 0 to cs
      invariant d == ExactTo(table, row, pair)
    {
      ByteAt(codes, n, cs, i, pair);
      var byte := codes[Cell(cs, i, pair)];
      d := d + table[pair * 2 * ENTRIES + Low(byte)];
      d := d + table[(pair * 2 + 1) * ENTRIES + High(byte)];
    }
  }

  lemma PairAdds(qtable: seq<u8>, row: seq<u8>, pair: nat)
    requires |qtable| == 2 * ENTRIES * |row| && pair < |row|
    ensures SumTo(qtable, row, 0) == 0
    ensures SumTo(qtable, row, pair + 1) ==
            SumTo(qtable, row, pair) + LowTable(qtable, |row|, pair)[Low(row[pair])] + HighTable(qtable, |row|, pair)[High(row[pair])]
  {
  }

  /** Adds one row's entries for a byte position. */
  method AddByte(qtable: seq<u8>, codes: seq<u8>, n: nat, cs: nat, i: nat, pair: nat, sum: u16, ghost row: seq<u8>) returns (r: u16)
    requires |qtable| == 2 * ENTRIES * cs && |codes| == n * cs && pair < cs && 2 * cs <= MAX_U16_SUBQUANTIZERS && i < n
    requires row == RowAt(codes, n, cs, i) && sum == SumTo(qtable, row, pair)
    ensures r == SumTo(qtable, row, pair + 1)
  {
    ByteAt(codes, n, cs, i, pair);
    PairAdds(qtable, row, pair);
    var byte := codes[Cell(cs, i, pair)];
    var a: u16, b: u16 := LowTable(qtable, cs, pair)[Low(byte)], HighTable(qtable, cs, pair)[High(byte)];
    r := sum + (a + b);
  }

  /** The quantized sums of the rows not summed exactly. */
  ghost predicate Sums(qtable: seq<u8>, codes: seq<u8>, n: nat, cs: nat, from: nat, to: nat, pairs: nat, sums: seq<u16>)
    requires |qtable| == 2 * ENTRIES * cs && |codes| == n * cs && pairs <= cs && to <= n
  {
    |sums| == n && forall i :: from <= i < to ==> sums[i] == SumTo(qtable, RowAt(codes, n, cs, i), pairs)
  }

  method AddPosition(qtable: seq<u8>, codes: seq<u8>, n: nat, cs: nat, from: nat, pair: nat, sums: seq<u16>) returns (r: seq<u16>)
    requires |qtable| == 2 * ENTRIES * cs && |codes| == n * cs && pair < cs && 2 * cs <= MAX_U16_SUBQUANTIZERS && from <= n
    requires Sums(qtable, codes, n, cs, from, n, pair, sums)
    ensures Sums(qtable, codes, n, cs, from, n, pair + 1, r)
  {
    r := sums;
    for i := from to n
      invariant Sums(qtable, codes, n, cs, from, i, pair + 1, r)
      invariant Sums(qtable, codes, n, cs, i, n, pair, r)
    {
      var sum := AddByte(qtable, codes, n, cs, i, pair, r[i], RowAt(codes, n, cs, i));
      r := r[i := sum];
    }
  }

  lemma SumsBegin(qtable: seq<u8>, codes: seq<u8>, n: nat, cs: nat, from: nat, sums: seq<u16>)
    requires cs > 0 && |qtable| == 2 * ENTRIES * cs && |codes| == n * cs && |sums| == n && forall i :: 0 <= i < n ==> sums[i] == 0
    ensures Sums(qtable, codes, n, cs, from, n, 0, sums)
  {
    forall i | from <= i < n
      ensures sums[i] == SumTo(qtable, RowAt(codes, n, cs, i), 0)
    {
      PairAdds(qtable, RowAt(codes, n, cs, i), 0);
    }
  }

  method QuantizedSums(qtable: seq<u8>, codes: seq<u8>, n: nat, cs: nat, from: nat) returns (sums: seq<u16>)
    requires cs > 0 && |qtable| == 2 * ENTRIES * cs && |codes| == n * cs && 2 * cs <= MAX_U16_SUBQUANTIZERS && from <= n
    ensures Sums(qtable, codes, n, cs, from, n, cs, sums)
  {
    sums := seq(n, _ => 0);
    SumsBegin(qtable, codes, n, cs, from, sums);
    for pair := 0 to cs
      invariant Sums(qtable, codes, n, cs, from, n, pair, sums)
    {
      sums := AddPosition(qtable, codes, n, cs, from, pair, sums);
    }
  }

  lemma EstimateOfSum(q: Quantized, row: seq<u8>, cs: nat, sum: nat)
    requires |row| == cs && |q.table| == 2 * ENTRIES * cs && sum == SumTo(q.table, row, cs)
    ensures Estimate(q, row) == ScaledBack(sum as real, (2 * cs) as real, q.Unit(), q.qmin)
  {
  }

  method RowMajorScan(table: seq<real>, codes: seq<u8>, n: nat, cs: nat, dists: array<real>)
    requires cs > 0 && |table| == 2 * ENTRIES * cs && |codes| == n * cs && n <= dists.Length
    modifies dists
    ensures forall i :: 0 <= i < n ==> dists[i] == RowMajorValue(table, n, i, RowAt(codes, n, cs, i))
  {
    var flatEnd := FlatEnd(n, 2 * cs);
    for i := 0 to flatEnd
      invariant forall k :: 0 <= k < i ==> dists[k] == RowMajorValue(table, n, k, RowAt(codes, n, cs, k))
    {
      dists[i] := ExactRowMajor(table, codes, n, cs, i, RowAt(codes, n, cs, i));
    }
    if flatEnd == n {
      return;
    }
    var q := Quantize(table, None);
    var sums := QuantizedSums(q.table, codes, n, cs, flatEnd);
    for i := flatEnd to n
      invariant forall k :: 0 <= k < i ==> dists[k] == RowMajorValue(table, n, k, RowAt(codes, n, cs, k))
    {
      EstimateOfSum(q, RowAt(codes, n, cs, i), cs, sums[i]);
      dists[i] := ScaledBack(sums[i] as real, (2 * cs) as real, q.Unit(), q.qmin);
    }
  }

  // ---------------------------------------------------------------------------------------
  // Agreement.

  /** The two scans read the same code bytes for a row. */
  lemma SameRow(packed: seq<u8>, codes: seq<u8>, n: nat, cs: nat, i: nat)
    requires |codes| == n * cs && IsPacked(packed, codes, n, cs) && i < n
    ensures BlockRow(packed, n, cs, i) == RowAt(codes, n, cs, i)
  {
    PackedRow(packed, codes, n, cs, i);
  }

  lemma SameQuantization(table: seq<real>)
    requires table != []
    ensures Quantize(table, Some(Highest(table))) == Quantize(table, None)
  {
  }

  /** Either scan of a row is at most its exact distance and short of it by less than m units. */
  lemma BothWithinBound(table: seq<real>, n: nat, i: nat, row: seq<u8>)
    requires row != [] && |table| == 2 * ENTRIES * |row|
    ensures Underestimates(FastValue(table, n, i, row), Exact(table, row), Slack(Quantize(table, None), 2 * |row|))
    ensures Underestimates(RowMajorValue(table, n, i, row), Exact(table, row), Slack(Quantize(table, None), 2 * |row|))
  {
    EstimateBound(table, Quantize(table, None), row);
    SameQuantization(table);
  }

  /** The rest of the flat prefix's last block, which only the block scan sums exactly. */
  predicate InGap(cs: nat, i: nat) {
    2 * cs <= MAX_U16_SUBQUANTIZERS && 200 <= i < 224
  }

  /** On packed and row-major forms of the same codes, the two scans give a row the same value outside the gap. */
  lemma ScansAgree(table: seq<real>, packed: seq<u8>, codes: seq<u8>, n: nat, cs: nat, i: nat)
    requires cs > 0 && |table| == 2 * ENTRIES * cs && |codes| == n * cs && IsPacked(packed, codes, n, cs) && i < n
    ensures var (fast, row) := (FastValue(table, n, i, BlockRow(packed, n, cs, i)), RowAt(codes, n, cs, i));
            fast == if InGap(cs, i) then Exact(table, row) else RowMajorValue(table, n, i, row)
  {
    SameRow(packed, codes, n, cs, i);
    SameQuantization(table);
  }

  /** A scan's output: every row is at most its exact distance and short of it by less than m units. */
  ghost predicate ScanBound(table: seq<real>, codes: seq<u8>, n: nat, cs: nat, dists: seq<real>)
    requires cs > 0 && |table| == 2 * ENTRIES * cs && |codes| == n * cs
  {
    && |dists| == n
    && forall i :: 0 <= i < n ==>
         Underestimates(dists[i], Exact(table, RowAt(codes, n, cs, i)), Slack(Quantize(table, None), 2 * cs))
  }

  /**
   * The two scans side by side, on the packed and on the row-major form of the same codes. Both
   * outputs stay within the bound and are equal outside the gap, where the block scan is exact.
   */
  method BothScans(table: seq<real>, codes: seq<u8>, n: nat, cs: nat, with: Instructions) returns (fast: seq<real>, rowMajor: seq<real>)
    requires cs > 0 && |table| == 2 * ENTRIES * cs && |codes| == n * cs
    ensures ScanBound(table, codes, n, cs, fast) && ScanBound(table, codes, n, cs, rowMajor)
    ensures forall i :: 0 <= i < n ==> fast[i] == if InGap(cs, i) then Exact(table, RowAt(codes, n, cs, i)) else rowMajor[i]
  {
    var packed := Pack(codes, n, cs);
    var blocks, rows := new real[n], new real[n];
    FastScan4Bit(table, packed, n, cs, with, blocks);
    RowMajorScan(table, codes, n, cs, rows);
    fast, rowMajor := blocks[..], rows[..];
    forall i | 0 <= i < n
      ensures Underestimates(fast[i], Exact(table, RowAt(codes, n, cs, i)), Slack(Quantize(table, None), 2 * cs))
      ensures Underestimates(rowMajor[i], Exact(table, RowAt(codes, n, cs, i)), Slack(Quantize(table, None), 2 * cs))
      ensures fast[i] == if InGap(cs, i) then Exact(table, RowAt(codes, n, cs, i)) else rowMajor[i]
    {
      SameRow(packed, codes, n, cs, i);
      BothWithinBound(table, n, i, RowAt(codes, n, cs, i));
      ScansAgree(table, packed, codes, n, cs, i);
    }
  }

  // ---------------------------------------------------------------------------------------
  // In plain terms.

  /** With at most 257 subquantizers both scans quantize every row from 224 on, and sum the first 200 exactly. */
  lemma QuantizedRows(table: seq<real>, n: nat, i: nat, row: seq<u8>)
    requires row != [] && |table| == 2 * ENTRIES * |row| && i < n
    ensures 2 * |row| > 257 || i < 200 ==> FastValue(table, n, i, row) == RowMajorValue(table, n, i, row) == Exact(table, row)
    ensures 2 * |row| <= 257 && i >= 224 ==>
              FastValue(table, n, i, row) == RowMajorValue(table, n, i, row) == Estimate(Quantize(table, None), row)
    ensures 2 * |row| <= 257 && 200 <= i < 224 ==>
              FastValue(table, n, i, row) == Exact(table, row) && RowMajorValue(table, n, i, row) == Estimate(Quantize(table, None), row)
  {
    SameQuantization(table);
  }
}
