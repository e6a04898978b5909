/** The FastScan loops over the block layout, and the row-major scan they must agree with. */
module FastScanKernels {
  import opened BlockLayout
  import opened FastScan
  import opened NatArith
  import opened Prelude
  import opened Slots

  const FLAT_NUM: nat := 200

  /** The code bytes of a row of the block layout; padding rows of the last block have one too. */
  function BlockRow(packed: seq<u8>, n: nat, cs: nat, row: nat): (r: seq<u8>)
    requires |packed| == PackedLength(n, cs) && row < DivCeil(n, BBS) * BBS
    ensures |r| == cs
  {
    seq(cs, pair requires 0 <= pair < cs => (PlaceFits(cs, row, pair, n); packed[Place(cs, row, pair)]))
  }

  lemma PackedRow(packed: seq<u8>, codes: seq<u8>, n: nat, cs: nat, row: nat)
    requires |codes| == n * cs && IsPacked(packed, codes, n, cs) && row < n
    ensures BlockRow(packed, n, cs, row) == Slot(codes, row, cs)
  {
    SlotFits(row, n, cs);
    forall pair | 0 <= pair < cs
      ensures BlockRow(packed, n, cs, row)[pair] == Slot(codes, row, cs)[pair]
    {
      PackedAtPlace(packed, codes, n, cs, row, pair);
    }
  }

  // ---------------------------------------------------------------------------------------
  // One block by vector instructions. A register of 32 bytes is a sequence of 32 bytes, one
  // of 16 words a sequence of 16 words.

  function ShiftedWord(low: u8, high: u8): u16 {
    (low + 256 * high) / 16
  }

  lemma ShiftedNibbles(low: u8, high: u8)
    ensures ShiftedWord(low, high) % 256 % 16 == low / 16 && ShiftedWord(low, high) / 256 == high / 16
  {
    var (a, c, d) := (low / 16, high / 16, high % 16);
    DivUnique(low + 256 * high, 16, 256 * c + (16 * d + a), low % 16);
    DivUnique(ShiftedWord(low, high), 256, c, 16 * d + a);
    DivUnique(16 * d + a, 16, d, a);
  }

  /** Shifts each 16-bit word right by four. */
  function ShiftWords(x: seq<u8>): (r: seq<u8>)
    requires |x| == 32
    ensures |r| == 32
  {
    seq(32, j requires 0 <= j < 32 =>
      if j % 2 == 0 then ShiftedWord(x[j], x[j + 1]) % 256 else ShiftedWord(x[j - 1], x[j]) / 256)
  }

  function MaskNibbles(x: seq<u8>): (r: seq<u8>)
    requires |x| == 32
    ensures |r| == 32 && forall j :: 0 <= j < 32 ==> r[j] < 16
  {
    seq(32, j requires 0 <= j < 32 => x[j] % 16)
  }

  /** The parallel table lookup: the same 16-byte table in both halves. */
  function Lookup(lut: seq<u8>, nibbles: seq<u8>): (r: seq<u8>)
    requires |lut| == 16 && |nibbles| == 32 && forall j :: 0 <= j < 32 ==> nibbles[j] < 16
    ensures |r| == 32
  {
    seq(32, j requires 0 <= j < 32 => lut[nibbles[j]])
  }

  /** Widening works per 128-bit half: the low form takes bytes 0..8 of each half, the high form 8..16. */
  function WidenLow(x: seq<u8>): (r: seq<u16>)
    requires |x| == 32
    ensures |r| == 16
  {
    seq(16, j requires 0 <= j < 16 => if j < 8 then x[j] else x[j + 8])
  }

  function WidenHigh(x: seq<u8>): (r: seq<u16>)
    requires |x| == 32
    ensures |r| == 16
  {
    seq(16, j requires 0 <= j < 16 => if j < 8 then x[j + 8] else x[j + 16])
  }

  /** Wrapping addition of words. */
  function AddWords(x: seq<u16>, y: seq<u16>): (r: seq<u16>)
    requires |x| == |y| == 16
    ensures |r| == 16
  {
    seq(16, j requires 0 <= j < 16 => (x[j] + y[j]) % U16_RANGE)
  }

  /** Selects the low halves, or the high halves, of two registers. */
  function PermuteLow(x: seq<u16>, y: seq<u16>): (r: seq<u16>)
    requires |x| == |y| == 16
    ensures |r| == 16
  {
    x[..8] + y[..8]
  }

  function PermuteHigh(x: seq<u16>, y: seq<u16>): (r: seq<u16>)
    requires |x| == |y| == 16
    ensures |r| == 16
  {
    x[8..] + y[8..]
  }

  lemma NibblesOf(x: seq<u8>, j: nat)
    requires |x| == 32 && j < 32
    ensures MaskNibbles(x)[j] == Low(x[j]) && MaskNibbles(ShiftWords(x))[j] == High(x[j])
  {
    if j % 2 == 0 {
      ShiftedNibbles(x[j], x[j + 1]);
    } else {
      ShiftedNibbles(x[j - 1], x[j]);
    }
  }

  /** The row of the block that word j of the low or high accumulator belongs to. */
  function LowLane(j: nat): (v: nat) {
    if j < 8 then j else j + 8
  }

  function HighLane(j: nat): (v: nat) {
    if j < 8 then j + 8 else j + 16
  }

  /** The running quantized sums of the block's rows. */
  predicate Accumulates(acc: seq<u16>, lane: nat -> nat, sums: seq<nat>) {
    |acc| == 16 && |sums| == 32 && forall j :: 0 <= j < 16 ==> lane(j) < 32 && acc[j] == sums[lane(j)]
  }

  function BlockSums(qtable: seq<u8>, packed: seq<u8>, n: nat, cs: nat, block: nat, pairs: nat): (r: seq<nat>)
    requires |packed| == PackedLength(n, cs) && |qtable| == 2 * ENTRIES * cs && block < DivCeil(n, BBS) && pairs <= cs
    ensures |r| == BBS
  {
    seq<nat>(BBS, v requires 0 <= v < BBS => SumTo(qtable, BlockRow(packed, n, cs, block * BBS + v), pairs))
  }

  /** The 32 bytes a vector load reads. */
  function Window(s: seq<u8>, start: nat): (r: seq<u8>)
    requires start + BBS <= |s|
    ensures |r| == BBS && forall v :: 0 <= v < BBS ==> r[v] == s[start + v]
  {
    s[start..start + BBS]
  }

  /** The 32 code bytes of one byte position of a block. */
  function Group(packed: seq<u8>, n: nat, cs: nat, block: nat, pair: nat): (r: seq<u8>)
    requires |packed| == PackedLength(n, cs) && block < DivCeil(n, BBS) && pair < cs
    ensures |r| == BBS
  {
    PlaceInBlock(cs, block, 31, pair);
    PlaceFits(cs, block * BBS + 31, pair, n);
    Window(packed, GroupStart(cs, block, pair))
  }

  lemma GroupByte(packed: seq<u8>, n: nat, cs: nat, block: nat, pair: nat, v: nat)
    requires |packed| == PackedLength(n, cs) && block < DivCeil(n, BBS) && pair < cs && v < BBS
    ensures Group(packed, n, cs, block, pair)[v] == BlockRow(packed, n, cs, block * BBS + v)[pair]
  {
    PlaceInBlock(cs, block, v, pair);
    PlaceFits(cs, block * BBS + v, pair, n);
    assert BlockRow(packed, n, cs, block * BBS + v)[pair] == packed[GroupStart(cs, block, pair) + v];
  }

  function LowTable(qtable: seq<u8>, cs: nat, pair: nat): (r: seq<u8>)
    requires |qtable| == 2 * ENTRIES * cs && pair < cs
    ensures |r| == ENTRIES
  {
    qtable[pair * 2 * ENTRIES..(pair * 2 + 1) * ENTRIES]
  }

  function HighTable(qtable: seq<u8>, cs: nat, pair: nat): (r: seq<u8>)
    requires |qtable| == 2 * ENTRIES * cs && pair < cs
    ensures |r| == ENTRIES
  {
    qtable[(pair * 2 + 1) * ENTRIES..(pair * 2 + 2) * ENTRIES]
  }

  /** One more byte position adds the two table entries of the row's byte. */
  lemma SumsStep(qtable: seq<u8>, packed: seq<u8>, n: nat, cs: nat, block: nat, pair: nat, v: nat)
    requires |packed| == PackedLength(n, cs) && |qtable| == 2 * ENTRIES * cs && block < DivCeil(n, BBS) && pair < cs && v < BBS
    ensures BlockSums(qtable, packed, n, cs, block, pair + 1)[v] ==
            BlockSums(qtable, packed, n, cs, block, pair)[v]
            + LowTable(qtable, cs, pair)[Low(Group(packed, n, cs, block, pair)[v])]
            + HighTable(qtable, cs, pair)[High(Group(packed, n, cs, block, pair)[v])]
    ensures BlockSums(qtable, packed, n, cs, block, pair + 1)[v] <= 510 * (pair + 1)
  {
    GroupByte(packed, n, cs, block, pair, v);
  }

  /** The two words a row's byte adds, in the lanes of one accumulator. */
  lemma WidenedLookup(lut: seq<u8>, codes: seq<u8>, j: nat)
    requires |lut| == 16 && |codes| == 32 && j < 16
    ensures WidenLow(Lookup(lut, MaskNibbles(codes)))[j] == lut[Low(codes[LowLane(j)])]
    ensures WidenHigh(Lookup(lut, MaskNibbles(codes)))[j] == lut[Low(codes[HighLane(j)])]
    ensures WidenLow(Lookup(lut, MaskNibbles(ShiftWords(codes))))[j] == lut[High(codes[LowLane(j)])]
    ensures WidenHigh(Lookup(lut, MaskNibbles(ShiftWords(codes))))[j] == lut[High(codes[HighLane(j)])]
  {
    NibblesOf(codes, LowLane(j));
    NibblesOf(codes, HighLane(j));
  }

  lemma NoWrap(acc: u16, x: u16, y: u16)
    requires acc + x + y < U16_RANGE
    ensures (acc + (x + y) % U16_RANGE) % U16_RANGE == acc + x + y
  {
  }

  /** One byte position moves both accumulators one step of the rows' sums. */
  lemma AccumulateStep(qtable: seq<u8>, packed: seq<u8>, n: nat, cs: nat, block: nat, pair: nat, acc: seq<u16>,
                       lane: nat -> nat, low: seq<u16>, high: seq<u16>)
    requires |packed| == PackedLength(n, cs) && |qtable| == 2 * ENTRIES * cs && block < DivCeil(n, BBS) && pair < cs
    requires 2 * cs <= MAX_U16_SUBQUANTIZERS
    requires Accumulates(acc, lane, BlockSums(qtable, packed, n, cs, block, pair)) && |low| == |high| == 16
    requires var codes := Group(packed, n, cs, block, pair);
             forall j :: 0 <= j < 16 ==>
               low[j] == LowTable(qtable, cs, pair)[Low(codes[lane(j)])] && high[j] == HighTable(qtable, cs, pair)[High(codes[lane(j)])]
    ensures Accumulates(AddWords(acc, AddWords(low, high)), lane, BlockSums(qtable, packed, n, cs, block, pair + 1))
  {
    var next := AddWords(acc, AddWords(low, high));
    forall j | 0 <= j < 16
      ensures next[j] == BlockSums(qtable, packed, n, cs, block, pair + 1)[lane(j)]
    {
      SumsStep(qtable, packed, n, cs, block, pair, lane(j));
      NoWrap(acc[j], low[j], high[j]);
    }
  }

  /** The u16 accumulators never wrap while m is at most 257. */
  method Avx2Block(qtable: seq<u8>, packed: seq<u8>, n: nat, cs: nat, block: nat) returns (q: seq<u16>)
    requires |packed| == PackedLength(n, cs) && |qtable| == 2 * ENTRIES * cs && block < DivCeil(n, BBS)
    requires 2 * cs <= MAX_U16_SUBQUANTIZERS
    ensures q == BlockSums(qtable, packed, n, cs, block, cs)
  {
    var low: seq<u16>, high: seq<u16> := seq(16, _ => 0), seq(16, _ => 0);
    for pair := 0 to cs
      invariant Accumulates(low, LowLane, BlockSums(qtable, packed, n, cs, block, pair))
      invariant Accumulates(high, HighLane, BlockSums(qtable, packed, n, cs, block, pair))
    {
      var lutLow, lutHigh := LowTable(qtable, cs, pair), HighTable(qtable, cs, pair);
      var codes := Group(packed, n, cs, block, pair);
      var distLow := Lookup(lutLow, MaskNibbles(codes));
      var distHigh := Lookup(lutHigh, MaskNibbles(ShiftWords(codes)));
      forall j | 0 <= j < 16
        ensures WidenLow(distLow)[j] == lutLow[Low(codes[LowLane(j)])] && WidenLow(distHigh)[j] == lutHigh[High(codes[LowLane(j)])]
        ensures WidenHigh(distLow)[j] == lutLow[Low(codes[HighLane(j)])] && WidenHigh(distHigh)[j] == lutHigh[High(codes[HighLane(j)])]
      {
        WidenedLookup(lutLow, codes, j);
        WidenedLookup(lutHigh, codes, j);
      }
      AccumulateStep(qtable, packed, n, cs, block, pair, low, LowLane, WidenLow(distLow), WidenLow(distHigh));
      AccumulateStep(qtable, packed, n, cs, block, pair, high, HighLane, WidenHigh(distLow), WidenHigh(distHigh));
      low := AddWords(low, AddWords(WidenLow(distLow), WidenLow(distHigh)));
      high := AddWords(high, AddWords(WidenHigh(distLow), WidenHigh(distHigh)));
    }
    q := PermuteLow(low, high) + PermuteHigh(low, high);
  }
}
