/** The FastScan block layout: 32 rows per block, one 32-byte group per code byte position. */
module BlockLayout {
  import opened NatArith
  import opened Prelude
  import opened Slots

  const BBS: nat := 32

  function BlockSize(cs: nat): nat {
    cs * BBS
  }

  function PackedLength(n: nat, cs: nat): nat {
    var length: nat := DivCeil(n, BBS) * BlockSize(cs);
    length
  }

  /** Where byte `pair` of a row lives in the block layout, and where in the row-major one. */
  function Place(cs: nat, row: nat, pair: nat): nat {
    var start: nat := row / BBS * BlockSize(cs);
    start + pair * BBS + row % BBS
  }

  function Cell(cs: nat, row: nat, pair: nat): nat {
    var start: nat := row * cs;
    start + pair
  }

  lemma CellFits(cs: nat, row: nat, pair: nat, n: nat)
    requires row < n && pair < cs
    ensures Cell(cs, row, pair) < n * cs
    ensures Cell(cs, row, pair) / cs == row && Cell(cs, row, pair) % cs == pair
  {
    SlotFits(row, n, cs);
    DivUnique(row * cs + pair, cs, row, pair);
  }

  /** A place decodes into block, byte position and row of the block. */
  lemma PlaceFits(cs: nat, row: nat, pair: nat, n: nat)
    requires pair < cs && row < DivCeil(n, BBS) * BBS
    ensures Place(cs, row, pair) < PackedLength(n, cs)
    ensures Place(cs, row, pair) % BBS == row % BBS
    ensures Place(cs, row, pair) / BBS / cs == row / BBS && Place(cs, row, pair) / BBS % cs == pair
  {
    var (block, v) := (row / BBS, row % BBS);
    assert block * BlockSize(cs) == block * cs * BBS;
    DivUnique(Place(cs, row, pair), BBS, block * cs + pair, v);
    DivUnique(block * cs + pair, cs, block, pair);
    SlotFits(block, DivCeil(n, BBS), BlockSize(cs));
  }

  function GroupStart(cs: nat, block: nat, pair: nat): nat {
    var start: nat := block * BlockSize(cs);
    start + pair * BBS
  }

  lemma PlaceInBlock(cs: nat, block: nat, v: nat, pair: nat)
    requires v < BBS
    ensures Place(cs, block * BBS + v, pair) == GroupStart(cs, block, pair) + v
  {
    DivUnique(block * BBS + v, BBS, block, v);
  }

  /** The byte at position k of the block layout; rows past the last are zero. */
  function PackedByte(codes: seq<u8>, n: nat, cs: nat, k: nat): u8
    requires |codes| == n * cs
  {
    if cs == 0 then 0 else
    var pair := k / BBS % cs;
    var block: nat := (DivNonNegative(k / BBS, cs); k / BBS / cs);
    var row := block * BBS + k % BBS;
    if row < n then (CellFits(cs, row, pair, n); codes[Cell(cs, row, pair)]) else 0
  }

  predicate IsPacked(packed: seq<u8>, codes: seq<u8>, n: nat, cs: nat)
    requires |codes| == n * cs
  {
    |packed| == PackedLength(n, cs) && forall k :: 0 <= k < |packed| ==> packed[k] == PackedByte(codes, n, cs, k)
  }

  /** Every byte of every row is at its place. */
  lemma PackedAtPlace(packed: seq<u8>, codes: seq<u8>, n: nat, cs: nat, row: nat, pair: nat)
    requires |codes| == n * cs && IsPacked(packed, codes, n, cs) && row < n && pair < cs
    ensures Place(cs, row, pair) < |packed| && Cell(cs, row, pair) < |codes|
    ensures packed[Place(cs, row, pair)] == codes[Cell(cs, row, pair)]
  {
    PlaceFits(cs, row, pair, n);
    CellFits(cs, row, pair, n);
  }

  method Pack(codes: seq<u8>, n: nat, cs: nat) returns (r: seq<u8>)
    requires |codes| == n * cs
    ensures IsPacked(r, codes, n, cs)
  {
    var blocks, size := DivCeil(n, BBS), BlockSize(cs);
    var packed := new u8[PackedLength(n, cs)](_ => 0);
    for block := 0 to blocks
      invariant forall k :: 0 <= k < packed.Length ==> packed[k] == if k < block * size then PackedByte(codes, n, cs, k) else 0
    {
      for pair := 0 to cs
        invariant forall k :: 0 <= k < packed.Length ==>
                    packed[k] == if k < block * size + pair * BBS then PackedByte(codes, n, cs, k) else 0
      {
        for v := 0 to BBS
          invariant forall k :: 0 <= k < packed.Length ==>
                      packed[k] == if k < block * size + pair * BBS + v then PackedByte(codes, n, cs, k) else 0
        {
          var row := block * BBS + v;
          PlaceFits(cs, row, pair, n);
          assert row / BBS == block && row % BBS == v;
          if row < n {
            CellFits(cs, row, pair, n);
            packed[block * size + pair * BBS + v] := codes[Cell(cs, row, pair)];
          }
        }
      }
      assert block * size + cs * BBS == (block + 1) * size;
    }
    r := packed[..];
  }

  // ---------------------------------------------------------------------------------------
  // Unpacking visits the same triples and writes row-major.

  function RowOf(cs: nat, c: nat): (row: nat)
    requires cs > 0
    ensures Cell(cs, row, c % cs) == c
  {
    DivNonNegative(c, cs);
    c / cs
  }

  lemma RowOfCell(cs: nat, c: nat, n: nat)
    requires cs > 0 && c < n * cs
    ensures RowOf(cs, c) < n && RowOf(cs, c) < DivCeil(n, BBS) * BBS
  {
    DivBound(c, n, cs);
  }

  function UnpackedByte(packed: seq<u8>, n: nat, cs: nat, c: nat): u8
    requires |packed| == PackedLength(n, cs) && cs > 0 && c < n * cs
  {
    RowOfCell(cs, c, n);
    PlaceFits(cs, RowOf(cs, c), c % cs, n);
    packed[Place(cs, RowOf(cs, c), c % cs)]
  }

  predicate Unpacked(codes: seq<u8>, packed: seq<u8>, n: nat, cs: nat)
    requires |packed| == PackedLength(n, cs)
  {
    |codes| == n * cs && forall c :: 0 <= c < |codes| ==> codes[c] == UnpackedByte(packed, n, cs, c)
  }

  /** Cell c comes before block `block`, byte position p, row v of the block, in the order of the loops. */
  predicate Passed(cs: nat, c: nat, block: nat, p: nat, v: nat) {
    cs > 0 &&
    var (row, pair) := (RowOf(cs, c), c % cs);
    row / BBS < block || (row / BBS == block && (pair < p || (pair == p && row % BBS < v)))
  }

  lemma PassedStep(cs: nat, n: nat, c: nat, block: nat, p: nat, v: nat)
    requires c < n * cs && p < cs && v < BBS
    ensures Passed(cs, c, block, p, v + 1) ==> Passed(cs, c, block, p, v) || c == Cell(cs, block * BBS + v, p)
    ensures Passed(cs, c, block, p, BBS) <==> Passed(cs, c, block, p + 1, 0)
    ensures Passed(cs, c, block, cs, 0) <==> Passed(cs, c, block + 1, 0, 0)
  {
  }

  lemma PassedAll(cs: nat, n: nat, c: nat)
    requires cs > 0 && c < n * cs
    ensures Passed(cs, c, DivCeil(n, BBS), 0, 0)
  {
    RowOfCell(cs, c, n);
  }

  method UnpackGroup(codes: array<u8>, packed: seq<u8>, n: nat, cs: nat, block: nat, pair: nat)
    requires |packed| == PackedLength(n, cs) && codes.Length == n * cs && block < DivCeil(n, BBS) && pair < cs
    requires forall c :: 0 <= c < codes.Length && Passed(cs, c, block, pair, 0) ==> codes[c] == UnpackedByte(packed, n, cs, c)
    modifies codes
    ensures forall c :: 0 <= c < codes.Length && Passed(cs, c, block, pair, BBS) ==> codes[c] == UnpackedByte(packed, n, cs, c)
  {
    for v := 0 to BBS
      invariant forall c :: 0 <= c < codes.Length && Passed(cs, c, block, pair, v) ==> codes[c] == UnpackedByte(packed, n, cs, c)
    {
      var row := block * BBS + v;
      PlaceFits(cs, row, pair, n);
      assert row / BBS == block && row % BBS == v;
      forall c | 0 <= c < codes.Length
        ensures Passed(cs, c, block, pair, v + 1) ==> Passed(cs, c, block, pair, v) || c == Cell(cs, row, pair)
      {
        PassedStep(cs, n, c, block, pair, v);
      }
      if row < n {
        CellFits(cs, row, pair, n);
        codes[Cell(cs, row, pair)] := packed[block * BlockSize(cs) + pair * BBS + v];
      } else {
        NoCellOfRow(cs, n, row, pair);
      }
    }
  }

  lemma NoCellOfRow(cs: nat, n: nat, row: nat, pair: nat)
    requires row >= n && pair < cs
    ensures Cell(cs, row, pair) >= n * cs
  {
    MulMono(n, row, cs);
  }

  method Unpack(packed: seq<u8>, n: nat, cs: nat) returns (r: seq<u8>)
    requires |packed| == PackedLength(n, cs)
    ensures Unpacked(r, packed, n, cs)
  {
    var length: nat := n * cs;
    var codes := new u8[length](_ => 0);
    for block := 0 to DivCeil(n, BBS)
      invariant forall c :: 0 <= c < length && Passed(cs, c, block, 0, 0) ==> codes[c] == UnpackedByte(packed, n, cs, c)
    {
      for pair := 0 to cs
        invariant forall c :: 0 <= c < length && Passed(cs, c, block, pair, 0) ==> codes[c] == UnpackedByte(packed, n, cs, c)
      {
        UnpackGroup(codes, packed, n, cs, block, pair);
        forall c | 0 <= c < length
          ensures Passed(cs, c, block, pair + 1, 0) ==> Passed(cs, c, block, pair, BBS)
        {
          PassedStep(cs, n, c, block, pair, 0);
        }
      }
      forall c | 0 <= c < length
        ensures Passed(cs, c, block + 1, 0, 0) ==> Passed(cs, c, block, cs, 0)
      {
      }
    }
    forall c | 0 <= c < length
      ensures codes[c] == UnpackedByte(packed, n, cs, c)
    {
      PassedAll(cs, n, c);
    }
    r := codes[..];
  }

  /** Unpacking undoes packing. */
  lemma UnpackUndoesPack(codes: seq<u8>, packed: seq<u8>, codes': seq<u8>, n: nat, cs: nat)
    requires |codes| == n * cs && IsPacked(packed, codes, n, cs) && Unpacked(codes', packed, n, cs)
    ensures codes' == codes
  {
    forall c | 0 <= c < |codes|
      ensures codes'[c] == codes[c]
    {
      RowOfCell(cs, c, n);
      PackedAtPlace(packed, codes, n, cs, RowOf(cs, c), c % cs);
    }
  }
}
