/**
 * The adaptive codec of one adjacency list: canonical delta LEB128 varints
 * (section 7.6 of DWARF v5) when they are strictly shorter than raw little-endian
 * `u32`s, raw `u32`s otherwise.
 */
module AdjacencyList {
  import opened Prelude
  import opened Bits
  import opened Bytes

  datatype Encoding = DeltaVarint | RawU32

  // ---------------------------------------------------------------------------
  // Varints
  // ---------------------------------------------------------------------------

  function VarintBytes(v: nat): (b: seq<u8>)
    ensures |b| > 0
  {
    if v < 0x80 then [v] else [v % 0x80 + 0x80] + VarintBytes(v / 0x80)
  }

  /** Values that still fit once `j` bytes of a `u32` varint have been read. */
  function VarintRoom(j: nat): nat {
    if j == 0 then 0x1_0000_0000
    else if j == 1 then 0x200_0000
    else if j == 2 then 0x4_0000
    else if j == 3 then 0x800
    else if j == 4 then 0x10
    else 0
  }

  /**
   * Reads one varint from the front of `b`, of which `j` bytes have been read already.
   * Yields the value of the remaining digits and the number of bytes they take.
   */
  function ReadVarint(b: seq<u8>, j: nat): (r: Result<(nat, nat)>)
    decreases |b|
  {
    if j > 4 || b == [] || (j == 4 && b[0] > 0x0f) then Err(InvalidData)
    else if b[0] < 0x80 then
      if j > 0 && b[0] == 0 then Err(InvalidData) else Ok((b[0], 1))
    else
      var (high, used) :- ReadVarint(b[1..], j + 1);
      Ok((b[0] % 0x80 + 0x80 * high, used + 1))
  }

  lemma {:induction false} ReadWrittenVarint(v: nat, rest: seq<u8>, j: nat)
    requires j <= 4 && v < VarintRoom(j) && (j > 0 ==> v > 0)
    ensures ReadVarint(VarintBytes(v) + rest, j) == Ok((v, |VarintBytes(v)|))
  {
    if v >= 0x80 {
      ReadWrittenVarint(v / 0x80, rest, j + 1);
      assert (VarintBytes(v) + rest)[1..] == VarintBytes(v / 0x80) + rest;
    }
  }

  /** The only bytes that read as `v` are the bytes that writing `v` produces. */
  lemma {:induction false} VarintIsCanonical(b: seq<u8>, j: nat)
    requires ReadVarint(b, j).Ok?
    ensures var (v, used) := ReadVarint(b, j).value;
            && used <= |b| && b[..used] == VarintBytes(v)
            && v < VarintRoom(j) && (j > 0 ==> v > 0)
  {
    if b[0] >= 0x80 {
      VarintIsCanonical(b[1..], j + 1);
      var (v, used) := ReadVarint(b, j).value;
      assert b[..used] == [b[0]] + b[1..][..used - 1];
    } else {
      assert b[..1] == [b[0]];
    }
  }

  /** `u32_varint_len`. */
  function VarintLen(v: nat): nat {
    DivCeil(Max(BitLength(v), 1), 7)
  }

  lemma {:induction false} BitLengthOfSeptet(v: nat)
    requires v >= 0x80
    ensures BitLength(v) == 7 + BitLength(v / 0x80)
  {
    var (a, b, c) := (v / 2, v / 4, v / 8);
    var (d, e, f) := (v / 16, v / 32, v / 64);
    assert a / 2 == b && b / 2 == c && c / 2 == d && d / 2 == e && e / 2 == f && f / 2 == v / 0x80;
    assert BitLength(v) == 2 + BitLength(b);
    assert BitLength(b) == 2 + BitLength(d);
    assert BitLength(d) == 2 + BitLength(f);
  }

  lemma {:induction false} VarintLenIsExact(v: nat)
    ensures VarintLen(v) == |VarintBytes(v)|
  {
    if v < 0x80 {
      Pow2Values();
      BitLengthUpper(v, 7);
    } else {
      BitLengthOfSeptet(v);
      VarintLenIsExact(v / 0x80);
    }
  }

  method AppendVarint(encoded: seq<u8>, value: u32) returns (r: seq<u8>)
    ensures r == encoded + VarintBytes(value)
  {
    r := encoded;
    var v: nat := value;
    while v >= 0x80
      invariant r + VarintBytes(v) == encoded + VarintBytes(value)
    {
      r := r + [v % 0x80 + 0x80];
      v := v / 0x80;
    }
    r := r + [v];
  }

  /** The value of a run of base-128 digits, least significant first. */
  function Septets(b: seq<u8>): nat {
    if b == [] then 0 else b[0] % 0x80 + 0x80 * Septets(b[1..])
  }

  lemma ShlSeptet(x: nat, k: nat)
    ensures Pow2(7 * (k + 1)) == 0x80 * Pow2(7 * k)
    ensures Shl(x, 7 * (k + 1)) == 0x80 * Shl(x, 7 * k)
  {
    Pow2Values();
    Pow2Add(7, 7 * k);
    assert x * (0x80 * Pow2(7 * k)) == 0x80 * (x * Pow2(7 * k));
  }

  lemma {:induction false} SeptetsSnoc(b: seq<u8>, x: u8)
    ensures Septets(b) < Pow2(7 * |b|)
    ensures Septets(b + [x]) == Septets(b) + Shl(x % 0x80, 7 * |b|)
  {
    if b == [] {
      assert (b + [x])[1..] == [];
    } else {
      SeptetsSnoc(b[1..], x);
      assert (b + [x])[1..] == b[1..] + [x];
      ShlSeptet(x % 0x80, |b| - 1);
    }
  }

  predicate Continues(b: seq<u8>) {
    forall i :: 0 <= i < |b| ==> b[i] >= 0x80
  }

  /** After `n` continuation bytes, a final byte in its canonical place ends the varint. */
  lemma {:induction false} VarintEnds(b: seq<u8>, n: nat, j: nat)
    requires n < |b| && j + n <= 4 && Continues(b[..n]) && b[n] < 0x80
    requires (j + n == 4 ==> b[n] <= 0x0f) && (j + n > 0 ==> b[n] != 0)
    ensures ReadVarint(b, j) == Ok((Septets(b[..n + 1]), n + 1))
  {
    assert b[..n + 1][1..] == b[1..][..n];
    if n > 0 {
      assert b[..n][0] == b[0];
      assert b[1..][..n - 1] == b[..n][1..];
      VarintEnds(b[1..], n - 1, j + 1);
    }
  }

  lemma {:induction false} VarintFails(b: seq<u8>, n: nat, j: nat)
    requires n <= |b| && j + n <= 5 && Continues(b[..n])
    requires n == |b| || j + n == 5 || (j + n == 4 && b[n] > 0x0f) || (j + n > 0 && b[n] == 0)
    ensures ReadVarint(b, j) == Err(InvalidData)
  {
    if n > 0 && j < 4 {
      assert b[..n][0] == b[0];
      assert b[1..][..n - 1] == b[..n][1..];
      VarintFails(b[1..], n - 1, j + 1);
    } else if n > 0 {
      assert b[..n][0] == b[0];
    }
  }

  /** `value |= u32::from(byte & 0x7f) << shift`. */
  method OrInDigit(value: nat, byte: u8, shift: nat, ghost read: seq<u8>) returns (r: nat)
    requires shift == 7 * |read| && value == Septets(read)
    ensures r == Septets(read + [byte])
  {
    SeptetsSnoc(read, byte);
    OrDisjoint(value, byte % 0x80, shift);
    return Or(value, Shl(byte % 0x80, shift));
  }

  /** `read_u32_varint`: `next` is the position after the call, on success and on failure. */
  method ReadVarintAt(bytes: seq<u8>, position: nat) returns (r: Result<u32>, next: nat)
    requires position <= |bytes|
    ensures position <= next <= |bytes|
    ensures match ReadVarint(bytes[position..], 0)
            case Ok((v, used)) => r == Ok(v) && next == position + used
            case Err(kind) => r == Err(kind)
  {
    ghost var tail := bytes[position..];
    var value: nat := 0;
    next := position;
    for step := 0 to 5
      invariant next == position + step <= |bytes|
      invariant Continues(tail[..step]) && value == Septets(tail[..step])
    {
      if next >= |bytes| {
        VarintFails(tail, step, 0);
        return Err(InvalidData), next;
      }
      var byte := bytes[next];
      next := next + 1;
      if step == 4 && byte > 0x0f {
        VarintFails(tail, step, 0);
        return Err(InvalidData), next;
      }
      value := OrInDigit(value, byte, 7 * step, tail[..step]);
      assert tail[..step + 1] == tail[..step] + [byte];
      if byte < 0x80 {
        if next - position > 1 && byte == 0 {
          VarintFails(tail, step, 0);
          return Err(InvalidData), next;
        }
        VarintEnds(tail, step, 0);
        VarintIsCanonical(tail, 0);
        return Ok(value), next;
      }
    }
    VarintFails(tail, 5, 0);
    return Err(InvalidData), next;
  }

  // ---------------------------------------------------------------------------
  // Lists
  // ---------------------------------------------------------------------------

  /** Neighbors that do not go below `previous` or below each other. */
  predicate Ascending(ns: seq<u32>, previous: nat) {
    ns != [] ==> previous <= ns[0] && Ascending(ns[1..], ns[0])
  }

  predicate StrictlyIncreasing(ns: seq<u32>) {
    forall i, j :: 0 <= i < j < |ns| ==> ns[i] < ns[j]
  }

  lemma {:induction false} StrictIsAscending(ns: seq<u32>, previous: nat)
    requires StrictlyIncreasing(ns) && (ns != [] ==> previous <= ns[0])
    ensures Ascending(ns, previous)
  {
    if ns != [] {
      assert StrictlyIncreasing(ns[1..]);
      StrictIsAscending(ns[1..], ns[0]);
    }
  }

  function DeltaBytes(ns: seq<u32>, previous: nat): seq<u8>
    requires Ascending(ns, previous)
  {
    if ns == [] then [] else VarintBytes(ns[0] - previous) + DeltaBytes(ns[1..], ns[0])
  }

  /** The bytes of a list in a given mode. */
  function ListBytes(ns: seq<u32>, encoding: Encoding): seq<u8>
    requires encoding.DeltaVarint? ==> Ascending(ns, 0)
  {
    match encoding
    case DeltaVarint => DeltaBytes(ns, 0)
    case RawU32 => EncodeAll(ns, 4)
  }

  /** The mode the format prescribes: delta when it is strictly shorter, or when the list is empty. */
  function MinimalEncoding(ns: seq<u32>): Encoding
    requires Ascending(ns, 0)
  {
    if ns == [] || |DeltaBytes(ns, 0)| < |ns| * 4 then DeltaVarint else RawU32
  }

  /** The canonical bytes of a strictly increasing list. */
  function Canonical(ns: seq<u32>): seq<u8>
    requires StrictlyIncreasing(ns)
  {
    StrictIsAscending(ns, 0);
    ListBytes(ns, MinimalEncoding(ns))
  }

  /** Adaptive lists never exceed the fixed-`u32` representation. */
  lemma CanonicalNeverLonger(ns: seq<u32>)
    requires StrictlyIncreasing(ns)
    ensures |Canonical(ns)| <= 4 * |ns|
    ensures Canonical(ns) == [] <==> ns == []
  {
    StrictIsAscending(ns, 0);
    EncodeAllCons(0, [], 4);
  }

  /** Unsigned LEB128: seven bits a byte, the lowest first, and the high bit set on every byte but the last. */
  lemma {:induction false} VarintIsLeb128(v: nat)
    ensures Septets(VarintBytes(v)) == v
    ensures forall i :: 0 <= i < |VarintBytes(v)| ==> (VarintBytes(v)[i] >= 0x80 <==> i < |VarintBytes(v)| - 1)
  {
    if v >= 0x80 {
      VarintIsLeb128(v / 0x80);
      assert VarintBytes(v)[1..] == VarintBytes(v / 0x80);
    } else {
      assert VarintBytes(v)[1..] == [];
    }
  }

  /** Behind the neighbours before it, neighbour i is stored as its distance from the previous one. */
  lemma {:induction false} DeltaOfNeighbor(ns: seq<u32>, previous: nat, i: nat)
    requires Ascending(ns, previous) && i < |ns|
    ensures Ascending(ns[..i], previous) && (if i == 0 then previous else ns[i - 1]) <= ns[i]
    ensures DeltaBytes(ns[..i], previous) + VarintBytes(ns[i] - if i == 0 then previous else ns[i - 1]) <= DeltaBytes(ns, previous)
  {
    if i > 0 {
      DeltaOfNeighbor(ns[1..], ns[0], i - 1);
      assert ns[..i][1..] == ns[1..][..i - 1];
      ConcatAssoc(VarintBytes(ns[0] - previous), DeltaBytes(ns[1..][..i - 1], ns[0]),
                  VarintBytes(ns[i] - if i == 1 then ns[0] else ns[i - 1]));
    }
  }

  /** No encoding of a list is shorter than its canonical one, and of two equally long ones it is the raw one. */
  lemma CanonicalIsShortest(ns: seq<u32>, encoding: Encoding)
    requires StrictlyIncreasing(ns)
    ensures Ascending(ns, 0) && |Canonical(ns)| <= |ListBytes(ns, encoding)|
    ensures ns != [] && |ListBytes(ns, DeltaVarint)| == |ListBytes(ns, RawU32)| ==> MinimalEncoding(ns) == RawU32
    ensures |ListBytes(ns, RawU32)| == 4 * |ns|
  {
    StrictIsAscending(ns, 0);
  }

  /** A decoding that continues after `ns` were read from the first `read` bytes. */
  function Following(ns: seq<u32>, read: nat, r: Result<(seq<u32>, nat)>): Result<(seq<u32>, nat)> {
    match r
    case Ok((more, used)) => Ok((ns + more, read + used))
    case Err(kind) => Err(kind)
  }

  lemma FollowingNothing(ns: seq<u32>, read: nat, r: Result<(seq<u32>, nat)>)
    ensures Following([], 0, r) == r
    ensures Following(ns, read, Ok(([], 0))) == Ok((ns, read))
  {
    if r.Ok? {
      assert [] + r.value.0 == r.value.0;
    }
    assert ns + [] == ns;
  }

  lemma FollowingStep(ns: seq<u32>, read: nat, n: u32, step: nat, r: Result<(seq<u32>, nat)>)
    ensures Following(ns, read, Following([n], step, r)) == Following(ns + [n], read + step, r)
  {
    if r.Ok? {
      ConcatAssoc(ns, [n], r.value.0);
    }
  }

  function DecodeDelta(b: seq<u8>, degree: nat, previous: nat): (r: Result<(seq<u32>, nat)>)
    ensures r.Ok? ==> |r.value.0| == degree
  {
    if degree == 0 then Ok(([], 0)) else
      var (delta, used) :- ReadVarint(b, 0);
      if previous + delta >= U32_RANGE then Err(InvalidData) else
        assert used <= |b| by { VarintIsCanonical(b, 0); }
        Following([previous + delta], used, DecodeDelta(b[used..], degree - 1, previous + delta))
  }

  /** `decode_adjacency_list`: the neighbors and the number of bytes they occupied. */
  function Decode(b: seq<u8>, degree: nat, encoding: Encoding): (r: Result<(seq<u32>, nat)>)
    ensures r.Ok? ==> |r.value.0| == degree
  {
    match encoding
    case DeltaVarint => DecodeDelta(b, degree, 0)
    case RawU32 =>
      if |b| < degree * 4 then Err(InvalidData) else
        assert forall i :: 0 <= i < degree ==> DecodeAll(b[..degree * 4], 4)[i] < U32_RANGE by {
          RawNeighborsFit(b[..degree * 4]);
        }
        Ok((DecodeAll(b[..degree * 4], 4), degree * 4))
  }

  lemma RawNeighborsFit(b: seq<u8>)
    ensures forall i :: 0 <= i < |DecodeAll(b, 4)| ==> DecodeAll(b, 4)[i] < U32_RANGE
  {
    WidthRanges();
    forall i | 0 <= i < |DecodeAll(b, 4)| ensures DecodeAll(b, 4)[i] < U32_RANGE {
      DecodeAllBound(b, 4, i);
    }
  }

  lemma DecodeDeltaCons(delta: nat, b: seq<u8>, degree: nat, previous: nat)
    requires previous + delta < U32_RANGE
    ensures DecodeDelta(VarintBytes(delta) + b, degree + 1, previous) ==
            Following([previous + delta], |VarintBytes(delta)|, DecodeDelta(b, degree, previous + delta))
  {
    ReadWrittenVarint(delta, b, 0);
    assert (VarintBytes(delta) + b)[|VarintBytes(delta)|..] == b;
  }

  lemma {:induction false} DecodeWrittenDelta(ns: seq<u32>, previous: nat, rest: seq<u8>)
    requires Ascending(ns, previous)
    ensures DecodeDelta(DeltaBytes(ns, previous) + rest, |ns|, previous) == Ok((ns, |DeltaBytes(ns, previous)|))
  {
    if ns == [] {
    } else {
      var delta, tail := ns[0] - previous, DeltaBytes(ns[1..], ns[0]);
      var whole := VarintBytes(delta) + (tail + rest);
      assert DeltaBytes(ns, previous) + rest == whole by {
        ConcatAssoc(VarintBytes(delta), tail, rest);
      }
      assert DecodeDelta(whole, |ns|, previous) == Following([ns[0]], |VarintBytes(delta)|, Ok((ns[1..], |tail|))) by {
        DecodeWrittenDelta(ns[1..], ns[0], rest);
        DecodeDeltaCons(delta, tail + rest, |ns| - 1, previous);
      }
      assert [ns[0]] + ns[1..] == ns;
    }
  }

  /** Decoding what was written, whatever follows it, gives back the list and its length. */
  lemma DecodeWritten(ns: seq<u32>, encoding: Encoding, rest: seq<u8>)
    requires encoding.DeltaVarint? ==> Ascending(ns, 0)
    ensures Decode(ListBytes(ns, encoding) + rest, |ns|, encoding) == Ok((ns, |ListBytes(ns, encoding)|))
  {
    match encoding
    case DeltaVarint => DecodeWrittenDelta(ns, 0, rest);
    case RawU32 =>
      WidthRanges();
      assert (EncodeAll(ns, 4) + rest)[..|ns| * 4] == EncodeAll(ns, 4);
      DecodeEncodeAll(ns, 4);
  }

  lemma {:induction false} DeltaDecodesOnlyItsBytes(b: seq<u8>, degree: nat, previous: nat)
    requires DecodeDelta(b, degree, previous).Ok?
    ensures var (ns, used) := DecodeDelta(b, degree, previous).value;
            used <= |b| && Ascending(ns, previous) && b[..used] == DeltaBytes(ns, previous)
  {
    if degree > 0 {
      var (delta, used) := ReadVarint(b, 0).value;
      VarintIsCanonical(b, 0);
      DeltaDecodesOnlyItsBytes(b[used..], degree - 1, previous + delta);
      var (ns, total) := DecodeDelta(b, degree, previous).value;
      assert ns[1..] == DecodeDelta(b[used..], degree - 1, previous + delta).value.0;
      assert b[..total] == b[..used] + b[used..][..total - used];
    }
  }

  /** Whatever decodes was written that way: the consumed bytes are the bytes of the list. */
  lemma DecodesOnlyItsBytes(b: seq<u8>, degree: nat, encoding: Encoding)
    requires Decode(b, degree, encoding).Ok?
    ensures var (ns, used) := Decode(b, degree, encoding).value;
            && used <= |b| && (encoding.DeltaVarint? ==> Ascending(ns, 0))
            && b[..used] == ListBytes(ns, encoding)
  {
    match encoding
    case DeltaVarint => DeltaDecodesOnlyItsBytes(b, degree, 0);
    case RawU32 => EncodeDecodeAll(b[..degree * 4], 4);
  }

  // ---------------------------------------------------------------------------
  // `encode_adjacency_list`, `decode_adjacency_list` and the planning of list sizes
  // ---------------------------------------------------------------------------

  /** `adjacency_delta_varint_len`: none exactly when the neighbors are not strictly increasing. */
  method DeltaVarintLen(ns: seq<u32>) returns (len: Option<nat>)
    ensures len.Some? <==> StrictlyIncreasing(ns)
    ensures len.Some? ==> Ascending(ns, 0) && len.value == |DeltaBytes(ns, 0)|
  {
    var previous: nat := 0;
    var total := 0;
    for index := 0 to |ns|
      invariant StrictlyIncreasing(ns[..index])
      invariant index > 0 ==> previous == ns[index - 1]
      invariant index == 0 ==> previous == 0
      invariant Ascending(ns[index..], previous) ==> Ascending(ns, 0) && total + |DeltaBytes(ns[index..], previous)| == |DeltaBytes(ns, 0)|
    {
      var neighbor := ns[index];
      if index != 0 && neighbor <= previous {
        return None;
      }
      assert ns[index..][0] == neighbor && ns[index..][1..] == ns[index + 1..];
      VarintLenIsExact(neighbor - previous);
      total := total + VarintLen(neighbor - previous);
      previous := neighbor;
    }
    assert ns[..|ns|] == ns;
    StrictIsAscending(ns, 0);
    return Some(total);
  }

  /** `plan_adjacency_list`: the mode and the exact number of bytes it will take. */
  method PlanList(ns: seq<u32>) returns (r: Result<(Encoding, nat)>)
    ensures r.Ok? <==> StrictlyIncreasing(ns)
    ensures r.Ok? ==> Ascending(ns, 0) && r.value == (MinimalEncoding(ns), |Canonical(ns)|)
    ensures r.Ok? ==> forall encoding :: r.value.1 <= |ListBytes(ns, encoding)|
    ensures r.Err? ==> r.kind == InvalidInput
  {
    var deltaLen := DeltaVarintLen(ns);
    if deltaLen.None? {
      return Err(InvalidInput);
    }
    if ns == [] || deltaLen.value < |ns| * 4 {
      return Ok((DeltaVarint, deltaLen.value));
    }
    return Ok((RawU32, |ns| * 4));
  }

  method EncodeDelta(ns: seq<u32>) returns (encoded: seq<u8>)
    requires Ascending(ns, 0)
    ensures encoded == DeltaBytes(ns, 0)
  {
    encoded := [];
    var previous: nat := 0;
    for index := 0 to |ns|
      invariant Ascending(ns[index..], previous)
      invariant encoded + DeltaBytes(ns[index..], previous) == DeltaBytes(ns, 0)
    {
      var neighbor := ns[index];
      assert ns[index..][0] == neighbor && ns[index..][1..] == ns[index + 1..];
      ConcatAssoc(encoded, VarintBytes(neighbor - previous), DeltaBytes(ns[index + 1..], neighbor));
      encoded := AppendVarint(encoded, neighbor - previous);
      previous := neighbor;
    }
    assert DeltaBytes(ns[|ns|..], previous) == [];
  }

  method EncodeRaw(ns: seq<u32>) returns (encoded: seq<u8>)
    ensures encoded == EncodeAll(ns, 4)
  {
    encoded := [];
    for index := 0 to |ns|
      invariant encoded + EncodeAll(ns[index..], 4) == EncodeAll(ns, 4)
    {
      assert ns[index..][0] == ns[index] && ns[index..][1..] == ns[index + 1..];
      ConcatAssoc(encoded, ToLE(ns[index], 4), EncodeAll(ns[index + 1..], 4));
      encoded := encoded + ToLE(ns[index], 4);
    }
    assert EncodeAll(ns[|ns|..], 4) == [];
  }

  /** `encode_adjacency_list`. */
  method EncodeList(ns: seq<u32>) returns (r: Result<(Encoding, seq<u8>)>)
    ensures r.Ok? <==> StrictlyIncreasing(ns)
    ensures r.Ok? ==> Ascending(ns, 0) && r.value == (MinimalEncoding(ns), Canonical(ns))
    ensures r.Err? ==> r.kind == InvalidInput
  {
    var plan := PlanList(ns);
    if plan.Err? {
      return Err(plan.kind);
    }
    var encoded;
    match plan.value.0 {
      case DeltaVarint => encoded := EncodeDelta(ns);
      case RawU32 => encoded := EncodeRaw(ns);
    }
    return Ok((plan.value.0, encoded));
  }

  method DecodeDeltaList(bytes: seq<u8>, degree: nat) returns (r: Result<(seq<u32>, nat)>)
    ensures r == DecodeDelta(bytes, degree, 0)
  {
    var position: nat := 0;
    var previous: u32 := 0;
    var neighbors: seq<u32> := [];
    assert bytes[0..] == bytes;
    FollowingNothing([], 0, DecodeDelta(bytes, degree, 0));
    for k := 0 to degree
      invariant position <= |bytes|
      invariant DecodeDelta(bytes, degree, 0) == Following(neighbors, position, DecodeDelta(bytes[position..], degree - k, previous))
    {
      var delta, next := ReadVarintAt(bytes, position);
      if delta.Err? {
        return Err(delta.kind);
      }
      if previous + delta.value >= U32_RANGE {
        return Err(InvalidData);
      }
      assert bytes[position..][next - position..] == bytes[next..];
      FollowingStep(neighbors, position, previous + delta.value, next - position,
                    DecodeDelta(bytes[next..], degree - k - 1, previous + delta.value));
      position := next;
      previous := previous + delta.value;
      neighbors := neighbors + [previous];
    }
    FollowingNothing(neighbors, position, Ok(([], 0)));
    return Ok((neighbors, position));
  }

  /** `decode_adjacency_list`. */
  method DecodeList(bytes: seq<u8>, degree: nat, encoding: Encoding) returns (r: Result<(seq<u32>, nat)>)
    ensures r == Decode(bytes, degree, encoding)
  {
    match encoding {
      case DeltaVarint =>
        r := DecodeDeltaList(bytes, degree);
      case RawU32 =>
        if |bytes| < degree * 4 {
          return Err(InvalidData);
        }
        RawNeighborsFit(bytes[..degree * 4]);
        return Ok((DecodeAll(bytes[..degree * 4], 4), degree * 4));
    }
  }
}
