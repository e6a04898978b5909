/**
 * FastScan distances over the reals: the u8 quantization of a distance table, the exact and the
 * quantized sum of a row of 4-bit codes, and how far apart they can be.
 */
module FastScan {
  import opened Prelude

  /** Each of `m` entries adds at most 255 to a u16 accumulator. */
  const MAX_U16_SUBQUANTIZERS: nat := (U16_RANGE - 1) / (U8_RANGE - 1)

  const ENTRIES: nat := 16
  const MIN_RANGE: real := 0.0000000001

  function Low(byte: u8): (r: nat)
    ensures r < ENTRIES
  {
    byte % 16
  }

  function High(byte: u8): (r: nat)
    ensures r < ENTRIES
  {
    byte / 16
  }

  /** The table sum of a row's first `pairs` code bytes, two entries per byte. */
  function ExactTo(table: seq<real>, row: seq<u8>, pairs: nat): real
    requires pairs <= |row| && |table| == 2 * ENTRIES * |row|
  {
    if pairs == 0 then 0.0
    else ExactTo(table, row, pairs - 1)
         + table[2 * (pairs - 1) * ENTRIES + Low(row[pairs - 1])]
         + table[(2 * (pairs - 1) + 1) * ENTRIES + High(row[pairs - 1])]
  }

  function Exact(table: seq<real>, row: seq<u8>): real
    requires |table| == 2 * ENTRIES * |row|
  {
    ExactTo(table, row, |row|)
  }

  function SumTo(qtable: seq<u8>, row: seq<u8>, pairs: nat): (r: nat)
    requires pairs <= |row| && |qtable| == 2 * ENTRIES * |row|
    ensures r <= 2 * 255 * pairs
  {
    if pairs == 0 then 0
    else SumTo(qtable, row, pairs - 1)
         + qtable[2 * (pairs - 1) * ENTRIES + Low(row[pairs - 1])]
         + qtable[(2 * (pairs - 1) + 1) * ENTRIES + High(row[pairs - 1])]
  }

  function Lowest(table: seq<real>): (r: real)
    requires table != []
    ensures forall i :: 0 <= i < |table| ==> r <= table[i]
    ensures exists i :: 0 <= i < |table| && r == table[i]
  {
    var last := table[|table| - 1];
    if |table| == 1 then last else
    var rest := Lowest(table[..|table| - 1]);
    if last < rest then last else rest
  }

  function Highest(table: seq<real>): (r: real)
    requires table != []
    ensures forall i :: 0 <= i < |table| ==> table[i] <= r
    ensures exists i :: 0 <= i < |table| && r == table[i]
  {
    var last := table[|table| - 1];
    if |table| == 1 then last else
    var rest := Highest(table[..|table| - 1]);
    if last > rest then last else rest
  }

  function MaxReal(a: real, b: real): real {
    if a >= b then a else b
  }

  datatype Quantized = Quantized(qmin: real, qmax: real, table: seq<u8>) {
    function Range(): (r: real)
      ensures r > 0.0
    {
      MaxReal(qmax - qmin, MIN_RANGE)
    }

    /** What one unit of the quantized sum stands for. */
    function Unit(): (r: real)
      ensures r > 0.0
    {
      Range() / 255.0
    }
  }

  function QuantizeEntry(d: real, qmin: real, range: real): u8
    requires range > 0.0
  {
    var scaled := (d - qmin) * (255.0 / range);
    if scaled < 0.0 then 0 else if scaled > 255.0 then 255 else scaled.Floor
  }

  /** The quantized table covers the range of the table it was made from. */
  predicate Quantizes(q: Quantized, table: seq<real>) {
    && |q.table| == |table|
    && (forall i :: 0 <= i < |table| ==> q.qmin <= table[i] <= q.qmin + q.Range())
    && (forall i :: 0 <= i < |table| ==> q.table[i] == QuantizeEntry(table[i], q.qmin, q.Range()))
  }

  /** `hint` is a lower bound the caller wants for the maximum; `None` stands for minus infinity. */
  function Quantize(table: seq<real>, hint: Option<real>): (q: Quantized)
    requires table != []
    ensures q.qmin == Lowest(table) && Quantizes(q, table)
  {
    QuantizeUpTo(table, if hint.Some? then MaxReal(hint.value, Highest(table)) else Highest(table))
  }

  function QuantizeUpTo(table: seq<real>, qmax: real): (q: Quantized)
    requires table != [] && qmax >= Highest(table)
    ensures q.qmin == Lowest(table) && Quantizes(q, table)
  {
    var qmin := Lowest(table);
    var range := MaxReal(qmax - qmin, MIN_RANGE);
    Quantized(qmin, qmax, seq(|table|, i requires 0 <= i < |table| => QuantizeEntry(table[i], qmin, range)))
  }

  lemma ScaleBack(x: real, q: real, range: real)
    requires range > 0.0 && q <= x * (255.0 / range) < q + 1.0
    ensures q * (range / 255.0) <= x < (q + 1.0) * (range / 255.0)
  {
    var (factor, unit) := (255.0 / range, range / 255.0);
    assert factor * unit == 1.0;
    assert x * factor * unit == x;
    assert (x * factor - q) * unit >= 0.0;
    assert (q + 1.0 - x * factor) * unit > 0.0;
  }

  /** Quantizing loses less than one unit per entry, and never rounds up. */
  lemma EntryBound(d: real, qmin: real, range: real)
    requires range > 0.0 && qmin <= d <= qmin + range
    ensures var q := QuantizeEntry(d, qmin, range) as real;
            qmin + q * (range / 255.0) <= d < qmin + (q + 1.0) * (range / 255.0)
  {
    var x := d - qmin;
    assert 0.0 <= x * (255.0 / range) <= 255.0 by {
      assert range * (255.0 / range) == 255.0;
      assert (range - x) * (255.0 / range) >= 0.0;
      assert x * (255.0 / range) >= 0.0;
    }
    ScaleBack(x, QuantizeEntry(d, qmin, range) as real, range);
  }

  /** A sum of n quantized entries as a distance. */
  function ScaledBack(sum: real, n: real, unit: real, qmin: real): real {
    sum * unit + qmin * n
  }

  function Estimate(q: Quantized, row: seq<u8>): real
    requires |q.table| == 2 * ENTRIES * |row|
  {
    ScaledBack(SumTo(q.table, row, |row|) as real, (2 * |row|) as real, q.Unit(), q.qmin)
  }

  /** `exact` lies between the sum of quantized entries scaled back and n units more. */
  predicate Brackets(exact: real, sum: real, n: real, unit: real, qmin: real) {
    sum * unit + qmin * n <= exact <= (sum + n) * unit + qmin * n
  }

  predicate StrictlyBrackets(exact: real, sum: real, n: real, unit: real, qmin: real) {
    sum * unit + qmin * n <= exact < (sum + n) * unit + qmin * n
  }

  lemma AddTwo(exact: real, sum: real, n: real, unit: real, qmin: real, x: real, a: real, y: real, b: real,
               exact': real, sum': real, n': real)
    requires Brackets(exact, sum, n, unit, qmin) && StrictlyBrackets(x, a, 1.0, unit, qmin) && StrictlyBrackets(y, b, 1.0, unit, qmin)
    requires exact' == exact + x + y && sum' == sum + a + b && n' == n + 2.0
    ensures Brackets(exact', sum', n', unit, qmin) && StrictlyBrackets(exact', sum', n', unit, qmin)
  {
    assert sum' * unit == sum * unit + a * unit + b * unit;
    assert qmin * n' == qmin * n + qmin + qmin;
    assert (sum' + n') * unit == (sum + n) * unit + (a + 1.0) * unit + (b + 1.0) * unit;
  }

  lemma EntryBrackets(table: seq<real>, q: Quantized, i: nat)
    requires Quantizes(q, table) && i < |table|
    ensures StrictlyBrackets(table[i], q.table[i] as real, 1.0, q.Unit(), q.qmin)
  {
    EntryBound(table[i], q.qmin, q.Range());
  }

  lemma SumSteps(table: seq<real>, q: Quantized, row: seq<u8>, p: nat, i: nat, j: nat)
    requires |table| == |q.table| == 2 * ENTRIES * |row| && p < |row|
    requires i == 2 * p * ENTRIES + Low(row[p]) && j == (2 * p + 1) * ENTRIES + High(row[p])
    ensures ExactTo(table, row, p + 1) == ExactTo(table, row, p) + table[i] + table[j]
    ensures SumTo(q.table, row, p + 1) as real == SumTo(q.table, row, p) as real + q.table[i] as real + q.table[j] as real
  {
  }

  lemma {:induction false} SumBrackets(table: seq<real>, q: Quantized, row: seq<u8>, pairs: nat)
    requires |table| == 2 * ENTRIES * |row| && pairs <= |row| && Quantizes(q, table)
    ensures Brackets(ExactTo(table, row, pairs), SumTo(q.table, row, pairs) as real, (2 * pairs) as real, q.Unit(), q.qmin)
    ensures pairs > 0 ==>
              StrictlyBrackets(ExactTo(table, row, pairs), SumTo(q.table, row, pairs) as real, (2 * pairs) as real, q.Unit(), q.qmin)
  {
    if pairs > 0 {
      var p := pairs - 1;
      var (i, j) := (2 * p * ENTRIES + Low(row[p]), (2 * p + 1) * ENTRIES + High(row[p]));
      SumBrackets(table, q, row, p);
      EntryBrackets(table, q, i);
      EntryBrackets(table, q, j);
      SumSteps(table, q, row, p, i, j);
      AddTwo(ExactTo(table, row, p), SumTo(q.table, row, p) as real, (2 * p) as real, q.Unit(), q.qmin,
             table[i], q.table[i] as real, table[j], q.table[j] as real,
             ExactTo(table, row, pairs), SumTo(q.table, row, pairs) as real, (2 * pairs) as real);
    }
  }

  lemma BracketWidth(exact: real, sum: real, n: real, unit: real, qmin: real)
    requires StrictlyBrackets(exact, sum, n, unit, qmin)
    ensures ScaledBack(sum, n, unit, qmin) <= exact < ScaledBack(sum, n, unit, qmin) + n * unit
  {
    assert (sum + n) * unit == sum * unit + n * unit;
  }

  /** m times one unit, that is, m times the range over 255. */
  function Slack(q: Quantized, m: nat): (r: real)
    requires m > 0
    ensures r > 0.0
  {
    m as real * q.Unit()
  }

  /** The value lies below the exact distance by less than `slack`. */
  predicate Underestimates(value: real, exact: real, slack: real) {
    value <= exact < value + slack
  }

  /** The estimate of a row is at most its exact distance, and short of it by less than m units. */
  lemma EstimateBound(table: seq<real>, q: Quantized, row: seq<u8>)
    requires row != [] && |table| == 2 * ENTRIES * |row| && Quantizes(q, table)
    ensures Underestimates(Estimate(q, row), Exact(table, row), Slack(q, 2 * |row|))
  {
    SumBrackets(table, q, row, |row|);
    BracketWidth(Exact(table, row), SumTo(q.table, row, |row|) as real, (2 * |row|) as real, q.Unit(), q.qmin);
  }

  // ---------------------------------------------------------------------------------------
  // In plain terms.

  /** The 4-bit code of subquantizer j: even ones in the low half of a byte, odd ones in the high half. */
  function Code(row: seq<u8>, j: nat): nat
    requires j < 2 * |row|
  {
    if j % 2 == 0 then row[j / 2] % 16 else row[j / 2] / 16
  }

  function Entries(table: seq<real>, row: seq<u8>, m: nat): real
    requires m <= 2 * |row| && |table| == 2 * ENTRIES * |row|
  {
    if m == 0 then 0.0 else Entries(table, row, m - 1) + table[(m - 1) * 16 + Code(row, m - 1)]
  }

  /** The exact distance of a row is the sum, over all subquantizers, of the table entry of its code. */
  lemma {:induction false} ExactIsSum(table: seq<real>, row: seq<u8>, pairs: nat)
    requires pairs <= |row| && |table| == 2 * ENTRIES * |row|
    ensures ExactTo(table, row, pairs) == Entries(table, row, 2 * pairs)
  {
    if pairs > 0 {
      ExactIsSum(table, row, pairs - 1);
      assert Entries(table, row, 2 * pairs) == Entries(table, row, 2 * pairs - 1) + table[(2 * pairs - 1) * 16 + Code(row, 2 * pairs - 1)];
      assert Entries(table, row, 2 * pairs - 1) == Entries(table, row, 2 * pairs - 2) + table[(2 * pairs - 2) * 16 + Code(row, 2 * pairs - 2)];
    }
  }
}
