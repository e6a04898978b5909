/** Multiplication and Euclidean division of naturals by variable amounts. */
module NatArith {

  lemma DivStep(a: nat, w: nat)
    requires 0 < w <= a
    ensures (a - w) / w == a / w - 1
  {
    DivUnique(a - w, w, a / w - 1, a % w);
  }

  lemma MulAwayFromZero(d: int, w: int)
    requires w > 0
    ensures d >= 1 ==> d * w >= w
    ensures d <= -1 ==> d * w <= -w
  {
  }

  /** Euclidean division is the only way to write `a` as `q * w + r` with `0 <= r < w`. */
  lemma DivUnique(a: int, w: nat, q: int, r: int)
    requires w > 0 && 0 <= r < w && a == q * w + r
    ensures a / w == q && a % w == r
  {
    assert a == (a / w) * w + a % w;
    MulAwayFromZero(a / w - q, w);
    assert (a / w - q) * w == r - a % w;
  }

  lemma DivNonNegative(v: nat, m: nat)
    requires m > 0
    ensures 0 <= v / m
  {
    assert v == (v / m) * m + v % m;
    MulAwayFromZero(v / m, m);
  }

  lemma MulMono(x: nat, y: nat, m: nat)
    requires x <= y
    ensures x * m <= y * m
  {
  }

  /** A digit below `p` and a rest below `q` make a number below `p * q`. */
  lemma DigitsBound(low: nat, high: nat, p: nat, q: nat)
    requires low < p && high < q
    ensures low + high * p < q * p
  {
    MulMono(high + 1, q, p);
    assert (high + 1) * p == high * p + p;
  }

  lemma DivBound(v: nat, a: nat, m: nat)
    requires m > 0 && v < a * m
    ensures v / m < a
  {
    assert v == (v / m) * m + v % m;
    if a <= v / m {
      MulMono(a, v / m, m);
      assert false;
    }
  }

  lemma DivAtLeast(v: nat, a: nat, m: nat)
    requires m > 0 && a * m <= v
    ensures a <= v / m
  {
    assert v == (v / m) * m + v % m;
    if v / m + 1 <= a {
      DivNonNegative(v, m);
      MulMono(v / m + 1, a, m);
      assert false;
    }
  }

  lemma ModPlus(x: nat, k: nat, m: nat)
    requires m > 0
    ensures (k * m + x) % m == x % m && (k * m + x) / m == k + x / m
  {
    var (q, r) := (x / m, x % m);
    assert x == q * m + r;
    assert k * m + x == (k + q) * m + r;
    DivUnique(k * m + x, m, k + q, r);
  }

  /** Dividing by `p` and then by `q` divides by `p * q`. */
  lemma DivDivNat(v: nat, p: nat, q: nat)
    requires p > 0 && q > 0
    ensures q * p > 0 && v / p / q == v / (q * p)
  {
    var (d, r) := (v / p, v % p);
    var (d', r') := (d / q, d % q);
    assert v == d * p + r && d == d' * q + r';
    DigitsBound(r, r', p, q);
    assert (d' * q + r') * p == d' * (q * p) + r' * p;
    DivUnique(v, q * p, d', r + r' * p);
  }

  lemma MulAssoc(x: int, y: int, z: int)
    ensures (x * y) * z == x * (y * z)
  {
  }

  lemma MiddleDigitOf(v: nat, p: nat, q: nat, r: nat, a: nat, m: nat)
    requires p > 0 && q > 0 && a == r * q && m == a * p && m > 0
    ensures v % m / p % q == v / p % q
  {
    var (high, low) := (v / m, v % m);
    DivNonNegative(v, m);
    MulAssoc(high, a, p);
    MulAssoc(high, r, q);
    var (inP, inQ) := (high * a, high * r);
    assert v == inP * p + low;
    ModPlus(low, inP, p);
    DivNonNegative(low, p);
    ModPlus(low / p, inQ, q);
  }

  /** The digit of weight `p` in base `q` only depends on the number modulo any multiple of `p * q`. */
  lemma MiddleDigit(v: nat, p: nat, q: nat, r: nat)
    requires p > 0 && q > 0 && r > 0
    ensures (r * q) * p > 0 && v % ((r * q) * p) / p % q == v / p % q
  {
    MulMono(1, r, q);
    var a: nat := r * q;
    MulMono(1, a, p);
    MiddleDigitOf(v, p, q, r, a, a * p);
  }
}
