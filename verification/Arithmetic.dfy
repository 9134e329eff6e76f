/** Facts about division, remainders and powers of two. */
module Arithmetic {

  const TWO_16: nat := 0x1_0000
  const TWO_31: nat := 0x8000_0000
  const TWO_32: nat := 0x1_0000_0000
  const TWO_48: nat := 0x1_0000_0000_0000
  const TWO_63: nat := 0x8000_0000_0000_0000
  const TWO_64: nat := 0x1_0000_0000_0000_0000

  lemma {:induction false} MulLess(a: nat, b: nat, s: nat)
    requires a < b
    ensures a * s + s <= b * s
    decreases b
  {
    assert (b - 1) * s + s == b * s;
    if a == b - 1 {
    } else {
      MulLess(a, b - 1, s);
    }
  }

  lemma DivUnique(x: nat, s: nat, k: nat, r: nat)
    requires s > 0 && x == k * s + r && r < s
    ensures x / s == k
  {
    var q := x / s;
    assert x == q * s + x % s;
    if k > q {
      MulLess(q, k, s);
    } else if k < q {
      MulLess(k, q, s);
    }
  }

  lemma ModUnique(x: nat, s: nat, k: nat, r: nat)
    requires s > 0 && x == k * s + r && r < s
    ensures x % s == r
  {
    DivUnique(x, s, k, r);
    assert x == (x / s) * s + x % s;
  }

  /** Quotient and remainder of `v`, kept behind a name. */
  ghost predicate Splits(v: nat, q: nat, r: nat, base: nat) {
    v == q * base + r && r < base
  }

  lemma Divide(v: nat, base: nat) returns (q: nat, r: nat)
    requires base > 0
    ensures Splits(v, q, r, base)
  {
    q, r := v / base, v % base;
  }

  lemma SplitsUnique(v: nat, q: nat, r: nat, base: nat)
    requires base > 0 && Splits(v, q, r, base)
    ensures v / base == q && v % base == r
  {
    DivUnique(v, base, q, r);
    ModUnique(v, base, q, r);
  }

  lemma DivStep(a: nat, s: nat)
    requires s > 0
    ensures (a + s) / s == a / s + 1
  {
    assert (a / s + 1) * s + a % s == a + s;
    DivUnique(a + s, s, a / s + 1, a % s);
  }

  lemma SmallDiv(a: nat, s: nat)
    requires a < s
    ensures a / s == 0
  {
  }

  lemma DivLess(v: nat, base: nat)
    requires v > 0 && base >= 2
    ensures 0 <= v / base < v
  {
    var q := v / base;
    assert v == q * base + v % base;
    if q >= v {
      MulLess(1, base, q);
    }
  }

  lemma ModMultiple(a: nat, k: nat, m: nat)
    requires m > 0
    ensures (a + k * m) % m == a % m
  {
    assert (a / m + k) * m == (a / m) * m + k * m;
    ModUnique(a + k * m, m, a / m + k, a % m);
  }

  lemma Distribute(q: int, m: int, r: int, b: int)
    ensures (q * m + r) * b == q * b * m + r * b
  {
    assert (q * m + r) * b == q * m * b + r * b;
    assert q * m * b == q * b * m;
  }

  lemma MulMod(x: nat, m: nat, b: nat, d: nat)
    requires m > 0
    ensures (x % m * b + d) % m == (x * b + d) % m
  {
    var q, r := x / m, x % m;
    assert x == q * m + r;
    Distribute(q, m, r, b);
    ModMultiple(r * b + d, q * b, m);
  }

  function Pow2(k: nat): nat { if k == 0 then 1 else 2 * Pow2(k - 1) }

  lemma TwiceProduct(a: nat, b: nat)
    ensures 2 * (a * b) == 2 * a * b
  {
  }

  lemma {:induction false} Pow2Add(a: nat, b: nat)
    ensures Pow2(a + b) == Pow2(a) * Pow2(b)
  {
    if a == 0 {
    } else {
      Pow2Add(a - 1, b);
      TwiceProduct(Pow2(a - 1), Pow2(b));
    }
  }
}
