/** jrand48: one step of the 48-bit linear congruential generator of the
    drand48 family, and the period of the states it walks through. */
module Jrand48 {
  import opened Arithmetic

  const A: nat := 0x5_deec_e66d
  const C: nat := 0xb
  const A_INVERSE: nat := 0xdfe0_5bcb_1365

  function Step(x: nat): (y: nat)
    ensures y < TWO_48
  {
    (A * x + C) % TWO_48
  }

  // ----------------------------------------------------------------- the code

  ghost function Seed(xsubi: array<nat>): nat
    requires xsubi.Length == 3
    reads xsubi
  {
    xsubi[0] + xsubi[1] * TWO_16 + xsubi[2] * TWO_32
  }

  ghost predicate IsSeed(xsubi: array<nat>)
    reads xsubi
  {
    xsubi.Length == 3 && xsubi[0] < TWO_16 && xsubi[1] < TWO_16 && xsubi[2] < TWO_16
  }

  /** The three halves kept of a 64-bit value are its value modulo 2^48. */
  lemma Halves(y: nat)
    requires y < TWO_64
    ensures y % TWO_16 + y / TWO_16 % TWO_16 * TWO_16 + y / TWO_32 % TWO_16 * TWO_32 == y % TWO_48
    ensures y / TWO_16 % TWO_32 == y % TWO_48 / TWO_16
  {
    assert y / TWO_32 == y / TWO_16 / TWO_16;
    assert y / TWO_48 == y / TWO_32 / TWO_16;
  }

  lemma WrapThenCut(n: nat)
    ensures n % TWO_64 % TWO_48 == n % TWO_48
  {
    assert n == n / TWO_64 * TWO_64 + n % TWO_64;
    ModMultiple(n % TWO_64, n / TWO_64 * TWO_16, TWO_48);
  }

  lemma WrappedStep(x: nat)
    ensures (A * x % TWO_64 + C) % TWO_64 % TWO_48 == Step(x)
  {
    MulMod(A * x, TWO_64, 1, C);
    WrapThenCut(A * x + C);
  }

  /** The new seed is one step on, although the product wraps at 64 bits; the
      result is the upper 32 bits of it as a signed long. */
  method Jrand48(xsubi: array<nat>) returns (r: int)
    requires IsSeed(xsubi)
    modifies xsubi
    ensures IsSeed(xsubi) && Seed(xsubi) == Step(old(Seed(xsubi)))
    ensures Seed(xsubi) == (0x5_deec_e66d * old(Seed(xsubi)) + 0xb) % 0x1_0000_0000_0000
    ensures var top := Seed(xsubi) / TWO_16; r == if top < TWO_31 then top else top - TWO_32
  {
    var x := xsubi[0] + xsubi[1] * TWO_16 + xsubi[2] * TWO_32;
    WrappedStep(x);
    x := (A * x % TWO_64 + C) % TWO_64;
    Halves(x);
    xsubi[0] := x % TWO_16;
    xsubi[1] := x / TWO_16 % TWO_16;
    xsubi[2] := x / TWO_32 % TWO_16;
    var word := x / TWO_16 % TWO_32;
    r := if word < TWO_31 then word else word - TWO_32;
  }

  // ------------------------------------------------------------- a permutation

  function Unstep(y: nat): nat { A_INVERSE * (y + TWO_48 - C) % TWO_48 }

  /** Every state has exactly one successor and exactly one predecessor. */
  lemma StepIsPermutation(x: nat)
    requires x < TWO_48
    ensures Unstep(Step(x)) == x && Step(Unstep(x)) == x
  {
    assert A_INVERSE * A == 22050866921 * TWO_48 + 1;
    // back after forth
    var y := A * x + C;
    assert y == y / TWO_48 * TWO_48 + Step(x);
    assert A_INVERSE * (Step(x) + TWO_48 - C) + A_INVERSE * (y / TWO_48) * TWO_48
        == x + (22050866921 * x + A_INVERSE) * TWO_48;
    ModMultiple(A_INVERSE * (Step(x) + TWO_48 - C), A_INVERSE * (y / TWO_48), TWO_48);
    ModMultiple(x, 22050866921 * x + A_INVERSE, TWO_48);
    // forth after back
    var z := A_INVERSE * (x + TWO_48 - C);
    MulMod(z, TWO_48, A, C);
    assert z * A + C == x + (22050866921 * (x + TWO_48 - C) + 1) * TWO_48;
    ModMultiple(x, 22050866921 * (x + TWO_48 - C) + 1, TWO_48);
  }

  // --------------------------------------------------------------- the period

  function Iter(x: nat, n: nat): nat { if n == 0 then x else Step(Iter(x, n - 1)) }

  /** The same walk without cutting. */
  function Walk(x: nat, n: nat): nat { if n == 0 then x else A * Walk(x, n - 1) + C }

  lemma {:induction false} IterIsWalk(x: nat, n: nat)
    requires x < TWO_48
    ensures Iter(x, n) == Walk(x, n) % TWO_48
  {
    if n == 0 {
    } else {
      IterIsWalk(x, n - 1);
      MulMod(Walk(x, n - 1), TWO_48, A, C);
    }
  }

  lemma {:induction false} WalkAdd(x: nat, m: nat, n: nat)
    ensures Walk(x, m + n) == Walk(Walk(x, m), n)
    decreases n
  {
    if n == 0 {
    } else {
      WalkAdd(x, m, n - 1);
    }
  }

  // Products are kept behind a name, so that each law about them is used once.
  function Mul(a: int, b: int): int { a * b }

  lemma MulSum(a: int, b: int, c: int)
    ensures Mul(a, b + c) == Mul(a, b) + Mul(a, c) && Mul(b + c, a) == Mul(b, a) + Mul(c, a)
  {
  }

  lemma MulAssoc(a: int, b: int, c: int)
    ensures Mul(Mul(a, b), c) == Mul(a, Mul(b, c)) && Mul(a, b) == Mul(b, a)
  {
    assert a * b * c == a * (b * c);
  }

  lemma MulTwo(a: int, b: int)
    ensures Mul(a, 2 * b) == 2 * Mul(a, b) && Mul(2 * a, b) == 2 * Mul(a, b)
  {
    assert a * (2 * b) == 2 * (a * b);
  }

  lemma MulZero(a: int)
    ensures Mul(a, 0) == 0 && Mul(a, 1) == a && Mul(1, a) == a
  {
  }

  lemma MulPos(p: int, a: int, b: int)
    requires p > 0
    ensures Mul(p, a) == Mul(p, b) ==> a == b
    ensures a >= 1 ==> Mul(p, a) >= p
  {
    if p * a == p * b {
      assert p * (a - b) == 0;
    }
  }

  /** 2^k steps are x -> x + 2^k * (4 * t * x + o) with o odd. */
  ghost function T(k: nat): int {
    if k == 0 then (A - 1) / 4 else T(k - 1) + 2 * Mul(Mul(Pow2(k - 1), T(k - 1)), T(k - 1))
  }

  ghost function O(k: nat): int {
    if k == 0 then C else O(k - 1) + 2 * Mul(Mul(Pow2(k - 1), T(k - 1)), O(k - 1))
  }

  ghost function Q(k: nat, x: int): int { 4 * Mul(T(k), x) + O(k) }

  lemma {:induction false} OddO(k: nat)
    ensures O(k) % 2 == 1
  {
    hide Mul;
    if k == 0 {
    } else {
      OddO(k - 1);
    }
  }

  /** Twice the move of level k is the move of level k + 1. */
  lemma QStep(k: nat, x: int)
    ensures 2 * (Q(k, x) + 2 * Mul(Mul(Pow2(k), T(k)), Q(k, x))) == 2 * Q(k + 1, x)
  {
    hide Mul, Pow2;
    var s, t, o := Mul(Pow2(k), T(k)), T(k), O(k);
    MulSum(s, 4 * Mul(t, x), o);
    MulTwo(s, 2 * Mul(t, x));
    MulTwo(s, Mul(t, x));
    MulAssoc(s, t, x);
    MulSum(x, t, 2 * Mul(s, t));
    MulTwo(Mul(s, t), x);
  }

  lemma QShift(k: nat, x: int, d: int)
    ensures Q(k, x + d) == Q(k, x) + 4 * Mul(T(k), d)
  {
    hide Mul;
    MulSum(T(k), x, d);
  }

  lemma FourTimes(p: int, z: int)
    ensures Mul(p, 4 * z) == 4 * Mul(p, z)
  {
    assert p * (4 * z) == 4 * (p * z);
  }

  /** Two moves of level k, the second from where the first ended, are one of level k + 1. */
  lemma TwiceMoved(k: nat, x: int, y: int)
    requires y == x + Mul(Pow2(k), Q(k, x))
    ensures y + Mul(Pow2(k), Q(k, y)) == x + Mul(2 * Pow2(k), Q(k + 1, x))
  {
    hide Mul, Q, Pow2, T;
    var p, q := Pow2(k), Q(k, x);
    var z := Mul(Mul(p, T(k)), q);
    assert Q(k, y) == q + 4 * z by {
      QShift(k, x, Mul(p, q));
      MulAssoc(T(k), p, q);
    }
    assert Mul(p, q + 4 * z) == Mul(p, q) + 4 * Mul(p, z) by {
      MulSum(p, q, 4 * z);
      FourTimes(p, z);
    }
    assert Mul(2 * p, q + 2 * z) == 2 * Mul(p, q) + 4 * Mul(p, z) by {
      MulTwo(p, q + 2 * z);
      MulSum(p, q, 2 * z);
      MulTwo(p, z);
    }
    QStep(k, x);
  }

  lemma {:induction false} Shift(k: nat, x: nat)
    ensures Walk(x, Pow2(k)) == x + Mul(Pow2(k), Q(k, x))
    decreases k
  {
    if k == 0 {
      assert Walk(x, 0) == x && Walk(x, 1) == A * x + C;
    } else {
      hide Mul, Q, Walk;
      var p := Pow2(k - 1);
      WalkAdd(x, p, p);
      Shift(k - 1, x);
      Shift(k - 1, Walk(x, p));
      TwiceMoved(k - 1, x, Walk(x, p));
    }
  }

  lemma OddQ(k: nat, x: int)
    ensures Q(k, x) % 2 == 1
  {
    hide Mul;
    OddO(k);
  }

  /** An odd number of such moves is an odd move. */
  lemma {:induction false} ShiftMany(k: nat, m: nat, x: nat) returns (q: int)
    ensures Mul(Pow2(k), m) >= 0 && Walk(x, Mul(Pow2(k), m)) == x + Mul(Pow2(k), q) && q % 2 == m % 2
    decreases m
  {
    hide Mul, Q;
    var p := Pow2(k);
    if m == 0 {
      q := 0;
      MulZero(p);
    } else {
      var q1 := ShiftMany(k, m - 1, x);
      var n := Mul(p, m - 1);
      MulSum(p, m - 1, 1);
      MulZero(p);
      WalkAdd(x, n, p);
      Shift(k, Walk(x, n));
      OddQ(k, Walk(x, n));
      var q2 := Q(k, Walk(x, n));
      q := q1 + q2;
      MulSum(p, q1, q2);
    }
  }

  /** Every positive number is a power of two times an odd number. */
  lemma {:induction false} OddPart(i: nat) returns (j: nat, m: nat)
    requires i > 0
    ensures i == Mul(Pow2(j), m) && m % 2 == 1
  {
    hide Mul;
    if i % 2 == 1 {
      j, m := 0, i;
      MulZero(i);
    } else {
      var h;
      h, m := OddPart(i / 2);
      j := h + 1;
      MulTwo(Pow2(h), m);
    }
  }

  lemma {:induction false} PowMono(j: nat, n: nat)
    requires j <= n
    ensures 0 < Pow2(j) <= Pow2(n)
    decreases n
  {
    if j < n {
      PowMono(j, n - 1);
    } else if j > 0 {
      PowMono(j - 1, n - 1);
    }
  }

  /** An odd multiple of 2^j is no multiple of a higher power. */
  lemma OddMultiple(j: nat, n: nat, q: int, s: int)
    requires j < n && q % 2 == 1
    ensures Mul(Pow2(j), q) != Mul(Pow2(n), s)
  {
    hide Mul;
    var r := Pow2(n - j - 1);
    PowMono(0, j);
    PowSplit(j, n);
    MulAssoc(Pow2(j), 2 * r, s);
    MulTwo(r, s);
    MulPos(Pow2(j), q, 2 * Mul(r, s));
  }

  lemma PowSplit(j: nat, n: nat)
    requires j < n
    ensures Pow2(n) == Mul(Pow2(j), 2 * Pow2(n - j - 1))
  {
    Pow2Add(j, n - j);
  }

  lemma Pow48()
    ensures Pow2(48) == TWO_48
  {
    assert Pow2(8) == 0x100;
    Pow2Add(8, 8);
    Pow2Add(16, 16);
    Pow2Add(32, 16);
  }

  lemma SameResidue(a: nat, x: nat, q: int)
    requires x < TWO_48 && a == x + Mul(TWO_48, q)
    ensures a % TWO_48 == x
  {
    assert q >= 0;
    ModMultiple(x, q, TWO_48);
  }

  /** After 2^48 steps the generator is back where it began ... */
  lemma ComesBack(x: nat)
    requires x < TWO_48
    ensures Iter(x, TWO_48) == x
  {
    hide Mul, Iter, Walk, Q;
    Pow48();
    IterIsWalk(x, TWO_48);
    Shift(48, x);
    SameResidue(Walk(x, TWO_48), x, Q(48, x));
  }

  lemma Residue(w: nat)
    ensures w == w % TWO_48 + Mul(TWO_48, w / TWO_48)
  {
  }

  /** ... and not before ... */
  lemma NotBefore(x: nat, i: nat)
    requires x < TWO_48 && 0 < i < TWO_48
    ensures Iter(x, i) != x
  {
    hide Mul, Iter, Walk;
    Pow48();
    IterIsWalk(x, i);
    var j, m := OddPart(i);
    PowMono(0, j);
    MulPos(Pow2(j), m, m);
    BelowPower(j);
    var q := ShiftMany(j, m, x);
    var w := Walk(x, i);
    OddMultiple(j, 48, q, w / TWO_48);
    Residue(w);
  }

  lemma BelowPower(j: nat)
    ensures Pow2(j) < TWO_48 ==> j < 48
  {
    Pow48();
    if j >= 48 {
      PowMono(48, j);
    }
  }

  lemma {:induction false} Meets(k: nat, x: nat, y: nat) returns (i: nat, d: int)
    ensures i < Pow2(k) && Walk(x, i) == y + Mul(Pow2(k), d)
    decreases k
  {
    hide Mul, Q;
    if k == 0 {
      i, d := 0, x - y;
      MulZero(d);
    } else {
      var p := Pow2(k - 1);
      var i1, d1 := Meets(k - 1, x, y);
      if d1 % 2 == 0 {
        i, d := i1, d1 / 2;
        MulTwo(p, d);
      } else {
        WalkAdd(x, i1, p);
        Shift(k - 1, Walk(x, i1));
        OddQ(k - 1, Walk(x, i1));
        var q := Q(k - 1, Walk(x, i1));
        i, d := i1 + p, (d1 + q) / 2;
        MulSum(p, d1, q);
        MulTwo(p, d);
      }
    }
  }

  /** ... so it meets every state: from any seed the period is the full 2^48. */
  lemma MeetsEveryState(x: nat, y: nat) returns (i: nat)
    requires x < TWO_48 && y < TWO_48
    ensures i < TWO_48 && Iter(x, i) == y
  {
    hide Mul, Iter, Walk;
    Pow48();
    var d;
    i, d := Meets(48, x, y);
    IterIsWalk(x, i);
    SameResidue(Walk(x, i), y, d);
  }
}
