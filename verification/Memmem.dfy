/** memmem: leftmost occurrence of a byte string, by the "Not So Naive"
    search, which looks at the second byte of the needle first and then moves
    on by one or by two. */
module Memmem {
  import opened ByteText
  import opened Machine

  ghost predicate Same(s1: array<Byte>, i: nat, s2: array<Byte>, j: nat, n: nat)
    requires i + n <= s1.Length && j + n <= s2.Length
    reads s1, s2
  {
    forall k :: i <= k < i + n ==> s1[k] == s2[j + (k - i)]
  }

  /** The needle `x` of `m` bytes stands at offset `j` of the haystack. */
  ghost predicate Occurs(x: array<Byte>, m: nat, y: array<Byte>, j: nat)
    requires m <= x.Length && j + m <= y.Length
    reads x, y
  {
    forall k :: 0 <= k < m ==> y[j + k] == x[k]
  }

  ghost predicate NoneBefore(x: array<Byte>, m: nat, y: array<Byte>, n: nat, end: nat)
    requires m <= x.Length && n <= y.Length
    reads x, y
  {
    forall j: nat :: j < end && j + m <= n ==> !Occurs(x, m, y, j)
  }

  /** Zero for equal bytes, otherwise the difference of the first two that differ. */
  method Memcmp(s1: array<Byte>, i: nat, s2: array<Byte>, j: nat, n: nat) returns (d: int)
    requires i + n <= s1.Length && j + n <= s2.Length
    ensures d == 0 <==> Same(s1, i, s2, j, n)
    ensures d != 0 ==>
      exists k: nat :: k < n && Same(s1, i, s2, j, k) &&
        var c1: int, c2: int := s1[i + k], s2[j + k]; d == c1 - c2
  {
    d := 0;
    var k := 0;
    while k < n
      invariant k <= n && d == 0 && Same(s1, i, s2, j, k)
    {
      var c1: int, c2: int := s1[i + k], s2[j + k];
      d := c1 - c2;
      if d != 0 {
        break;
      }
      k := k + 1;
    }
    if d != 0 {
      assert Same(s1, i, s2, j, k);
    }
  }

  /** The three comparisons of the search amount to an occurrence. */
  lemma OccursParts(x: array<Byte>, m: nat, y: array<Byte>, j: nat)
    requires 2 <= m <= x.Length && j + m <= y.Length
    ensures Occurs(x, m, y, j) <==> x[0] == y[j] && x[1] == y[j + 1] && Same(x, 2, y, j + 2, m - 2)
  {
    if Occurs(x, m, y, j) {
      assert y[j + 0] == x[0] && y[j + 1] == x[1];
      assert Same(x, 2, y, j + 2, m - 2);
    } else {
      var k :| 0 <= k < m && y[j + k] != x[k];
      assert k >= 2 ==> x[k] != y[j + 2 + (k - 2)];
    }
  }

  /** Why one and two are safe: a needle of two equal bytes cannot begin just
      before a byte that is not its second, one of two different bytes cannot
      begin on a byte that is. */
  lemma SafeSkip(x: array<Byte>, m: nat, y: array<Byte>, n: nat, j: nat, step: nat)
    requires 2 <= m <= x.Length && n <= y.Length && j + m <= n
    requires NoneBefore(x, m, y, n, j) && !Occurs(x, m, y, j)
    requires step == 1 || (step == 2 && (x[0] == x[1]) != (x[1] == y[j + 1]))
    ensures NoneBefore(x, m, y, n, j + step)
  {
    hide Occurs;
    forall i: nat | i < j + step && i + m <= n ensures !Occurs(x, m, y, i) {
      if i == j + 1 {
        OccursParts(x, m, y, i);
      }
    }
  }

  lemma OneByte(x: array<Byte>, y: array<Byte>, j: nat)
    requires x.Length > 0 && j < y.Length
    ensures Occurs(x, 1, y, j) <==> y[j] == x[0]
  {
    assert y[j + 0] == y[j];
  }

  /** The leftmost occurrence of a needle that is not empty; NULL if and only if
      there is none, or the needle is empty. */
  method Memmem(y: array<Byte>, n: nat, x: array<Byte>, m: nat) returns (r: Pointer)
    requires n <= y.Length && m <= x.Length
    ensures r.Null? <==> m == 0 || NoneBefore(x, m, y, n, n)
    ensures r.At? ==>
      r.offset + m <= n && Occurs(x, m, y, r.offset) && NoneBefore(x, m, y, n, r.offset)
  {
    hide Occurs, Same;
    if m > n || m == 0 || n == 0 {
      return Null;
    }
    if m != 1 {
      var k, l;
      if x[0] == x[1] {
        k, l := 2, 1;
      } else {
        k, l := 1, 2;
      }
      var j := 0;
      while j <= n - m
        invariant j <= n  // so `j` does not wrap around
        invariant NoneBefore(x, m, y, n, j)
        decreases n - j
      {
        if x[1] != y[j + 1] {
          OccursParts(x, m, y, j);
          SafeSkip(x, m, y, n, j, k);
          j := j + k;
        } else {
          var d := Memcmp(x, 2, y, j + 2, m - 2);
          OccursParts(x, m, y, j);
          if d == 0 && x[0] == y[j] {
            return At(j);
          }
          SafeSkip(x, m, y, n, j, l);
          j := j + l;
        }
      }
    } else {
      var p, left := 0, n;
      while true
        invariant p + left == n && left > 0
        invariant NoneBefore(x, m, y, n, p)
        decreases left
      {
        OneByte(x, y, p);
        if y[p] == x[0] {
          return At(p);
        }
        p := p + 1;
        left := left - 1;
        if left == 0 {
          break;
        }
      }
    }
    return Null;
  }
}
