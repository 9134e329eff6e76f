/** strntoumax: an integer read from text, and its meeting with format_int. */
module Strntoumax {
  import opened Arithmetic
  import opened CText
  import opened FormatInt

  // ------------------------------------------------------------- the meaning

  /** Length of the longest prefix of white space, and of digits of a base. */
  function SpaceRun(s: seq<char>): (n: nat)
    ensures n <= |s|
  {
    if s == [] || !IsSpace(s[0]) then 0 else 1 + SpaceRun(s[1..])
  }

  predicate IsDigitOf(c: char, base: nat) { 0 <= DigitVal(c) < base }

  function DigitRun(s: seq<char>, base: nat): (n: nat)
    ensures n <= |s|
  {
    if s == [] || !IsDigitOf(s[0], base) then 0 else 1 + DigitRun(s[1..], base)
  }

  /** The number a string of digits stands for, most significant digit first. */
  function Value(s: seq<char>, base: nat): nat {
    if s == [] then 0
    else Value(s[..|s| - 1], base) * base + if DigitVal(s[|s| - 1]) < 0 then 0 else DigitVal(s[|s| - 1])
  }

  predicate IsSign(c: char) { c == '-' || c == '+' }

  predicate HexPrefix(s: seq<char>) {
    |s| >= 2 && s[0] == '0' && (s[1] == 'x' || s[1] == 'X')
  }

  /** How many characters the base prefix takes, and the base that counts. */
  function Prefix(s: seq<char>, base: nat): (r: (nat, nat))
    ensures r.0 <= |s|
  {
    if base == 0 then
      if HexPrefix(s) then (2, 16) else if s != [] && s[0] == '0' then (1, 8) else (0, 10)
    else if base == 16 && HexPrefix(s) then (2, 16)
    else (0, base)
  }

  function Negated(v: nat): nat { (TWO_64 - v % TWO_64) % TWO_64 }

  /** The value and the number of characters taken: a base prefix and digits. */
  function ParseDigits(u: seq<char>, base: nat): (r: (nat, nat))
    ensures r.1 <= |u|
  {
    var (skip, b) := Prefix(u, base);
    var d := DigitRun(u[skip..], b);
    (Value(u[skip..][..d], b) % TWO_64, skip + d)
  }

  /** ... after one sign ... */
  function ParseSigned(t: seq<char>, base: nat): (r: (nat, nat))
    ensures r.1 <= |t|
  {
    if t != [] && IsSign(t[0]) then
      var (v, n) := ParseDigits(t[1..], base);
      (if t[0] == '-' then Negated(v) else v, n + 1)
    else ParseDigits(t, base)
  }

  /** ... after white space. */
  function Parse(s: seq<char>, base: nat): (r: (nat, nat))
    ensures r.1 <= |s|
  {
    var (v, n) := ParseSigned(s[SpaceRun(s)..], base);
    (v, SpaceRun(s) + n)
  }

  // ---------------------------------------------------------------- the code

  /** What the length limit `n` leaves of the string at `i`. */
  ghost function Window(s: CString, i: nat, n: nat): (w: seq<char>)
    requires i <= |s|
  {
    if i + n <= |s| then s[i..i + n] else s[i..]
  }

  lemma WindowDrop(s: CString, i: nat, n: nat, k: nat)
    requires i <= |s| && k <= |Window(s, i, n)|
    ensures k <= n && i + k <= |s| && Window(s, i, n)[k..] == Window(s, i + k, n - k)
  {
  }

  lemma WindowAt(s: CString, i: nat, n: nat, k: nat)
    requires i <= |s|
    ensures k < |Window(s, i, n)| <==> k < n && At(s, i + k) != '\0' && i + k < |s|
    ensures k < |Window(s, i, n)| ==> Window(s, i, n)[k] == At(s, i + k)
  {
  }

  method SkipSpaces(s: CString, i0: nat, n0: nat) returns (i: nat, n: nat)
    requires i0 <= |s|
    ensures i == i0 + SpaceRun(Window(s, i0, n0)) && i <= |s| && i - i0 <= n0 && n == n0 - (i - i0)
  {
    hide Window, IsSpace, SpaceRun;
    i, n := i0, n0;
    ghost var w := Window(s, i0, n0);
    assert w[0..] == w;
    NulIsNoSpace();
    while n > 0 && IsSpace(At(s, i))
      invariant i0 <= i <= |s| && 0 <= n && n + i == n0 + i0 && i - i0 <= |w|
      invariant Window(s, i, n) == w[i - i0..]
      invariant SpaceRun(w) == i - i0 + SpaceRun(w[i - i0..])
    {
      WindowAt(s, i, n, 0);
      WindowDrop(s, i, n, 1);
      SpaceRunStep(w[i - i0..]);
      assert w[i - i0..][1..] == w[i + 1 - i0..];
      i, n := i + 1, n - 1;
    }
    WindowAt(s, i, n, 0);
    SpaceRunStep(w[i - i0..]);
  }

  lemma SpaceRunStep(s: seq<char>)
    ensures SpaceRun(s) == if s != [] && IsSpace(s[0]) then 1 + SpaceRun(s[1..]) else 0
  {
  }

  lemma NulIsNoSpace()
    ensures !IsSpace('\0')
  {
  }

  method ReadPrefix(s: CString, i0: nat, n0: nat, base0: nat) returns (i: nat, n: nat, base: nat)
    requires i0 <= |s|
    ensures i0 <= i <= |s| && i - i0 <= n0 && n == n0 - (i - i0)
    ensures Prefix(Window(s, i0, n0), base0) == (i - i0, base)
  {
    i, n, base := i0, n0, base0;
    WindowAt(s, i, n, 0);
    WindowAt(s, i, n, 1);
    if base == 0 {
      if n >= 2 && At(s, i) == '0' && (At(s, i + 1) == 'x' || At(s, i + 1) == 'X') {
        i, n, base := i + 2, n - 2, 16;
      } else if n >= 1 && At(s, i) == '0' {
        i, n, base := i + 1, n - 1, 8;
      } else {
        base := 10;
      }
    } else if base == 16 {
      if n >= 2 && At(s, i) == '0' && (At(s, i + 1) == 'x' || At(s, i + 1) == 'X') {
        i, n := i + 2, n - 2;
      }
    }
  }

  method DigitLoop(s: CString, i0: nat, base: nat, n0: nat) returns (v: nat, i: nat)
    requires i0 <= |s|
    ensures var w := Window(s, i0, n0);
            var d := DigitRun(w, base);
            v == Value(w[..d], base) % TWO_64 && i == i0 + d
  {
    hide Window, Value, DigitRun, DigitVal;
    var n := n0;
    i, v := i0, 0;
    ghost var w := Window(s, i0, n0);
    assert w[0..] == w && w[..0] == [];
    EmptyNumber(base);
    while n > 0 && 0 <= DigitVal(At(s, i)) < base
      invariant i0 <= i <= |s| && 0 <= n && n + i == n0 + i0 && i - i0 <= |w|
      invariant Window(s, i, n) == w[i - i0..]
      invariant DigitRun(w, base) == i - i0 + DigitRun(w[i - i0..], base)
      invariant v == Value(w[..i - i0], base) % TWO_64
    {
      ghost var k := i - i0;
      WindowAt(s, i, n, 0);
      WindowDrop(s, i, n, 1);
      DigitRunStep(w[k..], base);
      assert w[k] == At(s, i) && w[k..][1..] == w[k + 1..];
      ValueSnoc(w, k, base);
      MulMod(Value(w[..k], base), TWO_64, base, DigitVal(At(s, i)));
      v := (v * base + DigitVal(At(s, i))) % TWO_64;
      i, n := i + 1, n - 1;
    }
    WindowAt(s, i, n, 0);
    DigitRunStep(w[i - i0..], base);
  }

  lemma EmptyNumber(base: nat)
    ensures Value([], base) == 0 && DigitVal('\0') < 0
  {
  }

  lemma DigitRunStep(s: seq<char>, base: nat)
    ensures DigitRun(s, base) ==
            if s != [] && 0 <= DigitVal(s[0]) < base then 1 + DigitRun(s[1..], base) else 0
  {
  }

  lemma ValueSnoc(w: seq<char>, k: nat, base: nat)
    requires k < |w| && 0 <= DigitVal(w[k])
    ensures Value(w[..k + 1], base) == Value(w[..k], base) * base + DigitVal(w[k])
  {
    assert w[..k + 1][..k] == w[..k];
  }

  method Strntoumax(s: CString, i0: nat, base0: nat, n0: nat) returns (v: nat, end: nat)
    requires i0 <= |s|
    ensures v == Parse(Window(s, i0, n0), base0).0
    ensures end == i0 + Parse(Window(s, i0, n0), base0).1
  {
    hide Window, Value, SpaceRun, DigitRun, Prefix, IsSpace;
    var i, n := SkipSpaces(s, i0, n0);
    ghost var w := Window(s, i0, n0);
    ghost var t := Window(s, i, n);
    WindowDrop(s, i0, n0, SpaceRun(w));
    var minus;
    minus, i, n := ReadSign(s, i, n);
    ghost var u := Window(s, i, n);
    ghost var i2 := i;
    var base;
    i, n, base := ReadPrefix(s, i, n, base0);
    WindowDrop(s, i2, i - i2 + n, i - i2);
    v, end := DigitLoop(s, i, base, n);
    assert ParseDigits(u, base0) == (v, end - i2);
    if minus {
      v := (TWO_64 - v) % TWO_64;
    }
  }

  method ReadSign(s: CString, i0: nat, n0: nat) returns (minus: bool, i: nat, n: nat)
    requires i0 <= |s|
    ensures i0 <= i <= |s| && i - i0 <= n0 && n == n0 - (i - i0) && (minus ==> i == i0 + 1)
    ensures var t := Window(s, i0, n0);
            && i == (if t != [] && IsSign(t[0]) then i0 + 1 else i0)
            && (i > i0 ==> minus == (t[0] == '-') && Window(s, i, n) == t[1..])
            && (i == i0 ==> !minus)
  {
    hide Window;
    minus, i, n := false, i0, n0;
    WindowAt(s, i, n, 0);
    if n > 0 {
      var c := At(s, i);
      if c == '-' || c == '+' {
        minus := c == '-';
        WindowDrop(s, i, n, 1);
        i, n := i + 1, n - 1;
      }
    }
  }
}
