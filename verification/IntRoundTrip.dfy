/** format_int and strntoumax undo each other. */
module IntRoundTrip {
  import opened Arithmetic
  import opened CText
  import opened FormatInt
  import opened Strntoumax

  // ------------------------------------------------------- runs and values

  ghost predicate AllSpaces(s: seq<char>) { forall i :: 0 <= i < |s| ==> IsSpace(s[i]) }

  ghost predicate AllDigits(s: seq<char>, base: nat) {
    forall i :: 0 <= i < |s| ==> IsDigitOf(s[i], base)
  }

  lemma {:induction false} SpaceRunOf(a: seq<char>, x: seq<char>)
    requires AllSpaces(a) && (x == [] || !IsSpace(x[0]))
    ensures SpaceRun(a + x) == |a|
  {
    if a == [] {
      assert a + x == x;
    } else {
      assert (a + x)[1..] == a[1..] + x;
      SpaceRunOf(a[1..], x);
    }
  }

  lemma {:induction false} DigitRunOf(a: seq<char>, x: seq<char>, base: nat)
    requires AllDigits(a, base) && (x == [] || !IsDigitOf(x[0], base))
    ensures DigitRun(a + x, base) == |a|
  {
    if a == [] {
      assert a + x == x;
    } else {
      assert (a + x)[1..] == a[1..] + x;
      DigitRunOf(a[1..], x, base);
    }
  }

  lemma DigitsSnoc(t: seq<char>, c: char, base: nat)
    requires IsDigitOf(c, base)
    ensures Value(t + [c], base) == Value(t, base) * base + DigitVal(c)
    ensures AllDigits(t, base) ==> AllDigits(t + [c], base)
  {
    assert (t + [c])[..|t|] == t;
  }

  /** The rest of a number has one digit less. */
  lemma CountStep(v: nat, q: nat, r: nat, base: nat, d: nat)
    requires 2 <= base && d > 0 && Splits(v, q, r, base)
    ensures CountDigits(v, base) <= d ==> CountDigits(q, base) <= d - 1
    ensures d > 1 ==> (CountDigits(v, base) < d <==> CountDigits(q, base) < d - 1)
  {
    SplitsUnique(v, q, r, base);
    assert CountDigits(v, base) == if v == 0 then 0 else 1 + CountDigits(q, base);
    assert v == 0 ==> q == 0 && CountDigits(q, base) == 0;
  }

  lemma NumeralStep(v: nat, q: nat, r: nat, base: nat, d: nat, upper: bool)
    requires 2 <= base <= 16 && d > 0 && Splits(v, q, r, base)
    ensures r < 16
    ensures Numeral(v, base, d, upper) == Numeral(q, base, d - 1, upper) + [DigitChar(r, upper)]
  {
    SplitsUnique(v, q, r, base);
  }

  lemma ValueStep(n: seq<char>, v: nat, q: nat, r: nat, base: nat, upper: bool)
    requires 2 <= base <= 16 && Splits(v, q, r, base) && AllDigits(n, base) && Value(n, base) == q
    ensures r < 16
    ensures AllDigits(n + [DigitChar(r, upper)], base) && Value(n + [DigitChar(r, upper)], base) == v
  {
    hide Value, AllDigits;
    DigitsSnoc(n, DigitChar(r, upper), base);
  }

  /** Enough digits hold the value. */
  lemma {:induction false} ValueOfNumeral(v: nat, base: nat, d: nat, upper: bool)
    requires 2 <= base <= 16 && CountDigits(v, base) <= d
    ensures AllDigits(Numeral(v, base, d, upper), base)
    ensures Value(Numeral(v, base, d, upper), base) == v
    decreases d
  {
    if d == 0 {
    } else {
      hide Value, DigitChar, AllDigits, CountDigits, Numeral, Splits;
      var q, r := Divide(v, base);
      CountStep(v, q, r, base, d);
      NumeralStep(v, q, r, base, d, upper);
      ValueOfNumeral(q, base, d - 1, upper);
      ValueStep(Numeral(q, base, d - 1, upper), v, q, r, base, upper);
    }
  }

  lemma FirstOf(n: seq<char>, c: char)
    ensures (n + [c])[0] == if n == [] then c else n[0]
  {
  }

  lemma LoneDigit(v: nat, q: nat, r: nat, base: nat, upper: bool)
    requires 2 <= base <= 16 && Splits(v, q, r, base) && CountDigits(v, base) <= 1
    ensures r < 16 && (DigitChar(r, upper) == '0' <==> CountDigits(v, base) < 1)
  {
    SplitsUnique(v, q, r, base);
    assert v > 0 ==> CountDigits(v, base) == 1 + CountDigits(q, base) && q == 0;
  }

  /** A number has a leading zero exactly when it has digits to spare. */
  lemma {:induction false} LeadingDigit(v: nat, base: nat, d: nat, upper: bool)
    requires 2 <= base <= 16 && CountDigits(v, base) <= d && d > 0
    ensures Numeral(v, base, d, upper)[0] == '0' <==> CountDigits(v, base) < d
    decreases d
  {
    hide DigitChar, Numeral, CountDigits, Splits;
    var q, r := Divide(v, base);
    NumeralStep(v, q, r, base, d, upper);
    FirstOf(Numeral(q, base, d - 1, upper), DigitChar(r, upper));
    if d > 1 {
      CountStep(v, q, r, base, d);
      LeadingDigit(q, base, d - 1, upper);
    } else {
      LoneDigit(v, q, r, base, upper);
    }
  }

  lemma {:induction false} ValueAfterZeros(k: nat, s: seq<char>, base: nat)
    ensures Value(Repeat('0', k) + s, base) == Value(s, base)
    decreases |s|, k
  {
    var t := Repeat('0', k) + s;
    if s != [] {
      assert t[..|t| - 1] == Repeat('0', k) + s[..|s| - 1];
      ValueAfterZeros(k, s[..|s| - 1], base);
    } else if k > 0 {
      assert t == Repeat('0', k) && t[..|t| - 1] == Repeat('0', k - 1) + s;
      ValueAfterZeros(k - 1, s, base);
    }
  }

  // --------------------------------------------------------- shape of a text

  /** A base prefix, digits, and something that is no digit. */
  lemma DigitsShape(prefix: seq<char>, digits: seq<char>, tail: seq<char>, base: nat, b: nat)
    requires AllDigits(digits, b) && (tail == [] || !IsDigitOf(tail[0], b))
    requires Prefix(prefix + digits + tail, base) == (|prefix|, b)
    ensures ParseDigits(prefix + digits + tail, base) == (Value(digits, b) % TWO_64, |prefix| + |digits|)
  {
    hide DigitRun, Value, Prefix, DigitVal, AllDigits, IsDigitOf;
    DigitRunOf(digits, tail, b);
    Split(prefix, digits + tail);
    Split(digits, tail);
    Associate(prefix, digits, tail);
  }

  lemma Split(a: seq<char>, b: seq<char>)
    ensures (a + b)[..|a|] == a && (a + b)[|a|..] == b
  {
  }

  lemma Associate(a: seq<char>, b: seq<char>, c: seq<char>)
    ensures a + b + c == a + (b + c)
  {
  }

  lemma SignedShape(sign: seq<char>, u: seq<char>, base: nat)
    requires sign == "" || sign == "-" || sign == "+"
    requires u != [] && !IsSpace(u[0]) && !IsSign(u[0])
    ensures !IsSpace((sign + u)[0])
    ensures ParseSigned(sign + u, base) ==
            (if sign == "-" then Negated(ParseDigits(u, base).0) else ParseDigits(u, base).0,
             |sign| + ParseDigits(u, base).1)
  {
    hide ParseDigits, Negated;
    Split(sign, u);
    if sign == "" {
      assert sign + u == u;
    }
  }

  /** The same behind white space and perhaps a sign. */
  lemma SignShape(lead: seq<char>, sign: seq<char>, u: seq<char>, base: nat)
    requires AllSpaces(lead) && (sign == "" || sign == "-" || sign == "+")
    requires u != [] && !IsSpace(u[0]) && !IsSign(u[0])
    ensures Parse(lead + sign + u, base) ==
            (if sign == "-" then Negated(ParseDigits(u, base).0) else ParseDigits(u, base).0,
             |lead| + |sign| + ParseDigits(u, base).1)
  {
    SignedShape(sign, u, base);
    hide SpaceRun, ParseDigits, IsSpace, Negated, AllSpaces, IsSign, ParseSigned;
    SpaceRunOf(lead, sign + u);
    Associate(lead, sign, u);
    Split(lead, sign + u);
  }

  ghost function Lead(val: nat, f: Flags, base: nat, width: int, prec: int): seq<char>
    requires val < TWO_64 && 2 <= base <= 16
  {
    (if !f.minus && !f.zero then Repeat(' ', PadCount(val, f, base, width, prec)) else [])
    + (if !IsNegative(val, f) && !f.plus && f.space then " " else [])
  }

  ghost function Sign(val: nat, f: Flags): seq<char> {
    if IsNegative(val, f) then "-" else if f.plus then "+" else []
  }

  ghost function Zeros(val: nat, f: Flags, base: nat, width: int, prec: int): nat
    requires val < TWO_64 && 2 <= base <= 16
  {
    var pad := PadCount(val, f, base, width, prec);
    if f.zero && !f.minus && pad > 0 then pad else 0
  }

  ghost function Digits(val: nat, f: Flags, base: nat, width: int, prec: int): seq<char>
    requires val < TWO_64 && 2 <= base <= 16
  {
    Repeat('0', Zeros(val, f, base, width, prec)) + NumberText(val, f, base, prec)
  }

  ghost function Trail(val: nat, f: Flags, base: nat, width: int, prec: int): seq<char>
    requires val < TWO_64 && 2 <= base <= 16
  {
    if f.minus then Repeat(' ', PadCount(val, f, base, width, prec)) else []
  }

  lemma SignParts(val: nat, f: Flags)
    ensures SignText(val, f) == (if !IsNegative(val, f) && !f.plus && f.space then " " else []) + Sign(val, f)
  {
  }

  lemma ZeroParts(val: nat, f: Flags, base: nat, width: int, prec: int)
    requires val < TWO_64 && 2 <= base <= 16
    ensures (if f.zero && !f.minus then Repeat('0', PadCount(val, f, base, width, prec)) else "")
         == Repeat('0', Zeros(val, f, base, width, prec))
  {
    hide PadCount;
  }

  /** The text of an integer in the parts that a reader meets. */
  lemma TextShape(val: nat, f: Flags, base: nat, width: int, prec: int)
    requires val < TWO_64 && 2 <= base <= 16
    ensures IntText(val, f, base, width, prec) ==
            Lead(val, f, base, width, prec) + Sign(val, f) + PrefixText(f, base)
            + Digits(val, f, base, width, prec) + Trail(val, f, base, width, prec)
  {
    hide NumberText, PrefixText, PadCount, SignText, Sign, Repeat, Zeros, IsNegative;
    SignParts(val, f);
    ZeroParts(val, f, base, width, prec);
    var pad := if !f.minus && !f.zero then Repeat(' ', PadCount(val, f, base, width, prec)) else [];
    var space := if !IsNegative(val, f) && !f.plus && f.space then " " else [];
    var zeros := Repeat('0', Zeros(val, f, base, width, prec));
    Associate(pad, space, Sign(val, f));
    Associate(pad + SignText(val, f) + PrefixText(f, base), zeros, NumberText(val, f, base, prec));
  }

  /** Without ticks the digits stand for the magnitude. */
  lemma DigitsValue(val: nat, f: Flags, base: nat, width: int, prec: int)
    requires val < TWO_64 && 2 <= base <= 16 && !f.tick
    ensures var ds := Digits(val, f, base, width, prec);
            && |ds| > 0 && AllDigits(ds, base) && Value(ds, base) == Magnitude(val, f)
            && ds[0] !in "+-" && !IsSpace(ds[0])
  {
    hide PadCount, Ticked, Numeral, CountDigits, DigitCount, Value, DigitVal, IsSpace;
    var v := Magnitude(val, f);
    var d := DigitCount(v, f, base, prec);
    var z := Zeros(val, f, base, width, prec);
    var n := Numeral(v, base, d, f.upper);
    NoTicks(n);
    ValueOfNumeral(v, base, d, f.upper);
    ValueAfterZeros(z, n, base);
    ZerosThenDigits(z, n, base);
  }

  lemma NoTicks(s: seq<char>)
    requires |s| > 0
    ensures Ticked(s, |s|) == s
  {
  }

  lemma ZerosThenDigits(z: nat, n: seq<char>, base: nat)
    requires |n| > 0 && AllDigits(n, base) && 2 <= base
    ensures var ds := Repeat('0', z) + n;
            AllDigits(ds, base) && ds[0] !in "+-" && !IsSpace(ds[0])
  {
    assert IsDigitOf(n[0], base);
  }

  lemma LeadAndSign(val: nat, f: Flags, base: nat, width: int, prec: int)
    requires val < TWO_64 && 2 <= base <= 16
    ensures AllSpaces(Lead(val, f, base, width, prec))
    ensures var sign := Sign(val, f); sign == "" || sign == "-" || sign == "+"
  {
    hide PadCount;
  }

  /** What strntoumax meets after the sign. */
  ghost function Body(val: nat, f: Flags, base: nat, width: int, prec: int, tail: seq<char>): seq<char>
    requires val < TWO_64 && 2 <= base <= 16
  {
    PrefixText(f, base) + Digits(val, f, base, width, prec) + (Trail(val, f, base, width, prec) + tail)
  }

  lemma NoDigitAfter(val: nat, f: Flags, base: nat, width: int, prec: int, tail: seq<char>)
    requires val < TWO_64 && 2 <= base <= 16 && (tail == [] || DigitVal(tail[0]) < 0)
    ensures var rest := Trail(val, f, base, width, prec) + tail; rest == [] || DigitVal(rest[0]) < 0
  {
    hide PadCount;
  }

  lemma SignUndone(val: nat, f: Flags)
    requires val < TWO_64
    ensures (if Sign(val, f) == "-" then Negated(Magnitude(val, f) % TWO_64) else Magnitude(val, f) % TWO_64) == val
  {
  }

  /** Reading the text back with any base whose prefix rule takes `k` characters
      and leaves base `b`: the digits up to `m` count. */
  lemma ReadBack(val: nat, f: Flags, base: nat, width: int, prec: int, tail: seq<char>,
                 base0: nat, b: nat, k: nat, m: nat)
    requires val < TWO_64 && 2 <= base <= 16 && !f.tick && (tail == [] || DigitVal(tail[0]) < 0)
    requires k <= m <= |PrefixText(f, base)| + |Digits(val, f, base, width, prec)|
    requires Prefix(Body(val, f, base, width, prec, tail), base0) == (k, b)
    requires var pd := PrefixText(f, base) + Digits(val, f, base, width, prec);
             AllDigits(pd[k..m], b) && (m < |pd| ==> !IsDigitOf(pd[m], b))
    ensures var x := Value((PrefixText(f, base) + Digits(val, f, base, width, prec))[k..m], b) % TWO_64;
            Parse(IntText(val, f, base, width, prec) + tail, base0) ==
            (if Sign(val, f) == "-" then Negated(x) else x,
             |Lead(val, f, base, width, prec)| + |Sign(val, f)| + m)
  {
    hide Lead, Sign, PrefixText, Digits, Trail, IntText, Parse, ParseDigits, Value, Prefix, Negated, AllDigits,
         AllSpaces, IsSpace, DigitVal;
    var lead, sign := Lead(val, f, base, width, prec), Sign(val, f);
    var prefix, digits := PrefixText(f, base), Digits(val, f, base, width, prec);
    var rest := Trail(val, f, base, width, prec) + tail;
    var u := Body(val, f, base, width, prec, tail);
    LeadAndSign(val, f, base, width, prec);
    DigitsValue(val, f, base, width, prec);
    NoDigitAfter(val, f, base, width, prec, tail);
    TextShape(val, f, base, width, prec);
    FirstOfBody(f, base, digits, rest);
    assert IntText(val, f, base, width, prec) + tail == lead + sign + u;
    SignShape(lead, sign, u, base0);
    var pd := prefix + digits;
    Regroup(pd, rest, k, m);
    DigitsShape(pd[..k], pd[k..m], pd[m..] + rest, base0, b);
  }

  lemma Regroup(s: seq<char>, rest: seq<char>, k: nat, m: nat)
    requires k <= m <= |s|
    ensures s + rest == s[..k] + s[k..m] + (s[m..] + rest)
    ensures m < |s| ==> s[m..] + rest != [] && (s[m..] + rest)[0] == s[m]
    ensures m == |s| ==> s[m..] + rest == rest
  {
  }

  lemma FirstOfBody(f: Flags, base: nat, digits: seq<char>, rest: seq<char>)
    requires |digits| > 0 && digits[0] !in "+-" && !IsSpace(digits[0])
    ensures var u := PrefixText(f, base) + digits + rest;
            u != [] && !IsSpace(u[0]) && !IsSign(u[0])
  {
  }

  /** For every 64-bit value, base, width, precision and flags other than the
      tick, reading the text in its own base gives the value back. The reading
      stops at the end of the digits. */
  lemma OwnBase(val: nat, f: Flags, base: nat, width: int, prec: int, tail: seq<char>)
    requires val < TWO_64 && (base == 8 || base == 10 || base == 16) && !f.tick
    requires tail == [] || DigitVal(tail[0]) < 0
    ensures var r := Parse(IntText(val, f, base, width, prec) + tail, base);
            && r.0 == val
            && r.1 == |IntText(val, f, base, width, prec)| - |Trail(val, f, base, width, prec)|
  {
    hide Lead, Sign, PrefixText, Digits, Trail, IntText, Parse, Value, Prefix, Negated, AllDigits, DigitVal,
         IsSpace, Magnitude;
    var prefix, digits := PrefixText(f, base), Digits(val, f, base, width, prec);
    DigitsValue(val, f, base, width, prec);
    NoDigitAfter(val, f, base, width, prec, tail);
    TextShape(val, f, base, width, prec);
    OwnPrefix(f, base, digits, Trail(val, f, base, width, prec) + tail);
    assert (prefix + digits)[|prefix|..|prefix + digits|] == digits;
    ReadBack(val, f, base, width, prec, tail, base, base, |prefix|, |prefix + digits|);
    SignUndone(val, f);
  }

  lemma OwnPrefix(f: Flags, base: nat, digits: seq<char>, rest: seq<char>)
    requires base == 8 || base == 10 || base == 16
    requires |digits| > 0 && AllDigits(digits, base) && (rest == [] || DigitVal(rest[0]) < 0)
    ensures Prefix(PrefixText(f, base) + digits + rest, base) == (|PrefixText(f, base)|, base)
  {
    var u := digits + rest;
    if base == 16 {
      assert |digits| > 1 ==> IsDigitOf(digits[1], base);
      assert !HexPrefix(u);
      assert "" + digits + rest == u;
    }
  }

  // ------------------------------------------------------------------ base 0

  /** Decimal digits read as octal: the same number below 8, else a smaller one. */
  lemma {:induction false} OctalOfDecimal(s: seq<char>)
    requires AllDigits(s, 10)
    ensures var r := DigitRun(s, 8);
            if Value(s, 10) < 8 then r == |s| && Value(s, 8) == Value(s, 10)
            else Value(s[..r], 8) < Value(s, 10)
  {
    if s == [] {
    } else {
      var t, c := s[..|s| - 1], s[|s| - 1];
      assert s == t + [c] && IsDigitOf(c, 10);
      hide DigitRun, Value, DigitVal;
      OctalOfDecimal(t);
      RunSnoc(t, c, 8);
      OctalBound(t);
      DigitsSnoc(t, c, 10);
      if IsDigitOf(c, 8) {
        DigitsSnoc(t, c, 8);
      }
      SnocPrefix(t, c, DigitRun(t, 8));
    }
  }

  lemma SnocPrefix(t: seq<char>, c: char, r: nat)
    requires r <= |t|
    ensures (t + [c])[..r] == t[..r] && t[..|t|] == t && (t + [c])[..|t| + 1] == t + [c]
  {
  }

  lemma {:induction false} OctalBound(s: seq<char>)
    requires AllDigits(s, 10)
    ensures Value(s, 8) <= Value(s, 10)
  {
    if s == [] {
    } else {
      OctalBound(s[..|s| - 1]);
    }
  }

  lemma {:induction false} RunSnoc(t: seq<char>, c: char, base: nat)
    ensures DigitRun(t + [c], base) ==
            if DigitRun(t, base) < |t| then DigitRun(t, base) else if IsDigitOf(c, base) then |t| + 1 else |t|
  {
    if t == [] {
      assert t + [c] == [c];
    } else {
      assert (t + [c])[1..] == t[1..] + [c];
      RunSnoc(t[1..], c, base);
    }
  }

  lemma {:induction false} RunAll(s: seq<char>, base: nat)
    ensures AllDigits(s[..DigitRun(s, base)], base)
    ensures DigitRun(s, base) < |s| ==> !IsDigitOf(s[DigitRun(s, base)], base)
  {
    if s == [] || !IsDigitOf(s[0], base) {
    } else {
      RunAll(s[1..], base);
    }
  }

  /** A leading zero adds nothing in any base. */
  lemma ZeroInFront(s: seq<char>, base: nat)
    requires |s| > 0 && s[0] == '0'
    ensures Value(s, base) == Value(s[1..], base)
  {
    ValueAfterZeros(1, s[1..], base);
    assert Repeat('0', 1) + s[1..] == s;
  }

  lemma PrefixZero(f: Flags, base: nat, digits: seq<char>, rest: seq<char>)
    requires 2 <= base <= 16 && |digits| > 0 && AllDigits(digits, base) && (rest == [] || DigitVal(rest[0]) < 0)
    ensures var r := Prefix(PrefixText(f, base) + digits + rest, 0);
            && (base == 16 && f.hash ==> r == (2, 16))
            && (base < 16 && digits[0] == '0' ==> r == (1, 8))
            && (base < 16 && digits[0] != '0' ==> r == (0, 10))
  {
    if base < 16 {
      var u := digits + rest;
      assert |digits| > 1 ==> IsDigitOf(digits[1], base);
      assert "" + digits + rest == u;
    }
  }

  lemma OctalLeadsWithZero(val: nat, f: Flags, width: int, prec: int)
    requires val < TWO_64 && f.hash && !f.tick
    ensures |Digits(val, f, 8, width, prec)| > 0 && Digits(val, f, 8, width, prec)[0] == '0'
  {
    hide PadCount, Ticked, Numeral, CountDigits;
    var v := Magnitude(val, f);
    var d := DigitCount(v, f, 8, prec);
    NoTicks(Numeral(v, 8, d, f.upper));
    LeadingDigit(v, 8, d, f.upper);
  }

  /** The arguments of a decimal print that ask for zeros in front: a precision
      beyond the digits, or zero padding beyond sign and digits. */
  predicate PadsWithZeros(val: nat, f: Flags, width: int, prec: int)
    requires val < TWO_64
  {
    var digits := CountDigits(Magnitude(val, f), 10);
    prec > digits || (f.zero && !f.minus && width > |SignText(val, f)| + Max(prec, digits))
  }

  lemma DecimalLeadsWithZero(val: nat, f: Flags, width: int, prec: int)
    requires val < TWO_64 && !f.tick && 0 < Magnitude(val, f)
    ensures var digits := Digits(val, f, 10, width, prec);
            |digits| > 0 && (digits[0] == '0' <==> PadsWithZeros(val, f, width, prec))
  {
    var v := Magnitude(val, f);
    var d := DigitCount(v, f, 10, prec);
    NoTicks(Numeral(v, 10, d, f.upper));
    LeadingDigit(v, 10, d, f.upper);
    assert CountDigits(v, 10) > 0;
    hide Ticked, Numeral, CountDigits, Magnitude, SignText;
  }

  /** Eight with zero padding to width 2 is read back as 0. */
  lemma OctalTrap()
    ensures IntText(8, NO_FLAGS.(zero := true), 10, 2, -1) == "08"
    ensures Parse("08", 0) == (0, 1)
  {
    var f := NO_FLAGS.(zero := true);
    assert CountDigits(8, 10) == 1;
    assert Numeral(8, 10, 1, false) == "8";
    NoTicks("8");
    assert NumberText(8, f, 10, -1) == "8";
    assert Repeat('0', 1) == "0";
    OctalEight();
    hide Parse, Ticked, Numeral, CountDigits;
  }

  lemma OctalEight()
    ensures Parse("08", 0) == (0, 1)
  {
    assert SpaceRun("08") == 0 && "08"[0..] == "08";
    assert "08"[1..] == "8" && DigitRun("8", 8) == 0;
  }

  /** With base 0 the text of `#` octal and `#` hexadecimal is read back for
      every value; decimal text exactly when its arguments ask for no zeros in
      front or the magnitude is below 8. */
  lemma BaseZero(val: nat, f: Flags, base: nat, width: int, prec: int, tail: seq<char>)
    requires val < TWO_64 && !f.tick && (tail == [] || DigitVal(tail[0]) < 0)
    requires base == 10 || ((base == 8 || base == 16) && f.hash)
    ensures Parse(IntText(val, f, base, width, prec) + tail, 0).0 == val <==>
            base != 10 || Magnitude(val, f) < 8 || !PadsWithZeros(val, f, width, prec)
    ensures var r := Parse(IntText(val, f, base, width, prec) + tail, 0);
            r.0 == val ==> r.1 == |IntText(val, f, base, width, prec)| - |Trail(val, f, base, width, prec)|
  {
    hide Lead, Sign, PrefixText, Digits, Trail, IntText, Parse, Value, Prefix, Negated, AllDigits, DigitVal,
         IsSpace, Magnitude, DigitRun, PadsWithZeros;
    var prefix, digits := PrefixText(f, base), Digits(val, f, base, width, prec);
    DigitsValue(val, f, base, width, prec);
    NoDigitAfter(val, f, base, width, prec, tail);
    PrefixZero(f, base, digits, Trail(val, f, base, width, prec) + tail);
    PrefixLength(f, base);
    if base == 10 && 8 <= Magnitude(val, f) {
      DecimalLeadsWithZero(val, f, width, prec);
    }
    TextShape(val, f, base, width, prec);
    SignUndone(val, f);
    var pd := prefix + digits;
    if base == 16 {
      Split(prefix, digits);
      assert pd[2..|pd|] == digits;
      ReadBack(val, f, base, width, prec, tail, 0, 16, 2, |pd|);
    } else if digits[0] != '0' {
      assert base == 10 by { if base == 8 { OctalLeadsWithZero(val, f, width, prec); } }
      assert pd[0..|pd|] == digits;
      ReadBack(val, f, base, width, prec, tail, 0, 10, 0, |pd|);
    } else {
      OctalReading(val, f, base, width, prec, tail);
    }
  }

  lemma PrefixLength(f: Flags, base: nat)
    ensures PrefixText(f, base) == [] || |PrefixText(f, base)| == 2
    ensures (base == 16 && f.hash) <==> |PrefixText(f, base)| == 2
  {
  }

  lemma TailDigits(ds: seq<char>, base: nat)
    requires |ds| > 0 && AllDigits(ds, base)
    ensures AllDigits(ds[1..], base)
  {
  }

  /** A leading zero makes base 0 read octal, up to the first 8 or 9. */
  lemma OctalParse(val: nat, f: Flags, base: nat, width: int, prec: int, tail: seq<char>)
    requires val < TWO_64 && !f.tick && (tail == [] || DigitVal(tail[0]) < 0)
    requires base == 10 || base == 8
    requires var digits := Digits(val, f, base, width, prec); |digits| > 0 && digits[0] == '0'
    ensures var t := Digits(val, f, base, width, prec)[1..];
            var x := Value(t[..DigitRun(t, 8)], 8) % TWO_64;
            Parse(IntText(val, f, base, width, prec) + tail, 0) ==
            (if Sign(val, f) == "-" then Negated(x) else x,
             |Lead(val, f, base, width, prec)| + |Sign(val, f)| + 1 + DigitRun(t, 8))
  {
    hide Lead, Sign, PrefixText, Digits, Trail, IntText, Parse, Value, Prefix, Negated, AllDigits, DigitVal,
         IsSpace, DigitRun;
    var prefix, digits := PrefixText(f, base), Digits(val, f, base, width, prec);
    DigitsValue(val, f, base, width, prec);
    NoDigitAfter(val, f, base, width, prec, tail);
    PrefixZero(f, base, digits, Trail(val, f, base, width, prec) + tail);
    PrefixLength(f, base);
    assert prefix + digits == digits;
    var t := digits[1..];
    var r := DigitRun(t, 8);
    RunAll(t, 8);
    assert digits[1..r + 1] == t[..r] && (r < |t| ==> digits[r + 1] == t[r]);
    ReadBack(val, f, base, width, prec, tail, 0, 8, 1, r + 1);
  }

  lemma OctalReading(val: nat, f: Flags, base: nat, width: int, prec: int, tail: seq<char>)
    requires val < TWO_64 && !f.tick && (tail == [] || DigitVal(tail[0]) < 0)
    requires base == 10 || base == 8
    requires var digits := Digits(val, f, base, width, prec); |digits| > 0 && digits[0] == '0'
    ensures Parse(IntText(val, f, base, width, prec) + tail, 0).0 == val <==> base == 8 || Magnitude(val, f) < 8
    ensures var r := Parse(IntText(val, f, base, width, prec) + tail, 0);
            r.0 == val ==> r.1 == |IntText(val, f, base, width, prec)| - |Trail(val, f, base, width, prec)|
  {
    hide Lead, Sign, PrefixText, Digits, Trail, IntText, Parse, Value, Prefix, Negated, AllDigits, DigitVal,
         IsSpace, Magnitude, DigitRun;
    var digits := Digits(val, f, base, width, prec);
    OctalParse(val, f, base, width, prec, tail);
    DigitsValue(val, f, base, width, prec);
    PrefixLength(f, base);
    TextShape(val, f, base, width, prec);
    TailDigits(digits, base);
    var t := digits[1..];
    ZeroInFront(digits, base);
    if base == 8 {
      OctalRun(t);
    } else {
      OctalOfDecimal(t);
    }
    assert t[..|t|] == t;
    SignedReading(val, f, Value(t[..DigitRun(t, 8)], 8));
  }

  lemma OctalRun(s: seq<char>)
    requires AllDigits(s, 8)
    ensures DigitRun(s, 8) == |s|
  {
    DigitRunOf(s, [], 8);
    assert s + [] == s;
  }

  /** The sign is undone exactly when the magnitude was read right. */
  lemma SignedReading(val: nat, f: Flags, x: nat)
    requires val < TWO_64 && x <= Magnitude(val, f)
    ensures (if Sign(val, f) == "-" then Negated(x % TWO_64) else x % TWO_64) == val <==> x == Magnitude(val, f)
  {
  }
}
