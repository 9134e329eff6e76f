/** What the text of an integer looks like, character by character and in terms
    of numbers only: signs, prefixes, letters, digits, groups and padding. */
module IntLayout {
  import opened Arithmetic
  import opened CText
  import opened FormatInt
  import opened Strntoumax
  import opened IntRoundTrip

  function Pow(base: nat, k: nat): nat { if k == 0 then 1 else base * Pow(base, k - 1) }

  lemma ScaledBound(v: nat, q: nat, r: nat, base: nat, m: nat)
    requires Splits(v, q, r, base)
    ensures q < m ==> v < base * m
    ensures m <= q ==> base * m <= v
  {
    if q < m {
      MulLess(q, m, base);
    } else if m < q {
      MulLess(m, q, base);
    }
  }

  /** A number has `k` digits exactly when it lies between two powers. */
  lemma {:induction false} DigitsBetweenPowers(v: nat, base: nat)
    requires 2 <= base && v > 0
    ensures var k := CountDigits(v, base);
            k > 0 && Pow(base, k - 1) <= v < Pow(base, k)
    decreases v
  {
    hide Splits;
    var q, r := Divide(v, base);
    SplitsUnique(v, q, r, base);
    DivLess(v, base);
    CountMeans(v, base);
    var k := CountDigits(v, base);
    if q == 0 {
      CountMeans(0, base);
      BelowBase(v, q, r, base);
    } else {
      DigitsBetweenPowers(q, base);
      ScaledBound(v, q, r, base, Pow(base, k - 1));
      ScaledBound(v, q, r, base, Pow(base, k - 2));
    }
  }

  lemma BelowBase(v: nat, q: nat, r: nat, base: nat)
    requires Splits(v, q, r, base) && q == 0
    ensures v < base && Pow(base, 0) == 1 && Pow(base, 1) == base
  {
  }

  lemma Pow2Of64()
    ensures Pow2(64) == TWO_64
  {
    assert Pow2(8) == 0x100;
    Pow2Add(8, 8);
    Pow2Add(16, 16);
    Pow2Add(32, 32);
  }

  lemma {:induction false} CountBound(v: nat, base: nat, k: nat)
    requires (base == 8 || base == 10 || base == 16) && v < Pow2(k)
    ensures CountDigits(v, base) <= k
    decreases k
  {
    if v == 0 {
    } else {
      if base == 8 { assert v / 8 < Pow2(k - 1); }
      if base == 10 { assert v / 10 < Pow2(k - 1); }
      if base == 16 { assert v / 16 < Pow2(k - 1); }
      CountBound(v / base, base, k - 1);
    }
  }

  /** One case of letters, never both. */
  lemma DigitLetters(d: nat, upper: bool)
    requires d < 16
    ensures DigitChar(d, upper) == if upper then "0123456789ABCDEF"[d] else "0123456789abcdef"[d]
  {
  }

  ghost predicate InCase(s: seq<char>, upper: bool) {
    forall c :: c in s ==> if upper then c in "0123456789ABCDEF" else c in "0123456789abcdef"
  }

  lemma {:induction false} NumeralLetters(v: nat, base: nat, d: nat, upper: bool)
    requires 2 <= base <= 16
    ensures InCase(Numeral(v, base, d, upper), upper)
    decreases d
  {
    if d == 0 {
    } else {
      hide DigitChar, Numeral, Splits;
      var q, r := Divide(v, base);
      NumeralStep(v, q, r, base, d, upper);
      NumeralLetters(q, base, d - 1, upper);
      DigitLetters(r, upper);
    }
  }

  // ------------------------------------------------------------------- groups

  /** Counted from the right, every (skip + 1)-th character is an underscore and
      the others are the characters of `s` in order. */
  lemma {:induction false} TickedFromRight(s: seq<char>, skip: nat, k: nat)
    requires skip > 0 && |s| > 0 && k < |Ticked(s, skip)|
    ensures |Ticked(s, skip)| == |s| + (|s| - 1) / skip
    ensures k % (skip + 1) != skip ==> k / (skip + 1) <= k && k - k / (skip + 1) < |s|
    ensures Ticked(s, skip)[|Ticked(s, skip)| - 1 - k] ==
            if k % (skip + 1) == skip then '_' else s[|s| - 1 - (k - k / (skip + 1))]
    decreases |s|
  {
    TickedLength(s, skip);
    if |s| <= skip {
      SmallDiv(|s| - 1, skip);
      SmallDiv(k, skip + 1);
      ModUnique(k, skip + 1, 0, k);
    } else if k <= skip {
      SmallDiv(k, skip + 1);
      ModUnique(k, skip + 1, 0, k);
    } else {
      var t := s[..|s| - skip];
      var j := k - (skip + 1);
      TickedFromRight(t, skip, j);
      DivStep(j, skip + 1);
      ModMultiple(j, 1, skip + 1);
    }
  }

  // ------------------------------------------------------------------ the text

  /** The number alone: as many digits as value and precision need, at least one,
      and a leading zero for octal `#`; groups of three or, base 16, of four. */
  lemma NumberLayout(val: nat, f: Flags, base: nat, prec: int) returns (digits: seq<char>)
    requires val < TWO_64 && 2 <= base <= 16
    ensures NumberText(val, f, base, prec) ==
            if f.tick then Ticked(digits, if base == 16 then 4 else 3) else digits
    ensures var v := if f.signed && 0x8000_0000_0000_0000 <= val then 0x1_0000_0000_0000_0000 - val else val;
            var needed := CountDigits(v, base);
            && Value(digits, base) == v
            && |digits| == Max(1, Max(Max(needed, prec), if f.hash && base == 8 then needed + 1 else 0))
    ensures InCase(digits, f.upper)
  {
    var v := Magnitude(val, f);
    var d := DigitCount(v, f, base, prec);
    CountZero(v, base);
    hide Numeral, Ticked, CountDigits, Value, InCase, AllDigits;
    digits := Numeral(v, base, d, f.upper);
    ValueOfNumeral(v, base, d, f.upper);
    NumeralLetters(v, base, d, f.upper);
    NoTicks(digits);
  }

  /** The whole text: at most one kind of padding, as the flags ask, up to the
      width; a sign; a prefix; and the number. */
  lemma Layout(val: nat, f: Flags, base: nat, width: int, prec: int)
    returns (left: nat, sign: seq<char>, prefix: seq<char>, zeros: nat, number: seq<char>, right: nat)
    requires val < TWO_64 && 2 <= base <= 16
    ensures IntText(val, f, base, width, prec) ==
            Repeat(' ', left) + sign + prefix + Repeat('0', zeros) + number + Repeat(' ', right)
    ensures sign == if f.signed && 0x8000_0000_0000_0000 <= val then "-"
                    else if f.plus then "+" else if f.space then " " else ""
    ensures prefix == if f.hash && base == 16 then (if f.upper then "0X" else "0x") else ""
    ensures number == NumberText(val, f, base, prec)
    ensures var n := |sign| + |prefix| + |number|;
            left + zeros + right == if width > n then width - n else 0
    ensures left > 0 ==> !f.minus && !f.zero
    ensures zeros > 0 ==> !f.minus && f.zero
    ensures right > 0 ==> f.minus
  {
    var pad := PadCount(val, f, base, width, prec);
    sign, prefix, number := SignText(val, f), PrefixText(f, base), NumberText(val, f, base, prec);
    hide NumberText, IntText, Repeat;
    left := if pad > 0 && !f.minus && !f.zero then pad else 0;
    zeros := if pad > 0 && !f.minus && f.zero then pad else 0;
    right := if pad > 0 && f.minus then pad else 0;
    Pads(val, f, base, width, prec, pad, sign, prefix, number);
  }

  lemma CountZero(v: nat, base: nat)
    requires base >= 2
    ensures CountDigits(v, base) == 0 <==> v == 0
  {
  }

  lemma Pads(val: nat, f: Flags, base: nat, width: int, prec: int, pad: int,
             sign: seq<char>, prefix: seq<char>, number: seq<char>)
    requires val < TWO_64 && 2 <= base <= 16
    requires pad == PadCount(val, f, base, width, prec)
    requires sign == SignText(val, f) && prefix == PrefixText(f, base) && number == NumberText(val, f, base, prec)
    ensures var left: nat := if pad > 0 && !f.minus && !f.zero then pad else 0;
            var zeros: nat := if pad > 0 && !f.minus && f.zero then pad else 0;
            var right: nat := if pad > 0 && f.minus then pad else 0;
            IntText(val, f, base, width, prec) ==
            Repeat(' ', left) + sign + prefix + Repeat('0', zeros) + number + Repeat(' ', right)
  {
    hide PadCount, NumberText, SignText, PrefixText;
    IntTextParts(val, f, base, width, prec);
    assert Repeat(' ', pad) == Repeat(' ', if pad > 0 then pad else 0);
    assert Repeat('0', pad) == Repeat('0', if pad > 0 then pad else 0);
    assert Repeat(' ', 0) == [] && Repeat('0', 0) == [];
  }

  ghost predicate OneCase(s: seq<char>, upper: bool) {
    forall c :: c in s ==> if upper then !('a' <= c <= 'z') else !('A' <= c <= 'Z')
  }

  lemma OneCaseBoth(a: seq<char>, b: seq<char>, upper: bool)
    requires OneCase(a, upper) && OneCase(b, upper)
    ensures OneCase(a + b, upper)
  {
  }

  lemma RepeatCase(c: char, n: nat, upper: bool)
    requires c == ' ' || c == '0'
    ensures OneCase(Repeat(c, n), upper)
  {
  }

  lemma DigitsCase(digits: seq<char>, upper: bool)
    requires InCase(digits, upper)
    ensures OneCase(digits, upper)
  {
  }

  /** Only one case of letters in the whole text, prefix included. */
  lemma TextCase(val: nat, f: Flags, base: nat, width: int, prec: int)
    requires val < TWO_64 && 2 <= base <= 16
    ensures OneCase(IntText(val, f, base, width, prec), f.upper)
  {
    var left, sign, prefix, zeros, number, right := Layout(val, f, base, width, prec);
    assert OneCase(sign, f.upper) && OneCase(prefix, f.upper);
    var digits := NumberLayout(val, f, base, prec);
    DigitsCase(digits, f.upper);
    hide InCase, IntText, NumberText, Repeat, CountDigits, Value;
    if f.tick {
      TickedLetters(digits, if base == 16 then 4 else 3);
    }
    assert OneCase(number, f.upper);
    hide OneCase;
    RepeatCase(' ', left, f.upper);
    RepeatCase('0', zeros, f.upper);
    RepeatCase(' ', right, f.upper);
    OneCaseBoth(Repeat(' ', left), sign, f.upper);
    OneCaseBoth(Repeat(' ', left) + sign, prefix, f.upper);
    OneCaseBoth(Repeat(' ', left) + sign + prefix, Repeat('0', zeros), f.upper);
    OneCaseBoth(Repeat(' ', left) + sign + prefix + Repeat('0', zeros), number, f.upper);
    OneCaseBoth(Repeat(' ', left) + sign + prefix + Repeat('0', zeros) + number, Repeat(' ', right), f.upper);
  }

  lemma {:induction false} TickedLetters(s: seq<char>, skip: nat)
    requires skip > 0
    ensures forall c :: c in Ticked(s, skip) ==> c == '_' || c in s
    decreases |s|
  {
    if |s| <= skip {
    } else {
      TickedLetters(s[..|s| - skip], skip);
    }
  }

  /** Without groups the text needs no more than 67 characters, or the precision
      and three. */
  lemma NeededBound(val: nat, f: Flags, base: nat, prec: int)
    requires val < TWO_64 && (base == 8 || base == 10 || base == 16) && !f.tick
    ensures Needed(val, f, base, prec) <= 3 + Max(65, prec)
  {
    hide CountDigits, Value, InCase, Pow2, NumberText;
    var digits := NumberLayout(val, f, base, prec);
    var v := if f.signed && 0x8000_0000_0000_0000 <= val then 0x1_0000_0000_0000_0000 - val else val;
    Pow2Of64();
    CountBound(v, base, 64);
    assert |NumberText(val, f, base, prec)| <= Max(65, prec);
  }
}
