/** format_int: the text of an integer, and the code that writes it from right
    to left into a buffer that may be too short. */
module FormatInt {
  import opened Arithmetic
  import opened CText
  import opened Output

  datatype Flags = Flags(zero: bool, minus: bool, plus: bool, tick: bool,
                         space: bool, hash: bool, signed: bool, upper: bool)

  const NO_FLAGS: Flags := Flags(false, false, false, false, false, false, false, false)

  function Max(a: int, b: int): int { if a < b then b else a }

  // ------------------------------------------------------ the text of an integer

  predicate IsNegative(val: nat, f: Flags) { f.signed && TWO_63 <= val }

  function Magnitude(val: nat, f: Flags): nat
    requires val < TWO_64
  {
    if IsNegative(val, f) then TWO_64 - val else val
  }

  /** Digits needed for `v`; none for 0. */
  function CountDigits(v: nat, base: nat): nat
    requires base >= 2
  {
    if v == 0 then 0 else 1 + CountDigits(v / base, base)
  }

  /** Digits written, after precision, the octal `#` rule and the lone zero. */
  function DigitCount(v: nat, f: Flags, base: nat, prec: int): (d: nat)
    requires base >= 2
    ensures d >= 1 && CountDigits(v, base) <= d
  {
    var needed := CountDigits(v, base);
    var p := if f.hash && base == 8 then Max(prec, needed + 1) else prec;
    if needed < p then p else if v == 0 then 1 else needed
  }

  function Numeral(v: nat, base: nat, d: nat, upper: bool): (s: seq<char>)
    requires 2 <= base <= 16
    ensures |s| == d
  {
    if d == 0 then [] else Numeral(v / base, base, d - 1, upper) + [DigitChar(v % base, upper)]
  }

  /** An underscore in front of every full group of `skip` characters, counted
      from the right. */
  function Ticked(s: seq<char>, skip: nat): seq<char>
    requires skip > 0
    decreases |s|
  {
    if |s| <= skip then s else Ticked(s[..|s| - skip], skip) + ['_'] + s[|s| - skip..]
  }

  function TickSkip(f: Flags, base: nat, digits: nat): (skip: nat)
    requires digits > 0
    ensures skip > 0
  {
    if f.tick then if base == 16 then 4 else 3 else digits
  }

  function NumberText(val: nat, f: Flags, base: nat, prec: int): seq<char>
    requires val < TWO_64 && 2 <= base <= 16
  {
    var v := Magnitude(val, f);
    var d := DigitCount(v, f, base, prec);
    Ticked(Numeral(v, base, d, f.upper), TickSkip(f, base, d))
  }

  function SignText(val: nat, f: Flags): seq<char> {
    if IsNegative(val, f) then "-" else if f.plus then "+" else if f.space then " " else ""
  }

  function PrefixText(f: Flags, base: nat): seq<char> {
    if f.hash && base == 16 then (if f.upper then "0X" else "0x") else ""
  }

  /** Characters of sign, prefix and number. */
  function Needed(val: nat, f: Flags, base: nat, prec: int): nat
    requires val < TWO_64 && 2 <= base <= 16
  {
    |SignText(val, f)| + |PrefixText(f, base)| + |NumberText(val, f, base, prec)|
  }

  /** Padding that brings sign, prefix and number up to `width`. */
  function PadCount(val: nat, f: Flags, base: nat, width: int, prec: int): int
    requires val < TWO_64 && 2 <= base <= 16
  {
    width - Needed(val, f, base, prec)
  }

  function IntText(val: nat, f: Flags, base: nat, width: int, prec: int): seq<char>
    requires val < TWO_64 && 2 <= base <= 16
  {
    var pad := PadCount(val, f, base, width, prec);
    (if !f.minus && !f.zero then Repeat(' ', pad) else "")
    + SignText(val, f) + PrefixText(f, base)
    + (if f.zero && !f.minus then Repeat('0', pad) else "")
    + NumberText(val, f, base, prec)
    + (if f.minus then Repeat(' ', pad) else "")
  }

  /** The field is as wide as asked, or as wide as it must be. */
  lemma IntTextWidth(val: nat, f: Flags, base: nat, width: int, prec: int)
    requires val < TWO_64 && 2 <= base <= 16
    ensures |IntText(val, f, base, width, prec)| == Max(width, Needed(val, f, base, prec))
  {
  }

  // ------------------------------------------------------------ right to left

  /** The characters still to be written when `d` digits of `v` remain and the
      next underscore comes after `b4tick` of them. */
  function Remaining(v: nat, base: nat, d: nat, b4tick: nat, skip: nat, upper: bool): seq<char>
    requires 2 <= base <= 16 && skip > 0
    decreases d
  {
    if d == 0 then []
    else if b4tick == 0 then
      Remaining(v / base, base, d - 1, skip - 1, skip, upper) + [DigitChar(v % base, upper)] + ['_']
    else
      Remaining(v / base, base, d - 1, b4tick - 1, skip, upper) + [DigitChar(v % base, upper)]
  }

  /** `s` with the first underscore `b` characters from the right. */
  function Cut(s: seq<char>, b: nat, skip: nat): seq<char>
    requires skip > 0
  {
    if |s| <= b then s else Ticked(s[..|s| - b], skip) + ['_'] + s[|s| - b..]
  }

  lemma CutEmpty(b: nat, skip: nat)
    requires skip > 0
    ensures Cut([], b, skip) == []
  {
  }

  lemma CutSnoc(t: seq<char>, c: char, b: nat, skip: nat)
    requires skip > 0 && b > 0
    ensures Cut(t + [c], b, skip) == Cut(t, b - 1, skip) + [c]
  {
    var s := t + [c];
    if |s| > b {
      assert s[..|s| - b] == t[..|t| - (b - 1)];
      assert s[|s| - b..] == t[|t| - (b - 1)..] + [c];
    }
  }

  lemma CutZero(s: seq<char>, skip: nat)
    requires skip > 0 && |s| > 0
    ensures Cut(s, 0, skip) == Cut(s, skip, skip) + ['_']
  {
    assert s[..|s|] == s && s[|s|..] == [];
  }

  /** Counting down to the next underscore from the right gives the grouping
      that is defined from the right. */
  lemma {:induction false} RemainingIsCut(v: nat, base: nat, d: nat, b: nat, skip: nat, upper: bool)
    requires 2 <= base <= 16 && skip > 0 && b <= skip
    ensures Remaining(v, base, d, b, skip, upper) == Cut(Numeral(v, base, d, upper), b, skip)
    decreases d
  {
    hide Cut, DigitChar;
    if d == 0 {
      CutEmpty(b, skip);
    } else {
      var t, c := Numeral(v / base, base, d - 1, upper), DigitChar(v % base, upper);
      if b == 0 {
        RemainingIsCut(v / base, base, d - 1, skip - 1, skip, upper);
        CutSnoc(t, c, skip, skip);
        CutZero(t + [c], skip);
      } else {
        RemainingIsCut(v / base, base, d - 1, b - 1, skip, upper);
        CutSnoc(t, c, b, skip);
      }
    }
  }

  lemma NumberIsRemaining(val: nat, f: Flags, base: nat, prec: int)
    requires val < TWO_64 && 2 <= base <= 16
    ensures var v := Magnitude(val, f);
            var d := DigitCount(v, f, base, prec);
            var skip := TickSkip(f, base, d);
            && NumberText(val, f, base, prec) == Remaining(v, base, d, skip, skip, f.upper)
            && |NumberText(val, f, base, prec)| == d + (d - 1) / skip
  {
    var v := Magnitude(val, f);
    var d := DigitCount(v, f, base, prec);
    var skip := TickSkip(f, base, d);
    RemainingIsCut(v, base, d, skip, skip, f.upper);
    TickedLength(Numeral(v, base, d, f.upper), skip);
  }

  /** D digits in groups of `skip` take (D - 1) / skip underscores. */
  lemma {:induction false} TickedLength(s: seq<char>, skip: nat)
    requires skip > 0 && |s| > 0
    ensures |Ticked(s, skip)| == |s| + (|s| - 1) / skip
    decreases |s|
  {
    if |s| <= skip {
      SmallDiv(|s| - 1, skip);
    } else {
      TickedLength(s[..|s| - skip], skip);
      DivStep(|s| - skip - 1, skip);
    }
  }

  // --------------------------------------------------------------- the code

  /** `out` and the end of `text` are in place; `left` characters of `text` are
      still missing. */
  ghost predicate Gap(now: seq<char>, was: seq<char>, at: nat, n: nat, out: seq<char>, text: seq<char>, left: nat) {
    && |now| == |was| && left <= |text|
    && forall k :: 0 <= k < |now| ==>
         now[k] == if at <= k < at + n && k - at < |out| then out[k - at]
                   else if at <= k < at + n && |out| + left <= k - at < |out| + |text| then text[k - at - |out|]
                   else was[k]
  }

  /** `*qq = c`, if there is room for character `oo`. */
  method PutBack(buf: array<char>, qq: int, oo: nat, n: nat, c: char,
                 ghost was: seq<char>, ghost at: nat, ghost out: seq<char>, ghost text: seq<char>)
    requires n > 0 ==> at + n <= buf.Length
    requires |out| <= oo < |out| + |text| && c == text[oo - |out|]
    requires |out| <= n ==> qq == at + oo
    requires Gap(buf[..], was, at, n, out, text, oo - |out| + 1)
    modifies buf
    ensures Gap(buf[..], was, at, n, out, text, oo - |out|)
  {
    if oo < n {
      buf[qq] := c;
    }
  }

  /** The right-to-left loop. It writes nothing to the left of its field, and
      `ndigits` ends at exactly 0. */
  method WriteDigits(buf: array<char>, q: nat, o: nat, n: nat, val: nat, base: nat, digits: nat,
                     tickskip: nat, upper: bool, ghost d: nat,
                     ghost was: seq<char>, ghost at: nat, ghost out: seq<char>)
    returns (q': nat, o': nat)
    requires Cursor(buf, was, at, n, q, o, out)
    requires 2 <= base <= 16 && tickskip > 0
    requires digits == |Remaining(val, base, d, tickskip, tickskip, upper)|
    modifies buf
    ensures Cursor(buf, was, at, n, q', o', out + Remaining(val, base, d, tickskip, tickskip, upper))
  {
    hide Remaining, Gap, DigitChar, Splits;
    ghost var text := Remaining(val, base, d, tickskip, tickskip, upper);
    q', o' := q + digits, o + digits;
    var qq: int, oo: nat, ndigits: nat, v: nat, b4tick: nat := q', o', digits, val, tickskip;
    ghost var left: nat := d;
    assert text[..digits] == text;
    GapStart(buf, was, at, n, q, o, out, text);
    while ndigits > 0
      invariant ndigits <= digits && oo == o + ndigits && b4tick <= tickskip
      invariant o <= n ==> qq == at + oo
      invariant text[..ndigits] == Remaining(v, base, left, b4tick, tickskip, upper)
      invariant Gap(buf[..], was, at, n, out, text, ndigits)
    {
      ghost var quot, rem := Divide(v, base);
      if b4tick == 0 {
        LastTick(text, ndigits, v, quot, rem, base, left, tickskip, upper);
        qq, oo, ndigits := qq - 1, oo - 1, ndigits - 1;
        PutBack(buf, qq, oo, n, '_', was, at, out, text);
        b4tick := tickskip - 1;
      } else {
        LastDigit(text, ndigits, v, quot, rem, base, left, b4tick, tickskip, upper);
        b4tick := b4tick - 1;
      }
      qq, oo, ndigits := qq - 1, oo - 1, ndigits - 1;
      SplitsUnique(v, quot, rem, base);
      PutBack(buf, qq, oo, n, DigitChar(v % base, upper), was, at, out, text);
      v := v / base;
      left := left - 1;
    }
    GapEnd(buf, was, at, n, q', o', out, text);
  }

  lemma GapStart(buf: array<char>, was: seq<char>, at: nat, n: nat, q: nat, o: nat, out: seq<char>, text: seq<char>)
    requires Cursor(buf, was, at, n, q, o, out)
    ensures Gap(buf[..], was, at, n, out, text, |text|)
  {
  }

  lemma GapEnd(buf: array<char>, was: seq<char>, at: nat, n: nat, q: nat, o: nat, out: seq<char>, text: seq<char>)
    requires Gap(buf[..], was, at, n, out, text, 0) && (n > 0 ==> at + n <= buf.Length)
    requires o == |out| + |text| && (|out| <= n ==> q == at + o)
    ensures Cursor(buf, was, at, n, q, o, out + text)
  {
  }

  /** What the loop takes off the end of the remaining text. */
  lemma LastDigit(text: seq<char>, k: nat, v: nat, q: nat, r: nat, base: nat, d: nat, b: nat, skip: nat, upper: bool)
    requires 2 <= base <= 16 && Splits(v, q, r, base) && skip > 0 && b > 0 && 0 < k <= |text|
    requires text[..k] == Remaining(v, base, d, b, skip, upper)
    ensures d > 0 && r < 16 && text[k - 1] == DigitChar(r, upper)
    ensures text[..k - 1] == Remaining(q, base, d - 1, b - 1, skip, upper)
  {
    hide Remaining, DigitChar, Splits;
    RemainingSome(v, base, d, b, skip, upper);
    DigitStep(v, q, r, base, d, b, skip, upper);
    DropLast(text, k, Remaining(q, base, d - 1, b - 1, skip, upper), DigitChar(r, upper));
  }

  lemma LastTick(text: seq<char>, k: nat, v: nat, q: nat, r: nat, base: nat, d: nat, skip: nat, upper: bool)
    requires 2 <= base <= 16 && Splits(v, q, r, base) && skip > 0 && 0 < k <= |text|
    requires text[..k] == Remaining(v, base, d, 0, skip, upper)
    ensures d > 0 && k >= 2 && text[k - 1] == '_'
    ensures r < 16 && text[k - 2] == DigitChar(r, upper)
    ensures text[..k - 2] == Remaining(q, base, d - 1, skip - 1, skip, upper)
  {
    hide Remaining, DigitChar, Splits;
    RemainingSome(v, base, d, 0, skip, upper);
    TickStep(v, q, r, base, d, skip, upper);
    var t := Remaining(q, base, d - 1, skip - 1, skip, upper);
    DropLast(text, k, t + [DigitChar(r, upper)], '_');
    DropLast(text, k - 1, t, DigitChar(r, upper));
  }

  lemma DropLast(text: seq<char>, k: nat, t: seq<char>, c: char)
    requires 0 < k <= |text| && text[..k] == t + [c]
    ensures text[k - 1] == c && text[..k - 1] == t
  {
    assert text[..k][k - 1] == c;
    assert text[..k][..k - 1] == text[..k - 1];
  }

  lemma RemainingSome(v: nat, base: nat, d: nat, b: nat, skip: nat, upper: bool)
    requires 2 <= base <= 16 && skip > 0 && |Remaining(v, base, d, b, skip, upper)| > 0
    ensures d > 0 && (b == 0 ==> |Remaining(v, base, d, b, skip, upper)| >= 2)
  {
  }

  lemma DigitStep(v: nat, q: nat, r: nat, base: nat, d: nat, b: nat, skip: nat, upper: bool)
    requires 2 <= base <= 16 && Splits(v, q, r, base) && skip > 0 && d > 0 && b > 0
    ensures r < 16 && Remaining(v, base, d, b, skip, upper) ==
                      Remaining(q, base, d - 1, b - 1, skip, upper) + [DigitChar(r, upper)]
  {
    SplitsUnique(v, q, r, base);
  }

  lemma TickStep(v: nat, q: nat, r: nat, base: nat, d: nat, skip: nat, upper: bool)
    requires 2 <= base <= 16 && Splits(v, q, r, base) && skip > 0 && d > 0
    ensures r < 16 && Remaining(v, base, d, 0, skip, upper) ==
                      Remaining(q, base, d - 1, skip - 1, skip, upper) + [DigitChar(r, upper)] + ['_']
  {
    SplitsUnique(v, q, r, base);
  }

  lemma CountMeans(v: nat, base: nat)
    requires base >= 2
    ensures CountDigits(v, base) == if v == 0 then 0 else 1 + CountDigits(v / base, base)
  {
  }

  method CountLoop(val: nat, base: nat) returns (ndigits: nat)
    requires base >= 2
    ensures ndigits == CountDigits(val, base)
  {
    hide CountDigits;
    var tmpval := val;
    ndigits := 0;
    CountMeans(0, base);
    while tmpval != 0
      invariant 0 <= tmpval && ndigits + CountDigits(tmpval, base) == CountDigits(val, base)
      decreases tmpval
    {
      DivLess(tmpval, base);
      CountMeans(tmpval, base);
      tmpval := tmpval / base;
      ndigits := ndigits + 1;
    }
  }

  method EmitSign(buf: array<char>, q0: nat, o0: nat, n: nat, val0: nat, f: Flags, base: nat, minus: bool,
                  ghost was: seq<char>, ghost at: nat, ghost out: seq<char>)
    returns (q: nat, o: nat)
    requires Cursor(buf, was, at, n, q0, o0, out) && minus == IsNegative(val0, f)
    modifies buf
    ensures Cursor(buf, was, at, n, q, o, out + SignText(val0, f) + PrefixText(f, base))
  {
    hide Cursor;
    q, o := q0, o0;
    ghost var text := out;
    assert out + "" == out;
    if minus {
      q, o := Emit(buf, q, o, n, '-', was, at, text);
      text := out + "-";
    } else if f.plus {
      q, o := Emit(buf, q, o, n, '+', was, at, text);
      text := out + "+";
    } else if f.space {
      q, o := Emit(buf, q, o, n, ' ', was, at, text);
      text := out + " ";
    }
    assert text == out + SignText(val0, f);
    assert text + "" == text;
    if f.hash && base == 16 {
      q, o := Emit(buf, q, o, n, '0', was, at, text);
      var x := if f.upper then 'X' else 'x';
      q, o := Emit(buf, q, o, n, x, was, at, text + ['0']);
      assert text + ['0'] + [x] == text + PrefixText(f, base);
    }
  }

  /** The first half of format_int: how many digits, underscores and other
      characters there will be. */
  method Measure(val0: nat, flags: Flags, base: nat, width: int, prec: int)
    returns (minus: bool, val: nat, ndigits: nat, tickskip: nat, nchars: nat, ghost d: nat)
    requires val0 < TWO_64 && 2 <= base <= 16
    ensures minus == IsNegative(val0, flags) && val == Magnitude(val0, flags) && tickskip > 0
    ensures NumberText(val0, flags, base, prec) == Remaining(val, base, d, tickskip, tickskip, flags.upper)
    ensures ndigits == |NumberText(val0, flags, base, prec)|
    ensures nchars == Needed(val0, flags, base, prec)
  {
    hide NumberText, Remaining, DigitCount, Ticked, Numeral;
    val, minus := val0, false;
    if flags.signed && TWO_63 <= val {
      minus, val := true, TWO_64 - val;
    }
    ndigits := CountLoop(val, base);
    ndigits := AdjustDigits(ndigits, val, flags, base, prec);
    tickskip := TickSkip(flags, base, ndigits);
    d := ndigits;
    NumberIsRemaining(val0, flags, base, prec);
    ndigits := ndigits + (ndigits - 1) / tickskip;
    nchars := ndigits;
    if minus || flags.plus || flags.space {
      nchars := nchars + 1;
    }
    if flags.hash && base == 16 {
      nchars := nchars + 2;
    }
  }

  /** format_int: it returns the length of the whole text and leaves in the
      buffer as much of it as fits. `fits` is false, and nothing else is said,
      when an int cannot count the characters. */
  method Format(buf: array<char>, q0: nat, n: nat, val0: nat, flags: Flags, base: nat, width0: int, prec: int)
    returns (o: nat, fits: bool)
    requires val0 < TWO_64 && 2 <= base <= 16 && (n > 0 ==> q0 + n <= buf.Length)
    modifies buf
    ensures fits <==> Needed(val0, flags, base, prec) < TWO_31
    ensures !fits ==> buf[..] == old(buf[..])
    ensures fits ==> o == |IntText(val0, flags, base, width0, prec)|
    ensures fits ==> Placed(buf[..], old(buf[..]), q0, n, IntText(val0, flags, base, width0, prec))
  {
    ghost var was, text := buf[..], IntText(val0, flags, base, width0, prec);
    hide Remaining, Needed, NumberText, SignText, PrefixText, Repeat;
    var minus, val, ndigits, tickskip, nchars, d := Measure(val0, flags, base, width0, prec);
    if nchars >= TWO_31 {
      return 0, false;
    }
    var q, width := q0, width0;
    o, fits := 0, true;
    ghost var pad := PadCount(val0, flags, base, width0, prec);
    ghost var out: seq<char> := [];
    if !flags.minus && !flags.zero {
      q, o, width := EmitPad(buf, q, o, n, ' ', width, nchars, was, q0, []);
      out := Repeat(' ', pad);
      assert [] + out == out;
    }
    assert Cursor(buf, was, q0, n, q, o, out);
    q, o := EmitSign(buf, q, o, n, val0, flags, base, minus, was, q0, out);
    out := out + SignText(val0, flags) + PrefixText(flags, base);
    if flags.zero && !flags.minus {
      q, o, width := EmitPad(buf, q, o, n, '0', width, nchars, was, q0, out);
      out := out + Repeat('0', pad);
    }
    q, o := WriteDigits(buf, q, o, n, val, base, ndigits, tickskip, flags.upper, d, was, q0, out);
    out := out + NumberText(val0, flags, base, prec);
    if flags.minus {
      q, o, width := EmitPad(buf, q, o, n, ' ', width, nchars, was, q0, out);
      out := out + Repeat(' ', pad);
    }
    assert out == text by { IntTextParts(val0, flags, base, width0, prec); }
  }

  /** The text by cases: padded right, with zeros, or left. */
  lemma IntTextParts(val: nat, f: Flags, base: nat, width: int, prec: int)
    requires val < TWO_64 && 2 <= base <= 16
    ensures var pad := PadCount(val, f, base, width, prec);
            var text := IntText(val, f, base, width, prec);
            var sign, prefix, number := SignText(val, f), PrefixText(f, base), NumberText(val, f, base, prec);
            && (f.minus ==> text == [] + sign + prefix + number + Repeat(' ', pad))
            && (!f.minus && f.zero ==> text == [] + sign + prefix + Repeat('0', pad) + number)
            && (!f.minus && !f.zero ==> text == Repeat(' ', pad) + sign + prefix + number)
  {
    hide PadCount, NumberText, SignText, PrefixText, Repeat;
  }

  method AdjustDigits(counted: nat, val: nat, f: Flags, base: nat, prec0: int) returns (ndigits: nat)
    requires base >= 2 && counted == CountDigits(val, base)
    ensures ndigits == DigitCount(val, f, base, prec0)
  {
    ndigits := counted;
    var prec := prec0;
    if f.hash && base == 8 {
      if prec < ndigits + 1 {
        prec := ndigits + 1;
      }
    }
    if ndigits < prec {
      ndigits := prec;
    } else if val == 0 {
      ndigits := 1;
    }
  }
}
