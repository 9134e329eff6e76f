/** What the directives of a printf format mean, for every well-formed one: flag
    characters, decimal or starred width and precision, length modifiers and
    conversion, in terms of the characters themselves. */
module Directives {
  import opened Arithmetic
  import opened CText
  import opened FormatInt
  import opened Strntoumax
  import opened IntRoundTrip
  import opened IntLayout
  import opened P = Vsnprintf

  // ------------------------------------------------------------------- flags

  ghost predicate FlagChars(fs: seq<char>) { forall c :: c in fs ==> c in "-+' #0" }

  /** The flags of a run of flag characters. */
  ghost predicate FlagsAre(g: Flags, fs: seq<char>) {
    && (g.minus <==> '-' in fs)
    && (g.plus <==> '+' in fs)
    && (g.tick <==> '\'' in fs)
    && (g.space <==> ' ' in fs)
    && (g.hash <==> '#' in fs)
    && (g.zero <==> '0' in fs)
    && !g.signed && !g.upper
  }

  ghost predicate FlagsAdd(g: Flags, f: Flags, fs: seq<char>) {
    && (g.minus <==> f.minus || '-' in fs)
    && (g.plus <==> f.plus || '+' in fs)
    && (g.tick <==> f.tick || '\'' in fs)
    && (g.space <==> f.space || ' ' in fs)
    && (g.hash <==> f.hash || '#' in fs)
    && (g.zero <==> f.zero || '0' in fs)
    && g.signed == f.signed && g.upper == f.upper
  }

  lemma FlagIs(c: char)
    ensures IsFlag(c) <==> c in "-+' #0"
    ensures c in "-+' #0" <==> c == '-' || c == '+' || c == '\'' || c == ' ' || c == '#' || c == '0'
  {
  }

  lemma OneFlag(f: Flags, c: char)
    requires c == '-' || c == '+' || c == '\'' || c == ' ' || c == '#' || c == '0'
    ensures FlagsAdd(WithFlag(f, c), f, [c])
  {
    var g := WithFlag(f, c);
    match c
    case '-' => assert g == f.(minus := true);
    case '+' => assert g == f.(plus := true);
    case '\'' => assert g == f.(tick := true);
    case ' ' => assert g == f.(space := true);
    case '#' => assert g == f.(hash := true);
    case _ => assert g == f.(zero := true);
  }

  lemma FlagsAddTwice(g: Flags, h: Flags, f: Flags, c: char, fs: seq<char>)
    requires FlagsAdd(h, f, [c]) && FlagsAdd(g, h, fs)
    ensures FlagsAdd(g, f, [c] + fs)
  {
  }

  lemma {:induction false} AddFlags(fs: seq<char>, rest: seq<char>, args: seq<Arg>, f: Flags) returns (g: Flags)
    requires FlagChars(fs) && rest != [] && rest[0] !in "-+' #0"
    ensures FlagsAdd(g, f, fs) && FromFlags(fs + rest, args, f) == FromWidth(rest, args, g, 0)
    decreases |fs|
  {
    hide FromFlags, FromWidth, FlagsAdd, WithFlag, IsFlag;
    var s := fs + rest;
    FlagIs(s[0]);
    FlagsStep(s, args, f);
    if fs == [] {
      g := f;
      assert s == rest;
      NoFlagsAdded(f);
    } else {
      assert fs[0] in fs && s[0] == fs[0] && s[1..] == fs[1..] + rest;
      FlagIs(fs[0]);
      OneFlag(f, fs[0]);
      g := AddFlags(fs[1..], rest, args, WithFlag(f, fs[0]));
      FlagsAddTwice(g, WithFlag(f, fs[0]), f, fs[0], fs[1..]);
      assert [fs[0]] + fs[1..] == fs;
    }
  }

  lemma NoFlagsAdded(f: Flags)
    ensures FlagsAdd(f, f, [])
  {
  }

  /** Every run of flag characters sets exactly its flags. */
  lemma ReadFlags(fs: seq<char>, rest: seq<char>, args: seq<Arg>) returns (g: Flags)
    requires FlagChars(fs) && rest != [] && rest[0] !in "-+' #0"
    ensures FlagsAre(g, fs) && FromFlags(fs + rest, args, NO_FLAGS) == FromWidth(rest, args, g, 0)
  {
    g := AddFlags(fs, rest, args, NO_FLAGS);
    hide FromFlags, FromWidth;
  }

  // -------------------------------------------------------- width and precision

  ghost predicate Decimal(ds: seq<char>) { forall c :: c in ds ==> c in "0123456789" }

  lemma DecimalDigit(c: char)
    ensures IsDigit(c) <==> c in "0123456789"
    ensures IsDigit(c) ==> 0 <= DigitVal(c) < 10 && c == "0123456789"[DigitVal(c)]
  {
  }

  /** A number read on from `w`. */
  function ReadOn(w: int, ds: seq<char>): int
    decreases |ds|
  {
    if ds == [] then w else ReadOn(w * 10 + DigitVal(ds[0]), ds[1..])
  }

  lemma {:induction false} ReadOnSnoc(w: int, t: seq<char>, c: char)
    ensures ReadOn(w, t + [c]) == ReadOn(w, t) * 10 + DigitVal(c)
    decreases |t|
  {
    if t == [] {
      assert t + [c] == [c] && [c][1..] == [];
    } else {
      assert (t + [c])[1..] == t[1..] + [c];
      ReadOnSnoc(w * 10 + DigitVal(t[0]), t[1..], c);
    }
  }

  /** From 0 it is the decimal value. */
  lemma {:induction false} ReadOnIsValue(ds: seq<char>)
    requires Decimal(ds)
    ensures ReadOn(0, ds) == Value(ds, 10)
    decreases |ds|
  {
    if ds == [] {
    } else {
      var t, c := ds[..|ds| - 1], ds[|ds| - 1];
      assert ds == t + [c] && c in ds;
      assert forall x :: x in t ==> x in ds;
      DecimalDigit(c);
      ReadOnIsValue(t);
      ReadOnSnoc(0, t, c);
      DigitsSnoc(t, c, 10);
    }
  }

  lemma {:induction false} ReadOnGrows(w: int, ds: seq<char>)
    requires Decimal(ds) && 0 <= w
    ensures w <= ReadOn(w, ds)
    decreases |ds|
  {
    if ds == [] {
    } else {
      assert ds[0] in ds && forall x :: x in ds[1..] ==> x in ds;
      DecimalDigit(ds[0]);
      ReadOnGrows(w * 10 + DigitVal(ds[0]), ds[1..]);
    }
  }

  lemma {:induction false} WidthDigits(ds: seq<char>, rest: seq<char>, args: seq<Arg>, f: Flags, w: int)
    requires Decimal(ds) && 0 <= w && rest != []
    ensures FromWidth(ds + rest, args, f, w) ==
            if ReadOn(w, ds) <= 0x7fff_ffff then FromWidth(rest, args, f, ReadOn(w, ds)) else [OutOfInt]
    decreases |ds|
  {
    hide FromWidth;
    if ds == [] {
      assert ds + rest == rest;
      OutOfIntStep(rest, args, f, w, 0);
    } else {
      var v := w * 10 + DigitVal(ds[0]);
      assert ds[0] in ds && forall x :: x in ds[1..] ==> x in ds;
      DecimalDigit(ds[0]);
      ReadOnGrows(w, ds);
      ReadOnGrows(v, ds[1..]);
      assert (ds + rest)[1..] == ds[1..] + rest && (ds + rest)[0] == ds[0];
      WidthDigits(ds[1..], rest, args, f, v);
      if InInt(w) {
        WidthStep(ds + rest, args, f, w);
      } else {
        OutOfIntStep(ds + rest, args, f, w, 0);
      }
    }
  }

  lemma {:induction false} PrecDigits(ds: seq<char>, rest: seq<char>, args: seq<Arg>, f: Flags, width: int, w: int)
    requires Decimal(ds) && 0 <= w && rest != []
    ensures FromPrec(ds + rest, args, f, width, w) ==
            if ReadOn(w, ds) <= 0x7fff_ffff then FromPrec(rest, args, f, width, ReadOn(w, ds)) else [OutOfInt]
    decreases |ds|
  {
    hide FromPrec;
    if ds == [] {
      assert ds + rest == rest;
      OutOfIntStep(rest, args, f, width, w);
    } else {
      var v := w * 10 + DigitVal(ds[0]);
      assert ds[0] in ds && forall x :: x in ds[1..] ==> x in ds;
      DecimalDigit(ds[0]);
      ReadOnGrows(w, ds);
      ReadOnGrows(v, ds[1..]);
      assert (ds + rest)[1..] == ds[1..] + rest && (ds + rest)[0] == ds[0];
      PrecDigits(ds[1..], rest, args, f, width, v);
      if InInt(w) {
        PrecStep(ds + rest, args, f, width, w);
      } else {
        OutOfIntStep(ds + rest, args, f, width, w);
      }
    }
  }

  /** A width or precision in a format. */
  datatype Number = Absent | Written(ds: seq<char>) | Star

  ghost predicate GoodNumber(n: Number) { n.Written? ==> n.ds != [] && Decimal(n.ds) }

  function NumberChars(n: Number): seq<char> {
    match n
    case Absent => ""
    case Written(ds) => ds
    case Star => "*"
  }

  /** Its value; a star takes the first argument, as an int. */
  function NumberValue(n: Number, args: seq<Arg>): int {
    match n
    case Absent => 0
    case Written(ds) => Value(ds, 10)
    case Star => AsInt(if args == [] then Word(0) else args[0])
  }

  function ArgsAfter(n: Number, args: seq<Arg>): seq<Arg> {
    if n.Star? && args != [] then args[1..] else args
  }

  function Abs(x: int): int { if x < 0 then -x else x }

  /** The width: its absolute value, and a negative star means left. */
  lemma ReadWidth(n: Number, rest: seq<char>, args: seq<Arg>, f: Flags)
    requires GoodNumber(n) && rest != []
    ensures var w := NumberValue(n, args);
            FromWidth(NumberChars(n) + rest, args, f, 0) ==
            if Abs(w) <= 0x7fff_ffff
            then FromWidth(rest, ArgsAfter(n, args), if w < 0 then f.(minus := true) else f, Abs(w))
            else [OutOfInt]
  {
    hide FromWidth, Value, AsInt;
    match n
    case Absent =>
      assert "" + rest == rest;
    case Written(ds) =>
      ReadOnIsValue(ds);
      ReadOnGrows(0, ds);
      WidthDigits(ds, rest, args, f, 0);
    case Star =>
      assert ("*" + rest)[1..] == rest;
      WidthStep("*" + rest, args, f, 0);
      OutOfIntStep(rest, ArgsAfter(n, args), f.(minus := true), Abs(NumberValue(n, args)), 0);
  }

  /** The precision: absent is -1, empty is 0, a negative star is absent. */
  lemma ReadPrec(n: Number, rest: seq<char>, args: seq<Arg>, f: Flags, width: int)
    requires GoodNumber(n) && rest != []
    ensures var p := NumberValue(n, args);
            FromPrec(NumberChars(n) + rest, args, f, width, 0) ==
            if p <= 0x7fff_ffff then FromPrec(rest, ArgsAfter(n, args), f, width, if p < 0 then -1 else p)
            else [OutOfInt]
  {
    hide FromPrec, Value, AsInt;
    match n
    case Absent =>
      assert "" + rest == rest;
    case Written(ds) =>
      ReadOnIsValue(ds);
      ReadOnGrows(0, ds);
      PrecDigits(ds, rest, args, f, width, 0);
    case Star =>
      assert ("*" + rest)[1..] == rest;
      PrecStep("*" + rest, args, f, width, 0);
  }

  // ---------------------------------------------------------- length modifiers

  /** Bytes of the type a length modifier names. */
  ghost predicate Modifier(mods: seq<char>, bytes: nat) {
    || (mods == "hh" && bytes == 1) || (mods == "h" && bytes == 2)
    || ((mods == "" || mods == "l" || mods == "z" || mods == "t") && bytes == 4)
    || ((mods == "ll" || mods == "j" || mods == "L" || mods == "q") && bytes == 8)
  }

  lemma ModifierStep(m: char, rest: seq<char>, args: seq<Arg>, f: Flags, width: int, prec: int, rank: int)
    requires m in "hljztLq"
    ensures FromRank([m] + rest, args, f, width, prec, rank) ==
            FromRank(rest, args, f, width, prec, WithModifier(rank, m))
  {
    hide FromRank;
    RankStep([m] + rest, args, f, width, prec, rank);
    assert ([m] + rest)[1..] == rest;
  }

  /** The modifiers of C name types of the sizes they have on the machine. */
  lemma ReadModifiers(mods: seq<char>, bytes: nat, rest: seq<char>, args: seq<Arg>, f: Flags, width: int, prec: int)
    returns (rank: int)
    requires Modifier(mods, bytes)
    ensures ClampRank(rank) == rank && Modulus(rank) == Pow(256, bytes) && (rank == RANK_LONGLONG <==> bytes == 8)
    ensures FromRank(mods + rest, args, f, width, prec, RANK_INT) == FromRank(rest, args, f, width, prec, rank)
  {
    assert Pow(256, 1) == 256 && Pow(256, 2) == 256 * 256 && Pow(256, 4) == 0x1_0000_0000;
    PowEight();
    hide FromRank, Pow;
    rank := RANK_INT;
    if mods == "" {
      assert mods + rest == rest;
    } else {
      var m := mods[0];
      rank := WithModifier(RANK_INT, m);
      assert mods + rest == [m] + (mods[1..] + rest);
      ModifierStep(m, mods[1..] + rest, args, f, width, prec, RANK_INT);
      if |mods| == 2 {
        assert mods[1..] + rest == [m] + rest;
        ModifierStep(m, rest, args, f, width, prec, rank);
        rank := WithModifier(rank, m);
      } else {
        assert mods[1..] + rest == rest;
      }
    }
  }

  ghost predicate Counting(c: char) { c == 'h' || c == 'l' || c == 'L' || c == 'q' }

  ghost predicate Setting(c: char) { c == 'j' || c == 'z' || c == 't' }

  ghost predicate Modifiers(s: seq<char>) { forall k :: 0 <= k < |s| ==> Counting(s[k]) || Setting(s[k]) }

  /** Modifiers in a row count: h is one less, l one more, L and q are two more. */
  lemma {:induction false} CountModifiers(mods: seq<char>, rest: seq<char>, args: seq<Arg>, f: Flags,
                                          width: int, prec: int, rank: int)
    requires forall k :: 0 <= k < |mods| ==> Counting(mods[k])
    ensures var n := multiset(mods);
            FromRank(mods + rest, args, f, width, prec, rank) ==
            FromRank(rest, args, f, width, prec, rank - n['h'] + n['l'] + 2 * n['L'] + 2 * n['q'])
    decreases |mods|
  {
    hide FromRank;
    if mods == [] {
      assert mods + rest == rest;
    } else {
      var m, t := mods[0], mods[1..];
      assert Counting(m);
      assert mods == [m] + t && mods + rest == [m] + (t + rest);
      assert multiset(mods) == multiset{m} + multiset(t);
      ModifierStep(m, t + rest, args, f, width, prec, rank);
      CountModifiers(t, rest, args, f, width, prec, WithModifier(rank, m));
    }
  }

  lemma {:induction false} SkipModifiers(mods: seq<char>, m: char, rest: seq<char>, args: seq<Arg>, f: Flags,
                                         width: int, prec: int, rank: int)
    requires Modifiers(mods) && Setting(m)
    ensures FromRank(mods + ([m] + rest), args, f, width, prec, rank) ==
            FromRank(rest, args, f, width, prec, if m == 'j' then 2 else 1)
    decreases |mods|
  {
    hide FromRank;
    if mods == [] {
      assert mods + ([m] + rest) == [m] + rest;
      ModifierStep(m, rest, args, f, width, prec, rank);
    } else {
      var c, t := mods[0], mods[1..];
      assert Counting(c) || Setting(c);
      assert mods == [c] + t && mods + ([m] + rest) == [c] + (t + ([m] + rest));
      ModifierStep(c, t + ([m] + rest), args, f, width, prec, rank);
      SkipModifiers(t, m, rest, args, f, width, prec, WithModifier(rank, c));
    }
  }

  /** Any run of modifiers: j, z and t forget what stands before them, and all
      that follows counts. */
  lemma ReadModifierRun(before: seq<char>, m: char, after: seq<char>, rest: seq<char>, args: seq<Arg>, f: Flags,
                        width: int, prec: int)
    requires Modifiers(before) && Setting(m) && forall k :: 0 <= k < |after| ==> Counting(after[k])
    ensures var n, was: int := multiset(after), if m == 'j' then 2 else 1;
            FromRank(before + ([m] + (after + rest)), args, f, width, prec, RANK_INT) ==
            FromRank(rest, args, f, width, prec, was - n['h'] + n['l'] + 2 * n['L'] + 2 * n['q'])
  {
    hide FromRank;
    SkipModifiers(before, m, after + rest, args, f, width, prec, RANK_INT);
    CountModifiers(after, rest, args, f, width, prec, if m == 'j' then 2 else 1);
  }

  /** Bytes of the type a count of modifiers stands for. */
  lemma SizeOfRank(rank: int)
    ensures var bytes := if rank <= -2 then 1 else if rank == -1 then 2 else if rank < 2 then 4 else 8;
            Modulus(ClampRank(rank)) == Pow(256, bytes) && (ClampRank(rank) == RANK_LONGLONG <==> bytes == 8)
  {
    assert Pow(256, 1) == 256 && Pow(256, 2) == 256 * 256 && Pow(256, 4) == 0x1_0000_0000;
    PowEight();
    hide Pow;
  }

  lemma PowEight()
    ensures Pow(256, 8) == 0x1_0000_0000_0000_0000
  {
    assert Pow(256, 4) == 0x1_0000_0000;
    assert Pow(256, 6) == 256 * 256 * 0x1_0000_0000;
  }

  // --------------------------------------------------------- a whole directive

  /** A character that can end a directive. */
  ghost predicate Ends(c: char) { c !in "-+' #0123456789*.hljztLq" }

  lemma EndOfWidth(t: seq<char>, args: seq<Arg>, f: Flags, w: int)
    requires InInt(w) && t != [] && t[0] !in "0123456789*."
    ensures FromWidth(t, args, f, w) == FromRank(t, args, f, w, -1, RANK_INT)
  {
    hide FromWidth, FromRank;
    DecimalDigit(t[0]);
    assert t[0] != '*' && t[0] != '.' && t[0] !in "0123456789";
    WidthStep(t, args, f, w);
  }

  lemma EndOfPrec(t: seq<char>, args: seq<Arg>, f: Flags, w: int, p: int)
    requires InInt(p) && t != [] && t[0] !in "0123456789*"
    ensures FromPrec(t, args, f, w, p) == FromRank(t, args, f, w, p, RANK_INT)
  {
    hide FromPrec, FromRank;
    DecimalDigit(t[0]);
    assert t[0] != '*' && t[0] !in "0123456789";
    PrecStep(t, args, f, w, p);
  }

  lemma EndOfRank(c: char, rest: seq<char>, args: seq<Arg>, f: Flags, w: int, p: int, rank: int)
    requires Ends(c)
    ensures var r := ClampRank(rank);
            FromRank([c] + rest, args, f, w, p, rank) ==
            [Directive(c, f, w, p, r, args).0] + Pieces(rest, Directive(c, f, w, p, r, args).1)
  {
    hide FromRank, Directive, Pieces;
    assert c !in "hljztLq" && !IsModifier(c);
    RankStep([c] + rest, args, f, w, p, rank);
    assert ([c] + rest)[1..] == rest;
  }

  /** What follows flags and width begins with no digit, star or flag. */
  lemma HeadOf(mods: seq<char>, bytes: nat, c: char, rest: seq<char>)
    requires Modifier(mods, bytes) && Ends(c)
    ensures var t := mods + ([c] + rest); t != [] && t[0] !in "0123456789*." && t[0] !in "-+' #0"
  {
    var t := mods + ([c] + rest);
    if mods == "" {
      assert t[0] == c;
    } else {
      assert t[0] == mods[0];
    }
  }

  /** Every directive is read as it is written: its flags, the absolute value of
      its width, its precision, the size of its type and its argument. */
  lemma ReadDirective(fs: seq<char>, w: Number, p: Number, mods: seq<char>, bytes: nat, c: char,
                      rest: seq<char>, args: seq<Arg>, dot: bool)
    returns (g: Flags, rank: int)
    requires FlagChars(fs) && GoodNumber(w) && (w.Written? ==> w.ds[0] != '0')
    requires GoodNumber(p) && (!dot ==> p.Absent?)
    requires Modifier(mods, bytes) && Ends(c)
    ensures FlagsAre(g, if NumberValue(w, args) < 0 then fs + "-" else fs)
    ensures ClampRank(rank) == rank && Modulus(rank) == Pow(256, bytes) && (rank == RANK_LONGLONG <==> bytes == 8)
    ensures var width, left := Abs(NumberValue(w, args)), ArgsAfter(w, args);
            var prec, last := NumberValue(p, left), if dot then ArgsAfter(p, left) else left;
            var precision := if !dot || prec < 0 then -1 else prec;
            var t := (if dot then "." + NumberChars(p) else "") + (mods + ([c] + rest));
            Pieces("%" + (fs + (NumberChars(w) + t)), args) ==
            if width > 0x7fff_ffff || (dot && prec > 0x7fff_ffff) then [OutOfInt]
            else
              var (piece, next) := Directive(c, g, width, precision, rank, last);
              [piece] + Pieces(rest, next)
  {
    hide FromFlags, FromWidth, FromPrec, FromRank, Pieces, Directive, NumberValue, Decimal, FlagsAre, FlagChars,
         Modifier, ClampRank, Modulus, Pow;
    var t2 := mods + ([c] + rest);
    var t1 := (if dot then "." + NumberChars(p) else "") + t2;
    var t0 := NumberChars(w) + t1;
    HeadOf(mods, bytes, c, rest);
    assert t1 == if dot then "." + (NumberChars(p) + t2) else t2;
    HeadOfNumber(w, t1);
    NormalStep("%" + (fs + t0), args);
    assert ("%" + (fs + t0))[1..] == fs + t0;
    g := ReadFlags(fs, t0, args);
    ReadWidth(w, t1, args, g);
    var width, left := Abs(NumberValue(w, args)), ArgsAfter(w, args);
    if NumberValue(w, args) < 0 {
      MinusToo(g, fs);
      g := g.(minus := true);
    }
    var prec, last := NumberValue(p, left), if dot then ArgsAfter(p, left) else left;
    var precision := if !dot || prec < 0 then -1 else prec;
    rank := ReadModifiers(mods, bytes, [c] + rest, last, g, width, precision);
    EndOfRank(c, rest, last, g, width, precision, rank);
    if width <= 0x7fff_ffff {
      if dot {
        WidthStep(t1, left, g, width);
        assert t1[1..] == NumberChars(p) + t2;
        ReadPrec(p, t2, left, g, width);
        if prec <= 0x7fff_ffff {
          EndOfPrec(t2, last, g, width, precision);
        }
      } else {
        EndOfWidth(t2, left, g, width);
      }
    }
  }

  lemma MinusToo(g: Flags, fs: seq<char>)
    requires FlagsAre(g, fs)
    ensures FlagsAre(g.(minus := true), fs + "-")
  {
  }

  lemma HeadOfNumber(w: Number, t1: seq<char>)
    requires GoodNumber(w) && (w.Written? ==> w.ds[0] != '0') && t1 != [] && t1[0] !in "-+' #0"
    ensures var t0 := NumberChars(w) + t1; t0 != [] && t0[0] !in "-+' #0"
  {
    match w
    case Absent => assert "" + t1 == t1;
    case Written(ds) => assert ds[0] in ds;
    case Star =>
  }

  // ------------------------------------------------------------- conversions

  /** Which conversions take an argument: the first one, or a zero word. */
  lemma ArgumentOf(c: char, g: Flags, width: int, prec: int, rank: int, args: seq<Arg>)
    ensures Directive(c, g, width, prec, rank, args) ==
            if c == 'd' || c == 'i' || c == 'o' || c == 'u' || c == 'x' || c == 'X' || c == 'p' || c == 'P'
               || c == 'c' || c == 's' || c == 'n'
            then (Spec(c, g, width, prec, rank, if args == [] then Word(0) else args[0]),
                  if args == [] then [] else args[1..])
            else (Spec(c, g, width, prec, rank, Word(0)), args)
  {
  }

  /** The integer conversions: signed decimal, octal, decimal, and hexadecimal in
      the case of the letter. */
  lemma IntegerConversion(c: char, f: Flags, w: int, p: int, rank: int, a: Arg)
    requires c == 'd' || c == 'i' || c == 'o' || c == 'u' || c == 'x' || c == 'X'
    ensures var signed, base := c == 'd' || c == 'i', if c == 'o' then 8 else if c == 'x' || c == 'X' then 16 else 10;
            var g := f.(signed := signed, upper := c == 'X');
            var val := Widened(a, rank, signed);
            var piece := Spec(c, f, w, p, rank, a);
            if Needed(val, g, base, p) <= 0x7fff_ffff
            then FaultOf(piece) == Fine && TextOf(piece) == IntText(val, g, base, w, p)
            else FaultOf(piece) == Overflow
  {
    var piece := Spec(c, f, w, p, rank, a);
    hide IntText, Needed, Widened, TextOf, FaultOf;
    IntegerPiece(piece);
    assert ConvFlags(c, f) == f.(signed := c == 'd' || c == 'i', upper := c == 'X');
  }

  /** A pointer is eight hexadecimal digits behind 0x. */
  lemma PointerConversion(c: char, f: Flags, w: int, p: int, rank: int, a: Arg)
    requires c == 'p' || c == 'P'
    ensures var piece := Spec(c, f, w, p, rank, a);
            !f.tick ==>
            FaultOf(piece) == Fine &&
            TextOf(piece) == IntText(AsWord(a), f.(signed := false, upper := c == 'P', hash := true), 16, w, 8)
  {
    var piece := Spec(c, f, w, p, rank, a);
    hide IntText, Needed, TextOf, FaultOf;
    IntegerPiece(piece);
    assert ConvFlags(c, f) == f.(signed := false, upper := c == 'P', hash := true);
    if !f.tick {
      NeededBound(AsWord(a), ConvFlags(c, f), 16, 8);
    }
  }

  /** %x and %p print no capital letter, %X and %P no small one. */
  lemma HexCase(c: char, f: Flags, w: int, p: int, rank: int, a: Arg)
    requires c == 'x' || c == 'X' || c == 'p' || c == 'P'
    ensures forall x :: x in TextOf(Spec(c, f, w, p, rank, a)) ==>
              if c == 'X' || c == 'P' then !('a' <= x <= 'z') else !('A' <= x <= 'Z')
  {
    var piece := Spec(c, f, w, p, rank, a);
    hide IntText, Needed, TextOf, FaultOf;
    IntegerPiece(piece);
    TextCase(ValueOf(piece), ConvFlags(c, f), ConvBase(c), w, PrecOf(piece));
  }

  /** The value that is printed: the argument's low bytes, as a signed number of
      that size when the conversion is signed. */
  lemma SizedValue(a: Arg, rank: int, bytes: nat, signed: bool)
    requires ClampRank(rank) == rank && Modulus(rank) == Pow(256, bytes) && (rank == RANK_LONGLONG <==> bytes == 8)
    ensures Pow(256, bytes) > 0
    ensures var m := Pow(256, bytes);
            var low := (if bytes == 8 then AsWide(a) else AsWord(a)) % m;
            var val := Widened(a, rank, signed);
            if signed && m / 2 <= low then val == 0x1_0000_0000_0000_0000 - m + low else val == low
  {
    hide AsWide, AsWord;
  }

  /** A string: cut to its precision, then blanks behind it, or blanks or zeros
      in front of it, up to the width. */
  lemma StringConversion(c: char, f: Flags, w: int, p: int, rank: int, a: Arg)
    requires (c == 's' || c == 'c') && -1 <= p
    ensures var s := if c == 'c' then [(AsWord(a) % 256) as char]
                     else if a.Text? then a.s else "(null)";
            var m := if 0 <= p < |s| then p else |s|;
            var pad := if w > m then w - m else 0;
            var piece := Spec(c, f, w, p, rank, a);
            && FaultOf(piece) == Fine
            && TextOf(piece) == if f.minus then s[..m] + Repeat(' ', pad)
                                else Repeat(if f.zero then '0' else ' ', pad) + s[..m]
  {
    var piece := Spec(c, f, w, p, rank, a);
    var s := if c == 'c' then [(AsWord(a) % 256) as char] else AsText(a);
    TextArgument(a);
    hide TextOf, FaultOf, AsWord, AsText, StringText, BytesOf, LengthOf, CutOf, Repeat;
    StringPiece(piece);
    StringCut(piece, s, if 0 <= p < |s| then p else |s|);
    StringLayout(BytesOf(piece), if 0 <= p < |s| then p else |s|, f, w);
  }

  lemma TextArgument(a: Arg)
    ensures AsText(a) == if a.Text? then a.s else "(null)"
  {
  }

  lemma StringCut(p: Piece, s: seq<char>, m: nat)
    requires p.Spec? && (p.conv == 's' || p.conv == 'c') && -1 <= p.prec
    requires s == if p.conv == 'c' then [(AsWord(p.arg) % 256) as char] else AsText(p.arg)
    requires m == if 0 <= p.prec < |s| then p.prec else |s|
    ensures m <= |BytesOf(p)| && BytesOf(p)[..m] == s[..m] && CutOf(LengthOf(p), p.prec) == m
  {
    hide AsWord;
  }

  lemma StringLayout(bytes: seq<char>, m: nat, f: Flags, w: int)
    requires m <= |bytes|
    ensures var pad := if w > m then w - m else 0;
            StringText(bytes, m, f, w) ==
            if f.minus then bytes[..m] + Repeat(' ', pad) else Repeat(if f.zero then '0' else ' ', pad) + bytes[..m]
  {
    RepeatNone('0', w - m);
    RepeatNone(' ', w - m);
    hide Repeat;
    var s := bytes[..m];
    assert [] + s == s && s + [] == s;
  }

  lemma RepeatNone(c: char, n: int)
    ensures Repeat(c, n) == Repeat(c, if n > 0 then n else 0)
  {
  }

  // ----------------------------------------------------- literals, and examples

  lemma PrintCons(p: Piece, rest: seq<Piece>)
    requires FaultOf(p) == Fine
    ensures Print([p] + rest) == Then(TextOf(p), Print(rest))
  {
    hide FaultOf, TextOf;
    assert ([p] + rest)[1..] == rest;
  }

  /** Text without a percent sign prints itself. */
  lemma {:induction false} LiteralsPrint(s: seq<char>, f: seq<char>, args: seq<Arg>)
    requires '%' !in s
    ensures Render(s + f, args) == Then(s, Render(f, args))
    decreases |s|
  {
    hide Pieces, Print;
    if s == [] {
      assert s + f == f && [] + Render(f, args).text == Render(f, args).text;
    } else {
      NormalStep(s + f, args);
      assert (s + f)[0] == s[0] && s[0] in s && (s + f)[1..] == s[1..] + f;
      LiteralsPrint(s[1..], f, args);
      LiteralPiece(s[0]);
      PrintCons(Literal(s[0]), Pieces(s[1..] + f, args));
      var rest := Render(f, args).text;
      assert [s[0]] + (s[1..] + rest) == s + rest;
    }
  }

  /** Two percent signs print one. */
  lemma PercentPrints(f: seq<char>, args: seq<Arg>)
    ensures Render("%%" + f, args) == Then("%", Render(f, args))
  {
    hide Pieces, Print;
    var g, rank := ReadDirective("", Absent, Absent, "", 4, '%', f, args, false);
    assert "%" + ("" + ("" + ("" + ("" + ("%" + f))))) == "%%" + f;
    ArgumentOf('%', g, 0, -1, rank, args);
    OtherPiece(Spec('%', g, 0, -1, rank, Word(0)));
    PrintCons(Spec('%', g, 0, -1, rank, Word(0)), Pieces(f, args));
  }

  lemma SameSize(rank: int, a: Arg, signed: bool)
    requires Modulus(rank) == Pow(256, 4) && rank != RANK_LONGLONG
    ensures Widened(a, rank, signed) == Widened(a, RANK_INT, signed)
  {
    assert Pow(256, 4) == 0x1_0000_0000;
    hide Pow, AsWide, AsWord;
  }

  lemma Alone(p: Piece)
    requires FaultOf(p) == Fine
    ensures Print([p] + []) == Rendered(TextOf(p), Fine)
  {
    PrintCons(p, []);
    assert TextOf(p) + [] == TextOf(p);
  }

  /** One directive for an int, alone. */
  lemma OneDirective(fs: seq<char>, w: Number, c: char, a: Arg) returns (g: Flags)
    requires FlagChars(fs) && '\'' !in fs && !w.Star? && GoodNumber(w) && (w.Written? ==> w.ds[0] != '0')
    requires c == 'd' || c == 'x' || c == 'X'
    requires NumberValue(w, []) <= 0x7fff_ffff
    ensures FlagsAre(g, fs)
    ensures Render("%" + (fs + (NumberChars(w) + [c])), [a]) ==
            Rendered(IntText(Widened(a, RANK_INT, c == 'd'), g.(signed := c == 'd', upper := c == 'X'),
                             if c == 'd' then 10 else 16, NumberValue(w, []), -1), Fine)
  {
    hide Pieces, Print, TextOf, FaultOf, IntText, Needed, Widened, Decimal, FlagChars, Value;
    var rank;
    g, rank := ReadDirective(fs, w, Absent, "", 4, c, "", [a], false);
    hide FlagsAre;
    assert "" + ("" + ([c] + "")) == [c];
    SameSize(rank, a, c == 'd');
    var width := Abs(NumberValue(w, [a]));
    ArgumentOf(c, g, width, -1, rank, [a]);
    var p := Spec(c, g, width, -1, rank, a);
    IntegerConversion(c, g, width, -1, rank, a);
    NeededBound(Widened(a, rank, c == 'd'), g.(signed := c == 'd', upper := c == 'X'), if c == 'd' then 10 else 16, -1);
    NoPieces([]);
    assert [a][1..] == [];
    Alone(p);
  }

  /** `%-8d`: the number first, then blanks up to the width. */
  lemma LeftJustified(ws: seq<char>, a: Arg)
    requires ws != [] && Decimal(ws) && ws[0] != '0' && Value(ws, 10) <= 0x7fff_ffff
    ensures var number := Render("%d", [a]).text;
            var pad := if Value(ws, 10) > |number| then Value(ws, 10) - |number| else 0;
            Render("%-" + ws + "d", [a]) == Rendered(number + Repeat(' ', pad), Fine)
  {
    hide Render, IntText, Widened, Value, Decimal, FlagsAre, Repeat;
    var val := Widened(a, RANK_INT, true);
    var g := OneDirective("-", Written(ws), 'd', a);
    assert "%" + ("-" + (ws + ['d'])) == "%-" + ws + "d";
    var f := PlainNumber(a);
    FlagsOfMinus(g);
    FlagsOfNothing(f);
    var width := Value(ws, 10);
    var l1, sign1, prefix1, zeros1, number1, right1 := Layout(val, g.(signed := true, upper := false), 10, width, -1);
    var l2, sign2, prefix2, zeros2, number2, right2 := Layout(val, f.(signed := true, upper := false), 10, 0, -1);
    SameNumber(val, g.(signed := true, upper := false), f.(signed := true, upper := false), -1);
    RepeatZero();
    Bare(sign2, prefix2, number2);
    Bare(sign1, prefix1, number1);
    assert IntText(val, g.(signed := true, upper := false), 10, width, -1) == sign1 + number1 + Repeat(' ', right1);
  }

  lemma RepeatZero()
    ensures Repeat(' ', 0) == [] && Repeat('0', 0) == []
  {
  }

  lemma PlainNumber(a: Arg) returns (f: Flags)
    ensures FlagsAre(f, "")
    ensures Render("%d", [a]) ==
            Rendered(IntText(Widened(a, RANK_INT, true), f.(signed := true, upper := false), 10, 0, -1), Fine)
  {
    hide Render, IntText, Widened, FlagsAre;
    f := OneDirective("", Absent, 'd', a);
    assert "%" + ("" + ("" + ['d'])) == "%d";
  }

  lemma FlagsOfMinus(g: Flags)
    requires FlagsAre(g, "-")
    ensures g == NO_FLAGS.(minus := true)
  {
  }

  lemma FlagsOfPlus(g: Flags)
    requires FlagsAre(g, "+")
    ensures g == NO_FLAGS.(plus := true)
  {
  }

  lemma FlagsOfNothing(g: Flags)
    requires FlagsAre(g, "")
    ensures g == NO_FLAGS
  {
  }

  lemma SameNumber(val: nat, f: Flags, g: Flags, prec: int)
    requires val < TWO_64 && f.tick == g.tick && f.signed == g.signed && f.upper == g.upper && f.hash == g.hash
    ensures NumberText(val, f, 10, prec) == NumberText(val, g, 10, prec)
  {
  }

  lemma PlusText(v: nat)
    requires v <= 0x7fff_ffff
    ensures IntText(v, NO_FLAGS.(plus := true, signed := true), 10, 0, -1) ==
            "+" + IntText(v, NO_FLAGS.(signed := true), 10, 0, -1)
  {
    var f, g := NO_FLAGS.(signed := true), NO_FLAGS.(plus := true, signed := true);
    var l1, sign1, prefix1, zeros1, number1, right1 := Layout(v, g, 10, 0, -1);
    var l2, sign2, prefix2, zeros2, number2, right2 := Layout(v, f, 10, 0, -1);
    SameNumber(v, g, f, -1);
    RepeatZero();
    hide IntText, NumberText, Repeat;
    Bare(sign1, prefix1, number1);
    Bare(sign2, prefix2, number2);
    assert "" + number2 == number2;
  }

  lemma Bare(sign: seq<char>, prefix: seq<char>, number: seq<char>)
    requires prefix == ""
    ensures [] + sign + prefix + [] + number + [] == sign + number
  {
  }

  lemma SmallWord(v: nat)
    requires v <= 0x7fff_ffff
    ensures Widened(Word(v), RANK_INT, true) == v
  {
  }

  /** `%+d` of a number that is not negative is `%d` behind a plus sign. */
  lemma PlusSign(v: nat)
    requires v <= 0x7fff_ffff
    ensures Render("%+d", [Word(v)]) == Rendered("+" + Render("%d", [Word(v)]).text, Fine)
  {
    hide Render, IntText, FlagsAre, Value, Widened;
    SmallWord(v);
    var g := OneDirective("+", Absent, 'd', Word(v));
    assert "%" + ("+" + ("" + ['d'])) == "%+d";
    var f := PlainNumber(Word(v));
    FlagsOfPlus(g);
    FlagsOfNothing(f);
    PlusText(v);
  }
}
