/** vsnprintf: the text a format stands for, and the character-driven machine
    that produces it. */
module Vsnprintf {
  import opened Arithmetic
  import opened CText
  import opened Output
  import opened FormatInt

  /** A variadic argument: one 32-bit word (int, long, pointer value), a 64-bit
      long long, or a string pointer. */
  datatype Arg = Word(w: nat) | Wide(v: nat) | Text(s: CString) | Null

  function NextArg(args: seq<Arg>): (Arg, seq<Arg>) {
    if args == [] then (Word(0), []) else (args[0], args[1..])
  }

  function AsWord(a: Arg): (w: nat)
    ensures w < TWO_32
    ensures a.Word? && a.w < 0x1_0000_0000 ==> w == a.w
  {
    match a
    case Word(w) => w % TWO_32
    case Wide(v) => v % TWO_32
    case _ => 0
  }

  function AsWide(a: Arg): (v: nat)
    ensures v < TWO_64
    ensures a.Wide? && a.v < 0x1_0000_0000_0000_0000 ==> v == a.v
  {
    match a
    case Word(w) => w % TWO_64
    case Wide(v) => v % TWO_64
    case _ => 0
  }

  function AsText(a: Arg): CString {
    if a.Text? then a.s else "(null)"
  }

  const INT_MIN: int := -0x8000_0000
  const INT_MAX: int := 0x7fff_ffff

  predicate InInt(x: int) { INT_MIN <= x <= INT_MAX }

  function AsInt(a: Arg): (x: int)
    ensures InInt(x) && (x == AsWord(a) || x == AsWord(a) - 0x1_0000_0000)
  {
    if AsWord(a) < TWO_31 then AsWord(a) else AsWord(a) - TWO_32
  }

  // -------------------------------------------------------------- conversions

  const RANK_CHAR: int := -2
  const RANK_SHORT: int := -1
  const RANK_INT: int := 0
  const RANK_LONG: int := 1
  const RANK_LONGLONG: int := 2

  function ClampRank(rank: int): (r: int)
    ensures -2 <= r <= 2
  {
    if rank < RANK_CHAR then RANK_CHAR else if rank > RANK_LONGLONG then RANK_LONGLONG else rank
  }

  /** One more than the largest unsigned value of a rank: long has 32 bits. */
  function Modulus(rank: int): (m: nat)
    ensures m > 0 && m % 2 == 0 && m <= TWO_64
  {
    if rank <= RANK_CHAR then 0x100
    else if rank == RANK_SHORT then 0x1_0000
    else if rank <= RANK_LONG then TWO_32
    else TWO_64
  }

  /** The signed value of `v` in a type of `m` values. */
  function Signed(v: nat, m: nat): int {
    if v < m / 2 then v else v - m
  }

  /** The argument cast to the type of the rank and widened to uintmax_t. */
  function Widened(a: Arg, rank: int, signed: bool): (val: nat)
    ensures val < TWO_64
  {
    var low := CastTo(a, rank);
    if signed && Modulus(rank) / 2 <= low then TWO_64 - Modulus(rank) + low else low
  }

  /** What is left of an argument in the unsigned type of a rank. */
  function CastTo(a: Arg, rank: int): (low: nat)
    ensures low < Modulus(rank)
  {
    (if rank == RANK_LONGLONG then AsWide(a) else AsWord(a)) % Modulus(rank)
  }

  /** Widening keeps the signed value when signed and the value when not, and
      casting back gives the same bits. */
  lemma WidenedValue(a: Arg, rank: int, signed: bool)
    ensures var val, low := Widened(a, rank, signed), CastTo(a, rank);
            && val % Modulus(rank) == low
            && if signed then Signed(val, TWO_64) == Signed(low, Modulus(rank)) else val == low
  {
    hide AsWide, AsWord;
    WidenedResidue(CastTo(a, rank), rank);
  }

  lemma WidenedResidue(low: nat, rank: int)
    requires low < Modulus(rank)
    ensures (TWO_64 - Modulus(rank) + low) % Modulus(rank) == low
  {
    if Modulus(rank) == TWO_32 {
      assert TWO_64 - TWO_32 + low == 0xffff_ffff * TWO_32 + low;
    } else if Modulus(rank) == 0x1_0000 {
      assert TWO_64 - 0x1_0000 + low == 0xffff_ffff_ffff * 0x1_0000 + low;
    } else if Modulus(rank) == 0x100 {
      assert TWO_64 - 0x100 + low == 0xff_ffff_ffff_ffff * 0x100 + low;
    }
  }

  predicate IsSignedConv(c: char) { c == 'd' || c == 'i' }

  predicate IsUnsignedConv(c: char) { c == 'o' || c == 'u' || c == 'x' || c == 'X' }

  predicate IsPointerConv(c: char) { c == 'p' || c == 'P' }

  function ConvBase(c: char): (b: nat)
    ensures 2 <= b <= 16
  {
    if c == 'o' then 8 else if c == 'd' || c == 'i' || c == 'u' then 10 else 16
  }

  function ConvFlags(c: char, f: Flags): Flags {
    f.(signed := IsSignedConv(c), upper := c == 'X' || c == 'P', hash := f.hash || IsPointerConv(c))
  }

  predicate IsIntConv(c: char) { IsSignedConv(c) || IsUnsignedConv(c) || IsPointerConv(c) }

  predicate IsStringConv(c: char) { c == 'c' || c == 's' }

  predicate TakesArg(c: char) {
    IsIntConv(c) || IsStringConv(c) || c == 'n'
  }

  // ---------------------------------------------------------- pieces of output

  /** What can go wrong where C gives the code no meaning: an int leaves its range,
      or a string is read past its end. */
  datatype Fault = Fine | Overflow | Overread

  /** A format is a list of literals and of directives with their arguments;
      OutOfInt is a width or precision that no int can hold. */
  datatype Piece =
    | Literal(c: char)
    | Spec(conv: char, f: Flags, width: int, prec: int, rank: int, arg: Arg)
    | OutOfInt

  predicate IsInteger(p: Piece) {
    p.Spec? && IsIntConv(p.conv)
  }

  /** Value and precision of an integer directive: pointers have eight digits. */
  function ValueOf(p: Piece): (val: nat)
    requires p.Spec?
    ensures val < TWO_64
  {
    if IsPointerConv(p.conv) then AsWord(p.arg) else Widened(p.arg, p.rank, IsSignedConv(p.conv))
  }

  function PrecOf(p: Piece): int
    requires p.Spec?
  {
    if IsPointerConv(p.conv) then 8 else p.prec
  }

  /** The bytes of a string argument, and how many of them are its text: a string
      ends with its NUL, a character is alone. */
  function BytesOf(p: Piece): seq<char>
    requires p.Spec?
  {
    if p.conv == 'c' then [(AsWord(p.arg) % 256) as char] else AsText(p.arg) + ['\0']
  }

  function LengthOf(p: Piece): (n: nat)
    requires p.Spec?
    ensures n <= |BytesOf(p)|
  {
    if p.conv == 'c' then 1 else |AsText(p.arg)|
  }

  /** A %c or %s with a precision below -1, which digits after a negative star
      make: the code takes it for the length of the string. */
  predicate Runaway(p: Piece) {
    p.Spec? && IsStringConv(p.conv) && p.prec < -1
  }

  /** An integer that needs more characters than an int can count, or a width or
      precision that is no int. */
  predicate TooWide(p: Piece) {
    p.OutOfInt? ||
    (IsInteger(p) && !InInt(Needed(ValueOf(p), ConvFlags(p.conv, p.f), ConvBase(p.conv), PrecOf(p))))
  }

  function FaultOf(p: Piece): Fault {
    if TooWide(p) then Overflow else if Runaway(p) then Overread else Fine
  }

  /** The first `cut` bytes padded to the width. A negative `cut` is larger than
      any string: padding up from it, and then every byte there is. */
  function StringText(bytes: seq<char>, cut: int, f: Flags, width: int): seq<char>
    requires cut <= |bytes|
  {
    (if !f.minus then Repeat(if f.zero then '0' else ' ', width - cut) else [])
    + (if cut < 0 then bytes else bytes[..cut])
    + (if f.minus && 0 <= cut then Repeat(' ', width - cut) else [])
  }

  lemma StringWidth(bytes: seq<char>, cut: int, f: Flags, width: int)
    requires 0 <= cut <= |bytes|
    ensures |StringText(bytes, cut, f, width)| == Max(width, cut)
  {
  }

  function CutOf(len: nat, prec: int): (cut: int)
    ensures cut <= len
  {
    if prec != -1 && len > prec then prec else len
  }

  /** What a piece prints; %n prints nothing. */
  function TextOf(p: Piece): seq<char> {
    match p
    case Literal(c) => [c]
    case OutOfInt => []
    case Spec(c, f, width, prec, _, _) =>
      if TooWide(p) then []
      else if IsInteger(p) then IntText(ValueOf(p), ConvFlags(c, f), ConvBase(c), width, PrecOf(p))
      else if IsStringConv(c) then StringText(BytesOf(p), CutOf(LengthOf(p), prec), f, width)
      else if c == 'n' then []
      else [c]
  }

  lemma IntegerPiece(p: Piece)
    requires IsInteger(p)
    ensures var val, f, base, prec := ValueOf(p), ConvFlags(p.conv, p.f), ConvBase(p.conv), PrecOf(p);
            && FaultOf(p) == (if InInt(Needed(val, f, base, prec)) then Fine else Overflow)
            && TextOf(p) == if FaultOf(p) == Fine then IntText(val, f, base, p.width, prec) else []
  {
    hide IntText, Needed, ValueOf;
  }

  lemma StringPiece(p: Piece)
    requires p.Spec? && IsStringConv(p.conv)
    ensures FaultOf(p) == if p.prec < -1 then Overread else Fine
    ensures TextOf(p) == StringText(BytesOf(p), CutOf(LengthOf(p), p.prec), p.f, p.width)
  {
    hide StringText, BytesOf, LengthOf;
  }

  lemma OtherPiece(p: Piece)
    requires p.Spec? && !IsInteger(p) && !IsStringConv(p.conv)
    ensures FaultOf(p) == Fine && TextOf(p) == if p.conv == 'n' then [] else [p.conv]
  {
  }

  datatype Rendered = Rendered(text: seq<char>, fault: Fault)

  function Then(text: seq<char>, r: Rendered): Rendered { Rendered(text + r.text, r.fault) }

  /** The pieces one after the other, up to the first that goes wrong. */
  function Print(ps: seq<Piece>): Rendered {
    if ps == [] then Rendered([], Fine)
    else if FaultOf(ps[0]) != Fine then Rendered(TextOf(ps[0]), FaultOf(ps[0]))
    else Then(TextOf(ps[0]), Print(ps[1..]))
  }

  predicate AllFine(ps: seq<Piece>) { forall p :: p in ps ==> !Runaway(p) && !TooWide(p) }

  /** Printing goes well exactly when no piece is a runaway string or too wide. */
  lemma {:induction false} PrintFineIff(ps: seq<Piece>)
    ensures Print(ps).fault == Fine <==> AllFine(ps)
  {
    hide TextOf, Runaway, TooWide;
    if ps == [] {
    } else {
      PrintFineIff(ps[1..]);
      assert ps == [ps[0]] + ps[1..];
    }
  }

  /** Printing what has gone well, and then the rest. */
  lemma {:induction false} PrintAppend(done: seq<Piece>, rest: seq<Piece>)
    requires AllFine(done)
    ensures Print(done + rest) == Then(Print(done).text, Print(rest))
  {
    hide TextOf, Runaway, TooWide;
    if done == [] {
      assert done + rest == rest;
      assert [] + Print(rest).text == Print(rest).text;
    } else {
      assert (done + rest)[1..] == done[1..] + rest;
      PrintAppend(done[1..], rest);
      var a, b, c := TextOf(done[0]), Print(done[1..]).text, Print(rest).text;
      assert a + (b + c) == a + b + c;
    }
  }

  // -------------------------------------------- the text a format stands for

  predicate IsFlag(c: char) {
    c == '-' || c == '+' || c == '\'' || c == ' ' || c == '#' || c == '0'
  }

  function WithFlag(f: Flags, c: char): Flags {
    match c
    case '-' => f.(minus := true)
    case '+' => f.(plus := true)
    case '\'' => f.(tick := true)
    case ' ' => f.(space := true)
    case '#' => f.(hash := true)
    case _ => f.(zero := true)
  }

  /** The longest run of flag characters. */
  function ScanFlags(s: seq<char>, f: Flags): (r: (Flags, seq<char>))
    ensures |r.1| <= |s|
  {
    if s == [] || !IsFlag(s[0]) then (f, s) else ScanFlags(s[1..], WithFlag(f, s[0]))
  }

  /** `fits` says that the width never left the range of an int. */
  datatype Width = Width(width: int, flags: Flags, args: seq<Arg>, rest: seq<char>, fits: bool)

  /** Digits and stars of the field width; a negative star means left. */
  function ScanWidth(s: seq<char>, width: int, f: Flags, args: seq<Arg>): (r: Width)
    ensures |r.rest| <= |s|
  {
    if !InInt(width) then Width(width, f, args, s, false)
    else if s != [] && IsDigit(s[0]) then ScanWidth(s[1..], width * 10 + DigitVal(s[0]), f, args)
    else if s != [] && s[0] == '*' then
      var (a, rest) := NextArg(args);
      var w := AsInt(a);
      if w < 0 then ScanWidth(s[1..], -w, f.(minus := true), rest) else ScanWidth(s[1..], w, f, rest)
    else Width(width, f, args, s, true)
  }

  datatype Precision = Precision(prec: int, args: seq<Arg>, rest: seq<char>, fits: bool)

  function ScanPrec(s: seq<char>, prec: int, args: seq<Arg>): (r: Precision)
    ensures |r.rest| <= |s|
  {
    if !InInt(prec) then Precision(prec, args, s, false)
    else if s != [] && IsDigit(s[0]) then ScanPrec(s[1..], prec * 10 + DigitVal(s[0]), args)
    else if s != [] && s[0] == '*' then
      var (a, rest) := NextArg(args);
      ScanPrec(s[1..], if AsInt(a) < 0 then -1 else AsInt(a), rest)
    else Precision(prec, args, s, true)
  }

  predicate IsModifier(c: char) {
    c == 'h' || c == 'l' || c == 'j' || c == 'z' || c == 't' || c == 'L' || c == 'q'
  }

  function WithModifier(rank: int, c: char): int {
    match c
    case 'h' => rank - 1
    case 'l' => rank + 1
    case 'j' => RANK_LONGLONG
    case 'z' => RANK_LONG
    case 't' => RANK_LONG
    case _ => rank + 2
  }

  function ScanRank(s: seq<char>, rank: int): (r: (int, seq<char>))
    ensures |r.1| <= |s|
  {
    if s == [] || !IsModifier(s[0]) then (rank, s) else ScanRank(s[1..], WithModifier(rank, s[0]))
  }

  /** The pieces of a format: literals as they are, each directive as flags,
      width, precision, length modifiers and conversion. */
  function Pieces(s: seq<char>, args: seq<Arg>): seq<Piece>
    decreases |s|, 4
  {
    if s == [] then []
    else if s[0] != '%' then [Literal(s[0])] + Pieces(s[1..], args)
    else FromFlags(s[1..], args, NO_FLAGS)
  }

  function FromFlags(s: seq<char>, args: seq<Arg>, f: Flags): seq<Piece>
    decreases |s|, 3
  {
    var (g, rest) := ScanFlags(s, f);
    FromWidth(rest, args, g, 0)
  }

  function FromWidth(s: seq<char>, args: seq<Arg>, f: Flags, width: int): seq<Piece>
    decreases |s|, 2
  {
    var w := ScanWidth(s, width, f, args);
    if !w.fits then [OutOfInt]
    else if w.rest != [] && w.rest[0] == '.' then FromPrec(w.rest[1..], w.args, w.flags, w.width, 0)
    else FromRank(w.rest, w.args, w.flags, w.width, -1, RANK_INT)
  }

  function FromPrec(s: seq<char>, args: seq<Arg>, f: Flags, width: int, prec: int): seq<Piece>
    decreases |s|, 1
  {
    var p := ScanPrec(s, prec, args);
    if !p.fits then [OutOfInt] else FromRank(p.rest, p.args, f, width, p.prec, RANK_INT)
  }

  function FromRank(s: seq<char>, args: seq<Arg>, f: Flags, width: int, prec: int, rank: int): seq<Piece>
    decreases |s|, 0
  {
    var (r, rest) := ScanRank(s, rank);
    if rest == [] then []
    else
      var (p, left) := Directive(rest[0], f, width, prec, ClampRank(r), args);
      [p] + Pieces(rest[1..], left)
  }

  /** A directive takes its argument, if it has one. */
  function Directive(c: char, f: Flags, width: int, prec: int, rank: int, args: seq<Arg>): (Piece, seq<Arg>) {
    if TakesArg(c) then
      var (a, rest) := NextArg(args);
      (Spec(c, f, width, prec, rank, a), rest)
    else (Spec(c, f, width, prec, rank, Word(0)), args)
  }

  /** All that a format prints. */
  function Render(s: seq<char>, args: seq<Arg>): Rendered { Print(Pieces(s, args)) }

  lemma RunawayPieces(args: seq<Arg>, a: Arg)
    requires args == [Word(TWO_32 - 1), a]
    ensures Pieces("%.*0s", args) == [Spec('s', NO_FLAGS, 0, -10, RANK_INT, a)]
  {
    hide FromFlags, FromWidth, FromPrec, FromRank, Pieces, TextOf;
    NormalStep("%.*0s", args);
    assert "%.*0s"[1..] == ".*0s";
    FlagsStep(".*0s", args, NO_FLAGS);
    WidthStep(".*0s", args, NO_FLAGS, 0);
    assert ".*0s"[1..] == "*0s";
    PrecStep("*0s", args, NO_FLAGS, 0, 0);
    assert "*0s"[1..] == "0s" && args[1..] == [a];
    PrecStep("0s", [a], NO_FLAGS, 0, -1);
    assert "0s"[1..] == "s";
    PrecStep("s", [a], NO_FLAGS, 0, -10);
    RankStep("s", [a], NO_FLAGS, 0, -10, RANK_INT);
    assert "s"[1..] == "" && [a][1..] == [];
    NoPieces([]);
  }

  lemma NoPieces(args: seq<Arg>)
    ensures Pieces("", args) == []
  {
  }

  /** Precision -10, from a negative star and a zero: a string with no end. */
  lemma RunawayInput()
    ensures var args := [Word(TWO_32 - 1), Text("x")];
            !AllFine(Pieces("%.*0s", args)) && Render("%.*0s", args).fault == Overread
  {
    var args := [Word(TWO_32 - 1), Text("x")];
    RunawayPieces(args, Text("x"));
    hide Pieces, TextOf;
    var p := Spec('s', NO_FLAGS, 0, -10, RANK_INT, Text("x"));
    assert Runaway(p) && !TooWide(p);
    assert p in [p];
  }

  // ------------------------------------------------------- one character more

  lemma NormalStep(s: seq<char>, args: seq<Arg>)
    requires s != []
    ensures Pieces(s, args) ==
            if s[0] == '%' then FromFlags(s[1..], args, NO_FLAGS) else [Literal(s[0])] + Pieces(s[1..], args)
  {
  }

  lemma FlagsStep(s: seq<char>, args: seq<Arg>, f: Flags)
    requires s != []
    ensures FromFlags(s, args, f) ==
            if IsFlag(s[0]) then FromFlags(s[1..], args, WithFlag(f, s[0])) else FromWidth(s, args, f, 0)
  {
  }

  lemma WidthStep(s: seq<char>, args: seq<Arg>, f: Flags, width: int)
    requires s != [] && InInt(width)
    ensures FromWidth(s, args, f, width) ==
            if IsDigit(s[0]) then FromWidth(s[1..], args, f, width * 10 + DigitVal(s[0]))
            else if s[0] == '*' then
              var (a, rest) := NextArg(args);
              var w := AsInt(a);
              if w < 0 then FromWidth(s[1..], rest, f.(minus := true), -w) else FromWidth(s[1..], rest, f, w)
            else if s[0] == '.' then FromPrec(s[1..], args, f, width, 0)
            else FromRank(s, args, f, width, -1, RANK_INT)
  {
  }

  lemma PrecStep(s: seq<char>, args: seq<Arg>, f: Flags, width: int, prec: int)
    requires s != [] && InInt(prec)
    ensures FromPrec(s, args, f, width, prec) ==
            if IsDigit(s[0]) then FromPrec(s[1..], args, f, width, prec * 10 + DigitVal(s[0]))
            else if s[0] == '*' then
              var (a, rest) := NextArg(args);
              FromPrec(s[1..], rest, f, width, if AsInt(a) < 0 then -1 else AsInt(a))
            else FromRank(s, args, f, width, prec, RANK_INT)
  {
  }

  lemma RankStep(s: seq<char>, args: seq<Arg>, f: Flags, width: int, prec: int, rank: int)
    requires s != []
    ensures FromRank(s, args, f, width, prec, rank) ==
            if IsModifier(s[0]) then FromRank(s[1..], args, f, width, prec, WithModifier(rank, s[0]))
            else
              var (p, left) := Directive(s[0], f, width, prec, ClampRank(rank), args);
              [p] + Pieces(s[1..], left)
  {
  }

  /** A width or precision beyond an int is the end. */
  lemma OutOfIntStep(s: seq<char>, args: seq<Arg>, f: Flags, width: int, prec: int)
    ensures !InInt(width) ==> FromWidth(s, args, f, width) == [OutOfInt]
    ensures !InInt(prec) ==> FromPrec(s, args, f, width, prec) == [OutOfInt]
  {
  }

  // --------------------------------------------------------------- the machine

  datatype State = StNormal | StFlags | StWidth | StPrec | StModifiers

  function StateRank(st: State): nat {
    match st
    case StNormal => 4
    case StFlags => 3
    case StWidth => 2
    case StPrec => 1
    case StModifiers => 0
  }

  /** The variables of the loop that belong to the directive being read. */
  datatype Machine = Machine(st: State, f: Flags, width: int, prec: int, rank: int, ap: seq<Arg>)

  /** Fields a state has not reached yet still have the values set at the %, and
      every int is one. */
  predicate Fresh(m: Machine) {
    && (m.st.StFlags? ==> m.width == 0)
    && (m.st.StFlags? || m.st.StWidth? ==> m.prec == -1)
    && (m.st.StFlags? || m.st.StWidth? || m.st.StPrec? ==> m.rank == RANK_INT)
    && InInt(m.width) && InInt(m.prec)
  }

  /** What the machine has still to print in a given state. */
  function Pending(m: Machine, s: seq<char>): seq<Piece> {
    match m.st
    case StNormal => Pieces(s, m.ap)
    case StFlags => FromFlags(s, m.ap, m.f)
    case StWidth => FromWidth(s, m.ap, m.f, m.width)
    case StPrec => FromPrec(s, m.ap, m.f, m.width, m.prec)
    case StModifiers => FromRank(s, m.ap, m.f, m.width, m.prec, m.rank)
  }

  lemma NothingPending(m: Machine)
    requires Fresh(m)
    ensures Pending(m, []) == []
  {
  }

  /** Placing text behind what is already there. */
  lemma PlacedTwice(now: seq<char>, mid: seq<char>, was: seq<char>, n: nat,
                    out: seq<char>, q: nat, m: nat, text: seq<char>)
    requires Placed(mid, was, 0, n, out) && Placed(now, mid, q, m, text)
    requires |out| <= n ==> q == |out|
    requires m == if |out| < n then n - |out| else 0
    ensures Placed(now, was, 0, n, out + text)
  {
  }

  /** The loop over a string: `slen` bytes, or, counting down from below zero, on
      and on until there are no more bytes to read. */
  method EmitBytes(buf: array<char>, q0: nat, o0: nat, n: nat, bytes: seq<char>, slen: int,
                   ghost was: seq<char>, ghost out: seq<char>)
    returns (q: nat, o: nat, fault: Fault)
    requires slen <= |bytes| && Cursor(buf, was, 0, n, q0, o0, out)
    modifies buf
    ensures fault == if slen < 0 then Overread else Fine
    ensures Cursor(buf, was, 0, n, q, o, out + if slen < 0 then bytes else bytes[..slen])
  {
    hide Cursor;
    q, o, fault := q0, o0, Fine;
    var i, k := slen, 0;
    assert out + bytes[..0] == out;
    while i != 0
      invariant 0 <= k <= |bytes| && i == slen - k && (0 <= slen ==> 0 <= i)
      invariant Cursor(buf, was, 0, n, q, o, out + bytes[..k])
      decreases |bytes| - k
    {
      if k == |bytes| {
        assert bytes[..k] == bytes;
        fault := Overread;
        return;
      }
      q, o := Emit(buf, q, o, n, bytes[k], was, 0, out + bytes[..k]);
      assert out + bytes[..k] + [bytes[k]] == out + bytes[..k + 1];
      k, i := k + 1, i - 1;
    }
  }

  method EmitString(buf: array<char>, q0: nat, o0: nat, n: nat, bytes: seq<char>, len: nat, f: Flags,
                    width0: int, prec: int, ghost was: seq<char>, ghost out: seq<char>)
    returns (q: nat, o: nat, fault: Fault)
    requires len <= |bytes| && Cursor(buf, was, 0, n, q0, o0, out)
    modifies buf
    ensures fault == if prec < -1 then Overread else Fine
    ensures Cursor(buf, was, 0, n, q, o, out + StringText(bytes, CutOf(len, prec), f, width0))
  {
    hide Cursor, Repeat;
    var slen: int, width := len, width0;
    if prec != -1 && slen > prec {
      slen := prec;
    }
    StringParts(bytes, slen, f, width0);
    ghost var body := if slen < 0 then bytes else bytes[..slen];
    if f.minus {
      q, o, fault := EmitBytes(buf, q0, o0, n, bytes, slen, was, out);
      if fault == Fine {
        q, o, width := EmitPad(buf, q, o, n, ' ', width, slen, was, 0, out + body);
        assert out + body + Repeat(' ', width0 - slen) == out + (body + Repeat(' ', width0 - slen));
      }
    } else {
      var pad := if f.zero then '0' else ' ';
      q, o, width := EmitPad(buf, q0, o0, n, pad, width, slen, was, 0, out);
      q, o, fault := EmitBytes(buf, q, o, n, bytes, slen, was, out + Repeat(pad, width0 - slen));
      assert out + Repeat(pad, width0 - slen) + body == out + (Repeat(pad, width0 - slen) + body);
    }
  }

  lemma StringParts(bytes: seq<char>, cut: int, f: Flags, width: int)
    requires cut <= |bytes|
    ensures var body := if cut < 0 then bytes else bytes[..cut];
            StringText(bytes, cut, f, width) ==
            if !f.minus then Repeat(if f.zero then '0' else ' ', width - cut) + body
            else if cut < 0 then body
            else body + Repeat(' ', width - cut)
  {
    hide Repeat;
  }

  /** The call of format_int with the room that is left. */
  method EmitInt(buf: array<char>, q0: nat, o0: nat, n: nat, val: nat, f: Flags, base: nat, width: int, prec: int,
                 ghost was: seq<char>, ghost out: seq<char>)
    returns (q: nat, o: nat, fault: Fault)
    requires Cursor(buf, was, 0, n, q0, o0, out) && val < TWO_64 && 2 <= base <= 16
    modifies buf
    ensures fault == if InInt(Needed(val, f, base, prec)) then Fine else Overflow
    ensures Cursor(buf, was, 0, n, q, o, out + if fault == Fine then IntText(val, f, base, width, prec) else [])
  {
    hide IntText, Needed;
    ghost var mid := buf[..];
    var room := if o0 < n then n - o0 else 0;
    var sz, fits := Format(buf, q0, room, val, f, base, width, prec);
    if !fits {
      assert out + [] == out;
      return q0, o0, Overflow;
    }
    PlacedTwice(buf[..], mid, was, n, out, q0, room, IntText(val, f, base, width, prec));
    q, o, fault := q0 + sz, o0 + sz, Fine;
  }

  /** The cases that meet at is_integer ... */
  method LoadInteger(c: char, f: Flags, prec: int, rank: int, a: Arg)
    returns (val: nat, g: Flags, base: nat, digits: int)
    requires IsIntConv(c)
    ensures var p := Spec(c, f, 0, prec, rank, a);
            val == ValueOf(p) && g == ConvFlags(c, f) && base == ConvBase(c) && digits == PrecOf(p)
  {
    hide Widened, AsWord;
    digits := prec;
    if c == 'P' || c == 'p' {
      base, digits, val := 16, 8, AsWord(a);
      g := f.(signed := false, upper := c == 'P', hash := true);
    } else if c == 'd' || c == 'i' {
      base, val := 10, Widened(a, rank, true);
      g := f.(signed := true, upper := false);
    } else {
      base := if c == 'o' then 8 else if c == 'u' then 10 else 16;
      val := Widened(a, rank, false);
      g := f.(signed := false, upper := c == 'X');
    }
  }

  /** ... and at is_string. */
  method LoadString(c: char, a: Arg) returns (bytes: seq<char>, len: nat)
    requires IsStringConv(c)
    ensures forall f, width, prec, rank :: var p := Spec(c, f, width, prec, rank, a);
              bytes == BytesOf(p) && len == LengthOf(p)
  {
    if c == 'c' {
      bytes, len := [(AsWord(a) % 256) as char], 1;
    } else {
      bytes, len := AsText(a) + ['\0'], |AsText(a)|;
    }
  }

  /** The switch on the conversion character. */
  method Convert(buf: array<char>, q0: nat, o0: nat, n: nat, c: char, f: Flags, width: int, prec: int, rank: int,
                 ap0: seq<Arg>, ghost was: seq<char>, ghost out: seq<char>)
    returns (q: nat, o: nat, ap: seq<Arg>, fault: Fault)
    requires Cursor(buf, was, 0, n, q0, o0, out)
    modifies buf
    ensures var (p, left) := Directive(c, f, width, prec, rank, ap0);
            Cursor(buf, was, 0, n, q, o, out + TextOf(p)) && fault == FaultOf(p) && ap == left
  {
    hide Cursor, IntText, StringText, Widened, AsWord, AsText, Needed, TextOf, FaultOf, BytesOf, LengthOf;
    q, o, fault := q0, o0, Fine;
    var (a, rest) := NextArg(ap0);
    ap := rest;
    ghost var p := Directive(c, f, width, prec, rank, ap0).0;
    if IsInteger(p) {
      IntegerPiece(p);
    } else if IsStringConv(c) {
      StringPiece(p);
    } else {
      OtherPiece(p);
    }
    if IsIntConv(c) {
      var val, g, base, digits := LoadInteger(c, f, prec, rank, a);
      q, o, fault := EmitInt(buf, q, o, n, val, g, base, width, digits, was, out);
    } else if c == 'c' || c == 's' {
      var bytes, len := LoadString(c, a);
      q, o, fault := EmitString(buf, q, o, n, bytes, len, f, width, prec, was, out);
    } else if c == 'n' {
      assert out + [] == out;
    } else {
      ap := ap0;
      q, o := Emit(buf, q, o, n, c, was, 0, out);
    }
  }

  /** One character inside a directive; `again` is the source's `p--`. */
  method ReadSpec(m0: Machine, ch: char, ghost s: seq<char>) returns (m: Machine, again: bool, fault: Fault)
    requires Fresh(m0) && s != [] && s[0] == ch
    requires !m0.st.StNormal? && (m0.st.StModifiers? ==> IsModifier(ch))
    ensures fault == Fine ==>
              && Fresh(m) && !m.st.StNormal?
              && Pending(m, if again then s else s[1..]) == Pending(m0, s)
              && (again ==> StateRank(m.st) < StateRank(m0.st))
    ensures fault != Fine ==> fault == Overflow && Pending(m0, s) == [OutOfInt]
  {
    hide FromFlags, FromWidth, FromPrec, FromRank, Pieces;
    m, again, fault := m0, false, Fine;
    match m.st {
      case StFlags =>
        FlagsStep(s, m.ap, m.f);
        if IsFlag(ch) {
          m := m.(f := WithFlag(m.f, ch));
        } else {
          m, again := m.(st := StWidth), true;
        }
      case StWidth =>
        WidthStep(s, m.ap, m.f, m.width);
        if IsDigit(ch) {
          m := m.(width := m.width * 10 + DigitVal(ch));
        } else if ch == '*' {
          var (a, rest) := NextArg(m.ap);
          m := m.(ap := rest, width := AsInt(a));
          if m.width < 0 {
            m := m.(width := -m.width, f := m.f.(minus := true));
          }
        } else if ch == '.' {
          m := m.(prec := 0, st := StPrec);
        } else {
          m, again := m.(st := StModifiers), true;
        }
      case StPrec =>
        PrecStep(s, m.ap, m.f, m.width, m.prec);
        if IsDigit(ch) {
          m := m.(prec := m.prec * 10 + DigitVal(ch));
        } else if ch == '*' {
          var (a, rest) := NextArg(m.ap);
          m := m.(ap := rest, prec := AsInt(a));
          if m.prec < 0 {
            m := m.(prec := -1);
          }
        } else {
          m, again := m.(st := StModifiers), true;
        }
      case StModifiers =>
        RankStep(s, m.ap, m.f, m.width, m.prec, m.rank);
        m := m.(rank := WithModifier(m.rank, ch));
    }
    if !InInt(m.width) || !InInt(m.prec) {
      fault := Overflow;
      OutOfIntStep(s[1..], m.ap, m.f, m.width, m.prec);
    }
  }

  /** One turn of the loop: what it emits is what the state owed for `ch`. */
  method Turn(buf: array<char>, q0: nat, o0: nat, n: nat, m0: Machine, ch: char,
              ghost s: seq<char>, ghost was: seq<char>, ghost out: seq<char>)
    returns (q: nat, o: nat, m: Machine, again: bool, fault: Fault, ghost ps: seq<Piece>)
    requires Fresh(m0) && s != [] && s[0] == ch && Cursor(buf, was, 0, n, q0, o0, out)
    modifies buf
    ensures Fresh(m)
    ensures ps == [] || |ps| == 1
    ensures Cursor(buf, was, 0, n, q, o, out + if ps == [] then [] else TextOf(ps[0]))
    ensures fault == if ps == [] then Fine else FaultOf(ps[0])
    ensures fault == Fine ==>
              && Pending(m0, s) == ps + Pending(m, if again then s else s[1..])
              && (again ==> StateRank(m.st) < StateRank(m0.st))
    ensures fault != Fine ==> exists rest :: Pending(m0, s) == ps + rest
  {
    hide Cursor, Pieces, FromFlags, FromWidth, FromPrec, FromRank, Directive, ClampRank, FaultOf, TextOf;
    q, o, m, again, fault := q0, o0, m0, false, Fine;
    if m.st.StNormal? {
      NormalStep(s, m.ap);
      if ch == '%' {
        m, ps := Machine(StFlags, NO_FLAGS, 0, -1, RANK_INT, m.ap), [];
        assert out + [] == out;
      } else {
        q, o := Emit(buf, q, o, n, ch, was, 0, out);
        ps := [Literal(ch)];
        LiteralPiece(ch);
      }
    } else if m.st.StModifiers? && !IsModifier(ch) {
      RankStep(s, m.ap, m.f, m.width, m.prec, m.rank);
      ps := [Directive(ch, m.f, m.width, m.prec, ClampRank(m.rank), m.ap).0];
      var ap;
      q, o, ap, fault := Convert(buf, q, o, n, ch, m.f, m.width, m.prec, ClampRank(m.rank), m.ap, was, out);
      m := m.(st := StNormal, ap := ap);
    } else {
      var next;
      next, again, fault := ReadSpec(m, ch, s);
      if fault == Fine {
        m, ps := next, [];
      } else {
        ps := [OutOfInt];
        OutOfIntPiece();
        assert Pending(m0, s) == ps + [];
      }
      assert out + [] == out;
    }
  }

  lemma LiteralPiece(c: char)
    ensures TextOf(Literal(c)) == [c] && FaultOf(Literal(c)) == Fine
  {
  }

  lemma OutOfIntPiece()
    ensures TextOf(OutOfInt) == [] && FaultOf(OutOfInt) == Overflow
  {
  }

  /** One piece more has been printed. */
  lemma Printed(done: seq<Piece>, p: Piece, rest: seq<Piece>)
    requires AllFine(done)
    ensures FaultOf(p) == Fine ==> AllFine(done + [p]) && Print(done + [p]).text == Print(done).text + TextOf(p)
    ensures FaultOf(p) != Fine ==>
              Print(done + ([p] + rest)) == Rendered(Print(done).text + TextOf(p), FaultOf(p))
  {
    PrintAppend(done, [p]);
    PrintAppend(done, [p] + rest);
    assert TextOf(p) + [] == TextOf(p);
    hide TextOf, Runaway, TooWide;
  }

  /** The loop over the format. `p--` re-reads a character in a lower state, so
      the pair of characters left and state decreases. */
  method RunFormat(buf: array<char>, n: nat, format: CString, ap0: seq<Arg>, ghost was: seq<char>)
    returns (q: nat, o: nat, fault: Fault)
    requires was == buf[..] && n <= buf.Length
    modifies buf
    ensures Cursor(buf, was, 0, n, q, o, Render(format, ap0).text)
    ensures fault == Render(format, ap0).fault
  {
    hide Cursor, Pieces, Pending, Fresh, Placed, Print, FaultOf, TextOf, AllFine;
    var p, m := 0, Machine(StNormal, NO_FLAGS, 0, -1, RANK_INT, ap0);
    q, o, fault := 0, 0, Fine;
    ghost var done: seq<Piece> := [];
    assert format[0..] == format;
    AtStart(m, format);
    CursorStart(buf, n);
    while true
      invariant 0 <= p <= |format| && Fresh(m) && AllFine(done) && fault == Fine
      invariant Cursor(buf, was, 0, n, q, o, Print(done).text)
      invariant Pieces(format, ap0) == done + Pending(m, format[p..])
      decreases |format| - p, StateRank(m.st)
    {
      var ch := At(format, p);
      if ch == '\0' {
        NothingPending(m);
        assert format[p..] == [] && done + [] == done;
        PrintFineIff(done);
        break;
      }
      ghost var s := format[p..];
      assert s != [] && s[0] == ch && s[1..] == format[p + 1..];
      p := p + 1;
      var again;
      ghost var ps, out := [], Print(done).text;
      ghost var before := Pending(m, s);
      q, o, m, again, fault, ps := Turn(buf, q, o, n, m, ch, s, was, out);
      if fault != Fine {
        ghost var rest :| before == ps + rest;
        Printed(done, ps[0], rest);
        assert ps == [ps[0]];
        break;
      }
      Advance(done, ps, Pending(m, format[if again then p - 1 else p..]));
      done := done + ps;
      if again {
        p := p - 1;
      }
    }
  }

  lemma Advance(done: seq<Piece>, ps: seq<Piece>, rest: seq<Piece>)
    requires AllFine(done) && (ps == [] || (|ps| == 1 && FaultOf(ps[0]) == Fine))
    ensures done + (ps + rest) == done + ps + rest && AllFine(done + ps)
    ensures Print(done + ps).text == Print(done).text + if ps == [] then [] else TextOf(ps[0])
  {
    hide TextOf, FaultOf, Print, AllFine;
    if ps == [] {
      assert done + ps == done;
    } else {
      assert ps == [ps[0]];
      Printed(done, ps[0], rest);
    }
  }

  lemma AtStart(m: Machine, s: seq<char>)
    requires m.st.StNormal? && m.width == 0 && m.prec == -1
    ensures Fresh(m) && Pieces(s, m.ap) == [] + Pending(m, s)
    ensures AllFine([]) && Print([]).text == []
  {
    hide Pieces;
  }

  /** vsnprintf returns if and only if no %c or %s is reached with a precision
      below -1 and no width, precision or integer field is beyond an int. Then it
      writes exactly the first n - 1 characters of the whole text and a NUL,
      touches nothing else, and returns the length of the whole text if an int
      can hold it. Otherwise the text up to that point is what it has written. */
  method Vsnprintf(buffer: array<char>, n: nat, format: CString, ap: seq<Arg>) returns (r: int, fault: Fault)
    requires n <= buffer.Length
    modifies buffer
    ensures fault == Fine <==> AllFine(Pieces(format, ap))
    ensures fault == Render(format, ap).fault
    ensures fault == Fine ==>
              var text := Render(format, ap).text;
              && InInt(r) && (r == |text| <==> InInt(|text|))
              && (n == 0 ==> buffer[..] == old(buffer[..]))
              && (n > 0 ==>
                    var m := if |text| < n then |text| else n - 1;
                    buffer[..] == text[..m] + ['\0'] + old(buffer[m + 1..]))
    ensures fault != Fine ==> Placed(buffer[..], old(buffer[..]), 0, n, Render(format, ap).text)
  {
    hide Render, AllFine;
    ghost var was := buffer[..];
    var q, o;
    q, o, fault := RunFormat(buffer, n, format, ap, was);
    FineIff(format, ap);
    if fault != Fine {
      return 0, fault;
    }
    if o < n {
      buffer[q] := '\0';
    } else if n > 0 {
      buffer[n - 1] := '\0';
    }
    r := Signed(o % TWO_32, TWO_32);
  }

  lemma FineIff(format: seq<char>, args: seq<Arg>)
    ensures Render(format, args).fault == Fine <==> AllFine(Pieces(format, args))
  {
    PrintFineIff(Pieces(format, args));
  }
}
