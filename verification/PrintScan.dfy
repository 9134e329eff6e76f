/** vsscanf takes back what vsnprintf printed with the same format. */
module PrintScan {
  import opened Arithmetic
  import opened CText
  import opened Directives
  import opened FormatInt
  import opened ScanDirectives
  import opened Strntoumax
  import opened IntLayout
  import opened IntRoundTrip
  import P = Vsnprintf
  import S = Vsscanf

  datatype Length = HH | H | NoLength | L | LL

  /** A plain integer directive such as %d, %hx or %llu. */
  datatype Dir = Dir(length: Length, conv: char)

  predicate GoodDir(d: Dir) { d.conv in "diuoxX" }

  function LengthText(l: Length): seq<char> {
    match l
    case HH => "hh"
    case H => "h"
    case NoLength => ""
    case L => "l"
    case LL => "ll"
  }

  function RankOf(l: Length): int {
    match l
    case HH => P.RANK_CHAR
    case H => P.RANK_SHORT
    case NoLength => P.RANK_INT
    case L => P.RANK_LONG
    case LL => P.RANK_LONGLONG
  }

  function DirText(d: Dir): seq<char> { "%" + LengthText(d.length) + [d.conv] }

  /** A directive and the text that follows it. */
  datatype Part = Part(dir: Dir, text: seq<char>)

  predicate GoodParts(ps: seq<Part>) { forall p :: p in ps ==> GoodDir(p.dir) && Verbatim(p.text) }

  /** Text that stands for itself in a format. */
  predicate Verbatim(s: seq<char>) { '%' !in s && '\0' !in s }

  predicate Alphanumeric(c: char) { '0' <= c <= '9' || 'A' <= c <= 'Z' || 'a' <= c <= 'z' }

  predicate Blank(c: char) { c as int in {8, 9, 10, 11, 12, 13, 32, 160} }

  /** `b` cannot be taken for more of a number. */
  predicate Apart(b: seq<char>) { b == [] || !Alphanumeric(b[0]) }

  /** Blanks that end `s` do not run on in `b`. */
  predicate NoRun(s: seq<char>, b: seq<char>) {
    s == [] || !Blank(s[|s| - 1]) || b == [] || !Blank(b[0])
  }

  /** Numbers are kept apart: only the last text may be empty. */
  predicate Separated(ps: seq<Part>, b: seq<char>) {
    if ps == [] then true
    else if |ps| == 1 then Apart(ps[0].text + b) && NoRun(ps[0].text, b)
    else ps[0].text != [] && Apart(ps[0].text) && Separated(ps[1..], b)
  }

  function FormatOf(ps: seq<Part>): seq<char> {
    if ps == [] then "" else DirText(ps[0].dir) + (ps[0].text + FormatOf(ps[1..]))
  }

  /** The argument as the type of the directive holds it. */
  function Original(d: Dir, a: P.Arg): S.Stored {
    S.Stored(RankOf(d.length), P.CastTo(a, RankOf(d.length)))
  }

  function Originals(ps: seq<Part>, args: seq<P.Arg>): seq<S.Stored>
    requires |ps| == |args|
  {
    if ps == [] then [] else [Original(ps[0].dir, args[0])] + Originals(ps[1..], args[1..])
  }

  // ------------------------------------------------------------ printed text

  function DirVal(d: Dir, a: P.Arg): (val: nat)
    ensures val < TWO_64
  {
    P.Widened(a, RankOf(d.length), P.IsSignedConv(d.conv))
  }

  function DirFlags(d: Dir): Flags { P.ConvFlags(d.conv, NO_FLAGS) }

  function DirOut(d: Dir, a: P.Arg): seq<char> {
    IntText(DirVal(d, a), DirFlags(d), P.ConvBase(d.conv), 0, -1)
  }

  function Out(ps: seq<Part>, args: seq<P.Arg>): seq<char>
    requires |ps| == |args|
  {
    if ps == [] then "" else DirOut(ps[0].dir, args[0]) + (ps[0].text + Out(ps[1..], args[1..]))
  }

  lemma PrintLength(d: Dir, f: seq<char>, args: seq<P.Arg>)
    requires GoodDir(d)
    ensures P.FromFlags(LengthText(d.length) + [d.conv] + f, args, NO_FLAGS) ==
            P.FromRank([d.conv] + f, args, NO_FLAGS, 0, -1, RankOf(d.length))
  {
    hide P.FromFlags, P.FromWidth, P.FromRank, P.Directive, P.Pieces;
    var rest := [d.conv] + f;
    var s := LengthText(d.length) + [d.conv] + f;
    P.FlagsStep(s, args, NO_FLAGS);
    P.WidthStep(s, args, NO_FLAGS, 0);
    if d.length == NoLength {
      assert s == rest;
    } else {
      P.RankStep(s, args, NO_FLAGS, 0, -1, P.RANK_INT);
      if d.length == HH || d.length == LL {
        assert s[1..][1..] == rest;
        P.RankStep(s[1..], args, NO_FLAGS, 0, -1, if d.length == HH then -1 else 1);
      } else {
        assert s[1..] == rest;
      }
    }
  }

  function DirPiece(d: Dir, a: P.Arg): P.Piece {
    P.Spec(d.conv, NO_FLAGS, 0, -1, RankOf(d.length), a)
  }

  lemma DirPieces(d: Dir, f: seq<char>, args: seq<P.Arg>)
    requires GoodDir(d) && args != []
    ensures P.Pieces(DirText(d) + f, args) == [DirPiece(d, args[0])] + P.Pieces(f, args[1..])
  {
    hide P.FromFlags, P.FromRank, P.Pieces;
    var s := DirText(d) + f;
    P.NormalStep(s, args);
    assert s[1..] == LengthText(d.length) + [d.conv] + f;
    PrintLength(d, f, args);
    var r := [d.conv] + f;
    P.RankStep(r, args, NO_FLAGS, 0, -1, RankOf(d.length));
    assert r[1..] == f;
  }

  /** A plain directive is never too wide for an int. */
  lemma DirFine(d: Dir, a: P.Arg)
    requires GoodDir(d)
    ensures P.FaultOf(DirPiece(d, a)) == P.Fine && P.TextOf(DirPiece(d, a)) == DirOut(d, a)
  {
    hide P.FaultOf, P.TextOf, IntText, Needed, P.Widened;
    P.IntegerPiece(DirPiece(d, a));
    PlainText(d, a);
    IntTextWidth(DirVal(d, a), DirFlags(d), P.ConvBase(d.conv), 0, -1);
  }

  /** A directive, and then the rest of the format. */
  lemma PrintDir(d: Dir, f: seq<char>, args: seq<P.Arg>)
    requires GoodDir(d) && args != []
    ensures P.Render(DirText(d) + f, args) == P.Then(DirOut(d, args[0]), P.Render(f, args[1..]))
  {
    hide P.Pieces, P.Print, P.FaultOf, P.TextOf, DirOut, DirPiece;
    DirPieces(d, f, args);
    DirFine(d, args[0]);
    PrintCons(DirPiece(d, args[0]), P.Pieces(f, args[1..]));
  }

  /** The numbers, with the texts between them. */
  lemma {:induction false} PrintAll(ps: seq<Part>, args: seq<P.Arg>)
    requires GoodParts(ps) && |ps| == |args|
    ensures P.Render(FormatOf(ps), args) == P.Rendered(Out(ps, args), P.Fine)
  {
    hide DirOut, P.Render;
    if ps == [] {
      RenderNothing(args);
    } else {
      var p, rest := ps[0], FormatOf(ps[1..]);
      assert p in ps;
      PrintDir(p.dir, p.text + rest, args);
      LiteralsPrint(p.text, rest, args[1..]);
      PrintAll(ps[1..], args[1..]);
    }
  }

  lemma RenderNothing(args: seq<P.Arg>)
    ensures P.Render("", args) == P.Rendered("", P.Fine)
  {
    P.NoPieces(args);
  }

  // -------------------------------------------------------------- taken back

  lemma ScanLength(d: Dir, f: seq<char>, b: seq<char>)
    requires GoodDir(d)
    ensures S.FromStars(LengthText(d.length) + [d.conv] + f, b, false) ==
            S.FromRank([d.conv] + f, b, false, S.UINT_MAX, RankOf(d.length))
  {
    hide S.Conversion, S.Scan;
    var rest := [d.conv] + f;
    var s := LengthText(d.length) + [d.conv] + f;
    if d.length == NoLength {
      assert s == rest;
    } else if d.length == HH || d.length == LL {
      var r := if d.length == HH then -1 else 1;
      assert S.FromRank(s, b, false, S.UINT_MAX, 0) == S.FromRank(s[1..], b, false, S.UINT_MAX, r);
      assert s[1..][1..] == rest;
    } else {
      assert s[1..] == rest;
    }
  }

  lemma PlainShape(d: Dir, a: P.Arg)
    requires GoodDir(d)
    ensures var v, base := Magnitude(DirVal(d, a), DirFlags(d)), P.ConvBase(d.conv);
            DirOut(d, a) == Sign(DirVal(d, a), DirFlags(d))
                            + Numeral(v, base, DigitCount(v, DirFlags(d), base, -1), DirFlags(d).upper)
  {
    hide P.Widened, Ticked, Numeral, CountDigits, DigitCount, Magnitude;
    var v, base := Magnitude(DirVal(d, a), DirFlags(d)), P.ConvBase(d.conv);
    NoTicks(Numeral(v, base, DigitCount(v, DirFlags(d), base, -1), DirFlags(d).upper));
    TextShape(DirVal(d, a), DirFlags(d), base, 0, -1);
  }

  /** The text of a plain directive: sign and digits, at most 66 characters,
      none of them white space or NUL. */
  lemma PlainText(d: Dir, a: P.Arg)
    requires GoodDir(d)
    ensures 0 < |DirOut(d, a)| <= 66
    ensures forall c :: c in DirOut(d, a) ==> c != '\0' && !IsSpace(c)
  {
    hide P.Widened, DirOut;
    var v, f, base := Magnitude(DirVal(d, a), DirFlags(d)), DirFlags(d), P.ConvBase(d.conv);
    PlainShape(d, a);
    Pow2Of64();
    CountBound(v, base, 64);
    hide CountDigits, Numeral, Magnitude;
    PlainDigits(v, base, DigitCount(v, f, base, -1), f.upper);
  }

  lemma {:induction false} PlainDigits(v: nat, base: nat, k: nat, upper: bool)
    requires 2 <= base <= 16
    ensures forall c :: c in Numeral(v, base, k, upper) ==> c != '\0' && !IsSpace(c)
    decreases k
  {
    if k == 0 {
    } else {
      PlainDigits(v / base, base, k - 1, upper);
    }
  }

  lemma NoPadding(d: Dir, a: P.Arg)
    requires GoodDir(d)
    ensures Trail(DirVal(d, a), DirFlags(d), P.ConvBase(d.conv), 0, -1) == []
    ensures Zeros(DirVal(d, a), DirFlags(d), P.ConvBase(d.conv), 0, -1) == 0
  {
  }

  lemma ReadDir(d: Dir, a: P.Arg, tail: seq<char>)
    requires GoodDir(d) && (tail == [] || DigitVal(tail[0]) < 0)
    ensures Parse(DirOut(d, a) + tail, S.ScanBase(d.conv)) == (DirVal(d, a), |DirOut(d, a)|)
  {
    hide Parse, IntText, Digits, Trail, Magnitude, P.Widened;
    var base := P.ConvBase(d.conv);
    NoPadding(d, a);
    if d.conv == 'i' {
      BaseZero(DirVal(d, a), DirFlags(d), base, 0, -1, tail);
    } else {
      OwnBase(DirVal(d, a), DirFlags(d), base, 0, -1, tail);
    }
  }

  /** A width limit that the number does not reach does not cut it. */
  lemma FieldKeeps(out: seq<char>, b: seq<char>, n: nat)
    requires |out| <= n && (b == [] || DigitVal(b[0]) < 0)
    ensures S.Field(out + b, n) == out + S.Field(b, n - |out|)
    ensures var r := S.Field(b, n - |out|); r == [] || DigitVal(r[0]) < 0
  {
    hide DigitVal;
    if n < |out + b| {
      assert (out + b)[..n] == out + b[..n - |out|];
    }
  }

  lemma NoSpaceAhead(s: seq<char>)
    requires s != [] && !IsSpace(s[0])
    ensures SpaceRun(s) == 0 && s[SpaceRun(s)..] == s
  {
  }

  /** The value that was printed, cut to its type, is the original. */
  lemma StoredAgain(d: Dir, a: P.Arg)
    requires GoodDir(d)
    ensures S.StoreOf(S.ScanRankOf(d.conv, RankOf(d.length)), DirVal(d, a)) == Original(d, a)
  {
    hide P.CastTo, P.Widened;
    P.WidenedValue(a, RankOf(d.length), P.IsSignedConv(d.conv));
  }

  lemma TakeBack(d: Dir, a: P.Arg, b: seq<char>)
    requires GoodDir(d) && (b == [] || DigitVal(b[0]) < 0)
    ensures S.Conversion(d.conv, DirOut(d, a) + b, false, S.UINT_MAX, RankOf(d.length)) ==
            (S.Scanned(1, [Original(d, a)], S.None), b)
  {
    hide Parse, SpaceRun, DirOut, DirVal, Original, IsSpace, DigitVal, S.Field, S.StoreOf, S.ScanRankOf, S.ScanBase;
    var out := DirOut(d, a);
    StoredAgain(d, a);
    PlainText(d, a);
    assert out[0] in out;
    NoSpaceAhead(out + b);
    FieldKeeps(out, b, S.UINT_MAX);
    ReadDir(d, a, S.Field(b, S.UINT_MAX - |out|));
    Split(out, b);
  }

  /** A plain directive in front of a format is one conversion, and then the rest. */
  lemma ScanFirst(d: Dir, f: seq<char>, b: seq<char>)
    requires GoodDir(d)
    ensures var (r, rest) := S.Conversion(d.conv, b, false, S.UINT_MAX, RankOf(d.length));
            S.Scan(DirText(d) + f, b) == if r.bail != S.None then r else S.Then(r, S.Scan(f, rest))
  {
    hide S.Conversion, S.FromStars;
    var s := DirText(d) + f;
    assert s[1..] == LengthText(d.length) + [d.conv] + f;
    ScanLength(d, f, b);
    var r := [d.conv] + f;
    assert r[1..] == f;
  }

  lemma ScanDir(d: Dir, a: P.Arg, f: seq<char>, b: seq<char>)
    requires GoodDir(d) && (b == [] || DigitVal(b[0]) < 0)
    ensures S.Scan(DirText(d) + f, DirOut(d, a) + b) ==
            S.Then(S.Scanned(1, [Original(d, a)], S.None), S.Scan(f, b))
  {
    hide S.Conversion, S.Scan, DirText, DirOut, Original, DigitVal;
    ScanFirst(d, f, DirOut(d, a) + b);
    TakeBack(d, a, b);
  }

  /** For every format that begins with a plain directive and every buffer, the
      answer is EOF exactly when there is nothing but white space to read. */
  lemma EofIff(d: Dir, f: seq<char>, b: seq<char>)
    requires GoodDir(d)
    ensures S.Returned(S.Scan(DirText(d) + f, b)) == -1 <==> SpaceRun(b) == |b|
  {
    hide S.Scan, DirText, SpaceRun, Parse;
    ScanFirst(d, f, b);
  }

  // ---------------------------------------------------------- texts in between

  lemma BlankIs(c: char)
    ensures Blank(c) <==> IsSpace(c)
    ensures Alphanumeric(c) <==> DigitVal(c) >= 0
  {
  }

  /** What is left when leading white space is dropped. */
  function Dropped(b: seq<char>): seq<char> { b[SpaceRun(b)..] }

  lemma DropOne(c: char, t: seq<char>)
    ensures Dropped([c] + t) == if IsSpace(c) then Dropped(t) else [c] + t
    ensures Dropped(Dropped(t)) == Dropped(t)
  {
    assert ([c] + t)[1..] == t;
    assert SpaceRun([c] + t) == if IsSpace(c) then 1 + SpaceRun(t) else 0;
    SpaceRunIs(t);
    hide SpaceRun, IsSpace;
    DropNothing(Dropped(t));
  }

  lemma DropNothing(t: seq<char>)
    ensures t == [] || !IsSpace(t[0]) ==> Dropped(t) == t
  {
  }

  /** A text in the format takes exactly that text from the buffer, also when the
      blanks at its front have been passed over already. */
  lemma {:induction false} TextMatches(s: seq<char>, f: seq<char>, b: seq<char>)
    requires Verbatim(s) && NoRun(s, b)
    ensures S.Scan(s + f, s + b) == S.Scan(f, b)
    ensures s != [] || b == [] || !Blank(b[0]) ==> S.Scan(s + f, Dropped(s + b)) == S.Scan(f, b)
    decreases |s|
  {
    hide S.Scan, SpaceRun, IsSpace, Dropped;
    if s == [] {
      assert s + f == f && s + b == b;
      DropNothing(b);
      if b != [] { BlankIs(b[0]); }
    } else {
      var c, t := s[0], s[1..];
      assert s + f == [c] + (t + f) && s + b == [c] + (t + b) && c in s;
      assert forall x :: x in t ==> x in s;
      BlankIs(c);
      DropOne(c, t + b);
      TextMatches(t, f, b);
      PlainCharacter(c, t + f, s + b);
      PlainCharacter(c, t + f, Dropped(s + b));
      assert (s + b)[1..] == t + b && (s + b)[0] == c;
      DroppedIs(s + b);
      DroppedIs(Dropped(s + b));
    }
  }

  lemma DroppedIs(b: seq<char>)
    ensures Dropped(b) == b[SpaceRun(b)..]
  {
  }

  lemma OutStarts(ps: seq<Part>, args: seq<P.Arg>, b: seq<char>)
    requires ps != [] && GoodParts(ps) && |ps| == |args|
    ensures var t := Out(ps, args) + b; t != [] && !Blank(t[0])
  {
    hide DirOut, IsSpace;
    assert ps[0] in ps;
    PlainText(ps[0].dir, args[0]);
    var out := DirOut(ps[0].dir, args[0]);
    assert out[0] in out && (Out(ps, args) + b)[0] == out[0];
    BlankIs(out[0]);
  }

  lemma ApartIs(b: seq<char>)
    requires Apart(b)
    ensures b == [] || DigitVal(b[0]) < 0
  {
    if b != [] { BlankIs(b[0]); }
  }

  lemma JoinText(t: seq<char>, u: seq<char>, v: seq<char>, w: seq<char>)
    ensures t + (u + v) + w == t + (u + (v + w))
  {
  }

  /** Directives and texts at the front of a format take back what they printed,
      and the rest of the format meets the rest of the buffer. */
  lemma {:induction false} ScanThrough(ps: seq<Part>, args: seq<P.Arg>, f: seq<char>, b: seq<char>)
    requires GoodParts(ps) && |ps| == |args| && Separated(ps, b)
    ensures S.Scan(FormatOf(ps) + f, Out(ps, args) + b) ==
            S.Then(S.Scanned(|ps|, Originals(ps, args), S.None), S.Scan(f, b))
  {
    hide S.Scan, DirOut, DirText, Original, Verbatim, Blank, Alphanumeric;
    if ps == [] {
      assert "" + f == f && "" + b == b;
      S.ThenNothing(S.Scan(f, b));
    } else {
      var p, rest, args' := ps[0], ps[1..], args[1..];
      assert p in ps && forall x :: x in rest ==> x in ps;
      var f', b' := FormatOf(rest) + f, Out(rest, args') + b;
      JoinText(DirText(p.dir), p.text, FormatOf(rest), f);
      JoinText(DirOut(p.dir, args[0]), p.text, Out(rest, args'), b);
      if rest == [] {
        assert b' == b;
      } else {
        OutStarts(rest, args', b);
        assert (p.text + b')[0] == p.text[0];
      }
      assert Apart(p.text + b');
      ApartIs(p.text + b');
      ScanDir(p.dir, args[0], p.text + f', p.text + b');
      TextMatches(p.text, f', b');
      ScanThrough(rest, args', f, b);
      S.ThenThen(S.Scanned(1, [Original(p.dir, args[0])], S.None),
                 S.Scanned(|rest|, Originals(rest, args'), S.None), S.Scan(f, b));
    }
  }

  lemma EmptyScan(b: seq<char>)
    ensures S.Scan("", b) == S.NOTHING
  {
  }

  lemma LeadMeets(lead: seq<char>, ps: seq<Part>, args: seq<P.Arg>, f: seq<char>, b: seq<char>)
    requires Verbatim(lead) && GoodParts(ps) && |ps| == |args| && (ps == [] ==> NoRun(lead, b))
    ensures S.Scan(lead + (FormatOf(ps) + f), lead + (Out(ps, args) + b)) == S.Scan(FormatOf(ps) + f, Out(ps, args) + b)
  {
    hide S.Scan, FormatOf, Out, Verbatim, Blank;
    if ps == [] {
      assert Out(ps, args) + b == b by { EmptyParts(args); }
    } else {
      OutStarts(ps, args, b);
    }
    TextMatches(lead, FormatOf(ps) + f, Out(ps, args) + b);
  }

  lemma EmptyParts(args: seq<P.Arg>)
    requires args == []
    ensures Out([], args) == "" && FormatOf([]) == ""
  {
  }

  /** For any integer arguments and any plain integer directives, with any text
      before, between and after them that keeps the numbers apart, the scan of
      the printed text converts every directive and stores the original values. */
  lemma RoundTrip(lead: seq<char>, ps: seq<Part>, args: seq<P.Arg>)
    requires Verbatim(lead) && GoodParts(ps) && |ps| == |args| && Separated(ps, [])
    ensures P.Render(lead + FormatOf(ps), args) == P.Rendered(lead + Out(ps, args), P.Fine)
    ensures var r := S.Scan(lead + FormatOf(ps), lead + Out(ps, args));
            r == S.Scanned(|ps|, Originals(ps, args), S.None) && S.Returned(r) == |ps|
  {
    hide P.Render, S.Scan, FormatOf, Out, Originals;
    LiteralsPrint(lead, FormatOf(ps), args);
    PrintAll(ps, args);
    LeadMeets(lead, ps, args, "", "");
    ScanThrough(ps, args, "", "");
    EmptyScan("");
    assert FormatOf(ps) + "" == FormatOf(ps) && Out(ps, args) + "" == Out(ps, args);
    S.ThenNothing(S.Scanned(|ps|, Originals(ps, args), S.None));
  }

  /** When the next character of the format differs from the buffer, nothing more
      is stored, whatever follows, and the count stands. */
  lemma Mismatch(lead: seq<char>, ps: seq<Part>, args: seq<P.Arg>, c: char, f: seq<char>, b: seq<char>)
    requires Verbatim(lead) && GoodParts(ps) && |ps| == |args| && Separated(ps, b) && (ps == [] ==> NoRun(lead, b))
    requires c != '%' && !Blank(c) && (b == [] || b[0] != c)
    ensures var r := S.Scan(lead + (FormatOf(ps) + ([c] + f)), lead + (Out(ps, args) + b));
            r == S.Scanned(|ps|, Originals(ps, args), S.Err) && S.Returned(r) == |ps|
  {
    hide S.Scan, FormatOf, Out, Originals;
    LeadMeets(lead, ps, args, [c] + f, b);
    ScanThrough(ps, args, [c] + f, b);
    BlankIs(c);
    PlainCharacter(c, f, b);
  }

  // -------------------------------------------------------- through a buffer

  ghost predicate NulFree(s: seq<char>) { forall i :: 0 <= i < |s| ==> s[i] != '\0' }

  lemma DirIsCString(d: Dir)
    requires GoodDir(d)
    ensures NulFree(DirText(d))
  {
  }

  lemma VerbatimIsCString(s: seq<char>)
    requires Verbatim(s)
    ensures NulFree(s)
  {
    assert forall i :: 0 <= i < |s| ==> s[i] in s;
  }

  lemma {:induction false} BothAreCStrings(ps: seq<Part>, args: seq<P.Arg>)
    requires GoodParts(ps) && |ps| == |args|
    ensures NulFree(FormatOf(ps)) && NulFree(Out(ps, args))
  {
    hide DirText, DirOut, Verbatim;
    if ps == [] {
    } else {
      assert ps[0] in ps;
      DirIsCString(ps[0].dir);
      VerbatimIsCString(ps[0].text);
      PlainText(ps[0].dir, args[0]);
      var out := DirOut(ps[0].dir, args[0]);
      assert forall i :: 0 <= i < |out| ==> out[i] in out;
      BothAreCStrings(ps[1..], args[1..]);
    }
  }

  /** The C string in a buffer: the characters before the first NUL. */
  method StringIn(buffer: array<char>, ghost text: CString) returns (s: CString)
    requires |text| < buffer.Length && buffer[..|text|] == text && buffer[|text|] == '\0'
    ensures s == text
  {
    var i := 0;
    assert forall k :: 0 <= k < |text| ==> buffer[k] == buffer[..|text|][k];
    while buffer[i] != '\0'
      invariant 0 <= i <= |text|
      decreases |text| - i
    {
      i := i + 1;
    }
    s := buffer[..i];
  }

  /** The two library calls one after the other, through a buffer that is long
      enough. */
  method PrintThenScan(buffer: array<char>, n: nat, lead: seq<char>, ps: seq<Part>, args: seq<P.Arg>)
    returns (converted: int, stores: seq<S.Stored>)
    requires Verbatim(lead) && GoodParts(ps) && |ps| == |args| && Separated(ps, [])
    requires |lead + Out(ps, args)| < n <= buffer.Length
    modifies buffer
    ensures converted == |ps| && stores == Originals(ps, args)
  {
    hide Out, FormatOf, P.Render, S.Scan, Verbatim, Separated;
    RoundTrip(lead, ps, args);
    VerbatimIsCString(lead);
    BothAreCStrings(ps, args);
    var format: CString := lead + FormatOf(ps);
    ghost var out: CString := lead + Out(ps, args);
    var r, fault := P.Vsnprintf(buffer, n, format, args);
    assert buffer[..|out|] == out && buffer[|out|] == '\0';
    var text := StringIn(buffer, out);
    converted, stores := S.Vsscanf(text, format);
  }
}
