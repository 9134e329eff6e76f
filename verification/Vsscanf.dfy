/** vsscanf, integer conversions: what a format takes from a buffer, and the
    machine that does it. */
module Vsscanf {
  import opened Arithmetic
  import opened CText
  import opened Strntoumax
  import V = Vsnprintf

  const UINT_MAX: nat := 0xffff_ffff
  const RANK_PTR: int := 0x7fff_ffff

  /** %c, %s, %[ and %n are not part of this model: they end a scan as Unmodelled. */
  datatype Bail = None | Eof | Err | Unmodelled

  /** A store through an argument pointer, cut to the size of the rank. */
  datatype Stored = Stored(rank: int, value: nat)

  datatype Scanned = Scanned(converted: nat, stores: seq<Stored>, bail: Bail)

  const NOTHING: Scanned := Scanned(0, [], None)

  function Failed(b: Bail): Scanned { Scanned(0, [], b) }

  /** First `a`, then `b`. */
  function Then(a: Scanned, b: Scanned): Scanned {
    Scanned(a.converted + b.converted, a.stores + b.stores, b.bail)
  }

  function StoreOf(rank: int, value: nat): Stored {
    Stored(rank, value % if rank == RANK_PTR then TWO_32 else V.Modulus(rank))
  }

  predicate IsIntConv(c: char) { c in "PpidouxX" }

  function ScanBase(c: char): nat {
    if c == 'P' || c == 'p' || c == 'i' then 0 else if c == 'o' then 8 else if c == 'd' || c == 'u' then 10 else 16
  }

  function ScanRankOf(c: char, rank: int): int {
    if c == 'P' || c == 'p' then RANK_PTR else rank
  }

  /** Length modifiers as the scanner reads them: L and q set the rank. */
  function WithScanModifier(rank: int, c: char): int {
    match c
    case 'h' => rank - 1
    case 'l' => rank + 1
    case 'j' => V.RANK_LONGLONG
    case 'z' => V.RANK_LONG
    case 't' => V.RANK_LONG
    case _ => V.RANK_LONGLONG
  }

  /** What stays of the buffer for a field of at most `width` characters. */
  function Field(b: seq<char>, width: nat): seq<char> {
    if width <= |b| then b[..width] else b
  }

  /** `b` is the rest of the buffer. */
  function Scan(f: seq<char>, b: seq<char>): Scanned
    decreases |f|, 3
  {
    if f == [] then NOTHING
    else if f[0] == '%' then FromStars(f[1..], b, false)
    else if IsSpace(f[0]) then Scan(f[1..], b[SpaceRun(b)..])
    else if b != [] && b[0] == f[0] then Scan(f[1..], b[1..])
    else Failed(Err)
  }

  /** Stars suppress the store; a digit starts the width. */
  function FromStars(f: seq<char>, b: seq<char>, splat: bool): Scanned
    decreases |f|, 2
  {
    if f != [] && f[0] == '*' then FromStars(f[1..], b, true)
    else if f != [] && IsDigit(f[0]) then FromWidth(f[1..], b, splat, DigitVal(f[0]))
    else FromRank(f, b, splat, UINT_MAX, V.RANK_INT)
  }

  /** The width is an unsigned int and wraps. */
  function FromWidth(f: seq<char>, b: seq<char>, splat: bool, width: nat): Scanned
    decreases |f|, 1
  {
    if f != [] && IsDigit(f[0]) then
      FromWidth(f[1..], b, splat, (width * 10 + DigitVal(f[0])) % TWO_32)
    else FromRank(f, b, splat, width, V.RANK_INT)
  }

  function FromRank(f: seq<char>, b: seq<char>, splat: bool, width: nat, rank: int): Scanned
    decreases |f|, 0
  {
    if f == [] then NOTHING
    else if V.IsModifier(f[0]) then FromRank(f[1..], b, splat, width, WithScanModifier(rank, f[0]))
    else
      var (r, rest) := Conversion(f[0], b, splat, width, V.ClampRank(rank));
      if r.bail != None then r else Then(r, Scan(f[1..], rest))
  }

  /** One conversion: its result and what is left of the buffer. */
  function Conversion(c: char, b: seq<char>, splat: bool, width: nat, rank: int): (Scanned, seq<char>) {
    if IsIntConv(c) then
      var t := b[SpaceRun(b)..];
      if t == [] then (Failed(Eof), t)
      else
        var (val, n) := Parse(Field(t, width), ScanBase(c));
        if n == 0 then (Failed(Err), t)
        else (if splat then NOTHING else Scanned(1, [StoreOf(ScanRankOf(c, rank), val)], None), t[n..])
    else if c == '%' then
      if b != [] && b[0] == '%' then (NOTHING, b[1..]) else (Failed(Err), b)
    else if c == 'c' || c == 's' || c == '[' || c == 'n' then (Failed(Unmodelled), b)
    else (Failed(Err), b)
  }

  /** The value vsscanf returns. */
  function Returned(r: Scanned): int {
    if r.bail == Eof && r.converted == 0 then -1 else r.converted
  }

  // ----------------------------------------------------------------- its laws

  /** An integer conversion passes over all white space and then takes at most
      `width` characters, all of them from the front of the buffer. */
  lemma FieldTakes(c: char, b: seq<char>, splat: bool, width: nat, rank: int)
    requires IsIntConv(c)
    ensures var (r, rest) := Conversion(c, b, splat, width, rank);
            r.bail == None ==>
              && SpaceRun(b) < |b| - |rest| <= SpaceRun(b) + width
              && rest == b[|b| - |rest|..]
  {
    hide Parse, SpaceRun, StoreOf, ScanRankOf, ScanBase, IsIntConv;
    var k := SpaceRun(b);
    var t := b[k..];
    var n := Parse(Field(t, width), ScanBase(c)).1;
    assert n <= |Field(t, width)|;
    DropDrop(b, k, n);
  }

  lemma DropDrop(b: seq<char>, k: nat, n: nat)
    requires k <= |b|
    ensures k + n <= |b| ==> b[k..][n..] == b[k + n..] && |b| - |b[k + n..]| == k + n
  {
  }

  predicate Counted(r: Scanned) { r.converted == |r.stores| }

  lemma ConversionCounts(c: char, b: seq<char>, splat: bool, width: nat, rank: int)
    ensures Counted(Conversion(c, b, splat, width, rank).0)
  {
    hide Parse, SpaceRun, StoreOf, ScanRankOf;
  }

  /** Whatever the format and the buffer, the count is that of the stores. */
  lemma ScanCounts(f: seq<char>, b: seq<char>)
    ensures Counted(Scan(f, b))
    decreases |f|, 3
  {
    hide SpaceRun;
    if f == [] {
    } else if f[0] == '%' {
      StarsCount(f[1..], b, false);
    } else if IsSpace(f[0]) {
      ScanCounts(f[1..], b[SpaceRun(b)..]);
    } else if b != [] && b[0] == f[0] {
      ScanCounts(f[1..], b[1..]);
    }
  }

  lemma StarsCount(f: seq<char>, b: seq<char>, splat: bool)
    ensures Counted(FromStars(f, b, splat))
    decreases |f|, 2
  {
    if f != [] && f[0] == '*' {
      StarsCount(f[1..], b, true);
    } else if f != [] && IsDigit(f[0]) {
      WidthCounts(f[1..], b, splat, DigitNat(f[0]));
    } else {
      RankCounts(f, b, splat, UINT_MAX, V.RANK_INT);
    }
  }

  lemma WidthCounts(f: seq<char>, b: seq<char>, splat: bool, width: nat)
    ensures Counted(FromWidth(f, b, splat, width))
    decreases |f|, 1
  {
    if f != [] && IsDigit(f[0]) {
      WidthCounts(f[1..], b, splat, (width * 10 + DigitNat(f[0])) % TWO_32);
    } else {
      RankCounts(f, b, splat, width, V.RANK_INT);
    }
  }

  lemma RankCounts(f: seq<char>, b: seq<char>, splat: bool, width: nat, rank: int)
    ensures Counted(FromRank(f, b, splat, width, rank))
    decreases |f|, 0
  {
    hide Conversion;
    if f == [] {
    } else if V.IsModifier(f[0]) {
      RankCounts(f[1..], b, splat, width, WithScanModifier(rank, f[0]));
    } else {
      ConversionCounts(f[0], b, splat, width, V.ClampRank(rank));
      ScanCounts(f[1..], Conversion(f[0], b, splat, width, V.ClampRank(rank)).1);
    }
  }

  // --------------------------------------------------------------- the machine

  datatype State = StNormal | StFlags | StWidth | StModifiers

  function StateRank(st: State): nat {
    match st
    case StNormal => 3
    case StFlags => 2
    case StWidth => 1
    case StModifiers => 0
  }

  datatype Machine = Machine(st: State, splat: bool, width: nat, rank: int)

  /** Fields a state has not reached yet still have the values set at the %. */
  predicate Fresh(m: Machine) {
    && (m.st.StFlags? ==> m.width == UINT_MAX)
    && (m.st.StFlags? || m.st.StWidth? ==> m.rank == V.RANK_INT)
  }

  /** What the machine has still to do in a given state. */
  function Pending(m: Machine, f: seq<char>, b: seq<char>): Scanned {
    match m.st
    case StNormal => Scan(f, b)
    case StFlags => FromStars(f, b, m.splat)
    case StWidth => FromWidth(f, b, m.splat, m.width)
    case StModifiers => FromRank(f, b, m.splat, m.width, m.rank)
  }

  lemma NothingPending(m: Machine, b: seq<char>)
    ensures Pending(m, [], b) == NOTHING
  {
  }

  lemma ThenNothing(a: Scanned)
    ensures a.bail == None ==> Then(a, NOTHING) == a
    ensures Then(NOTHING, a) == a
  {
  }

  lemma ThenThen(a: Scanned, b: Scanned, c: Scanned)
    ensures Then(a, Then(b, c)) == Then(Then(a, b), c)
  {
  }

  method Skipspace(buffer: CString, q0: nat) returns (q: nat)
    requires q0 <= |buffer|
    ensures q == q0 + SpaceRun(buffer[q0..]) <= |buffer|
  {
    q := q0;
    while IsSpace(At(buffer, q))
      invariant q0 <= q <= |buffer|
      invariant SpaceRun(buffer[q0..]) == q - q0 + SpaceRun(buffer[q..])
      decreases |buffer| - q
    {
      assert buffer[q..][1..] == buffer[q + 1..];
      q := q + 1;
    }
  }

  /** The switch on the conversion character. */
  method Convert(c: char, buffer: CString, q0: nat, splat: bool, width: nat, rank: int)
    returns (q: nat, step: Scanned)
    requires q0 <= |buffer|
    ensures q <= |buffer|
    ensures var (r, rest) := Conversion(c, buffer[q0..], splat, width, rank);
            step == r && (r.bail == None ==> buffer[q..] == rest)
  {
    hide Parse, SpaceRun, StoreOf;
    q, step := q0, NOTHING;
    if IsIntConv(c) {
      q := Skipspace(buffer, q);
      assert buffer[q0..][SpaceRun(buffer[q0..])..] == buffer[q..];
      if At(buffer, q) == '\0' {
        step := Failed(Eof);
        return;
      }
      var val, qq := Strntoumax.Strntoumax(buffer, q, ScanBase(c), width);
      WindowIsField(buffer, q, width);
      if qq == q {
        step := Failed(Err);
        return;
      }
      assert buffer[q..][qq - q..] == buffer[qq..];
      q := qq;
      if !splat {
        step := Scanned(1, [StoreOf(ScanRankOf(c, rank), val)], None);
      }
    } else if c == '%' {
      if At(buffer, q) == '%' {
        assert buffer[q..][1..] == buffer[q + 1..];
        q := q + 1;
      } else {
        step := Failed(Err);
      }
    } else if c == 'c' || c == 's' || c == '[' || c == 'n' {
      step := Failed(Unmodelled);
    } else {
      step := Failed(Err);
    }
  }

  lemma WindowIsField(s: CString, i: nat, n: nat)
    requires i <= |s|
    ensures Window(s, i, n) == Field(s[i..], n) && |Window(s, i, n)| <= |s| - i
  {
  }

  /** One turn of the loop; `again` is the source's `p--`. */
  method Turn(m0: Machine, ch: char, buffer: CString, q0: nat, ghost f: seq<char>)
    returns (m: Machine, q: nat, again: bool, step: Scanned)
    requires Fresh(m0) && f != [] && f[0] == ch && q0 <= |buffer|
    ensures Fresh(m) && q <= |buffer|
    ensures Pending(m0, f, buffer[q0..]) ==
            if step.bail != None then step
            else Then(step, Pending(m, if again then f else f[1..], buffer[q..]))
    ensures again ==> StateRank(m.st) < StateRank(m0.st)
  {
    hide Conversion, SpaceRun, IsSpace, DigitVal;
    m, q, again, step := m0, q0, false, NOTHING;
    ghost var next := f[1..];
    match m.st
    case StNormal =>
      if ch == '%' {
        m := Machine(StFlags, false, UINT_MAX, V.RANK_INT);
        ThenNothing(Pending(m, next, buffer[q..]));
      } else if IsSpace(ch) {
        q := Skipspace(buffer, q);
        assert buffer[q0..][SpaceRun(buffer[q0..])..] == buffer[q..];
        ThenNothing(Pending(m, next, buffer[q..]));
      } else if At(buffer, q) == ch && q < |buffer| {
        q := q + 1;
        assert buffer[q0..][1..] == buffer[q..];
        ThenNothing(Pending(m, next, buffer[q..]));
      } else {
        step := Failed(Err);
      }
    case StFlags =>
      if ch == '*' {
        m := m.(splat := true);
      } else if IsDigit(ch) {
        m := m.(width := DigitNat(ch), st := StWidth);
      } else {
        m, again := m.(st := StModifiers), true;
      }
      ThenNothing(Pending(m, if again then f else next, buffer[q..]));
    case StWidth =>
      if IsDigit(ch) {
        m := m.(width := (m.width * 10 + DigitNat(ch)) % TWO_32);
      } else {
        m, again := m.(st := StModifiers), true;
      }
      ThenNothing(Pending(m, if again then f else next, buffer[q..]));
    case StModifiers =>
      if V.IsModifier(ch) {
        m := m.(rank := WithScanModifier(m.rank, ch));
        ThenNothing(Pending(m, next, buffer[q..]));
      } else {
        m := m.(st := StNormal);
        q, step := Convert(ch, buffer, q, m.splat, m.width, V.ClampRank(m.rank));
      }
  }

  function DigitNat(c: char): (d: nat)
    requires IsDigit(c)
    ensures d == DigitVal(c)
  {
    DigitVal(c)
  }

  /** vsscanf stores, counts and fails exactly as the format says. */
  method Vsscanf(buffer: CString, format: CString) returns (converted: int, stores: seq<Stored>)
    ensures converted == Returned(Scan(format, buffer))
    ensures stores == Scan(format, buffer).stores
  {
    var p, q, m := 0, 0, Machine(StNormal, false, UINT_MAX, V.RANK_INT);
    var acc := NOTHING;
    assert format[0..] == format && buffer[0..] == buffer;
    ThenNothing(Scan(format, buffer));
    hide Scan, FromStars, FromWidth, FromRank;
    while acc.bail == None
      invariant 0 <= p <= |format| && q <= |buffer| && Fresh(m)
      invariant Scan(format, buffer) ==
                if acc.bail != None then acc else Then(acc, Pending(m, format[p..], buffer[q..]))
      decreases acc.bail == None, |format| - p, StateRank(m.st)
    {
      var ch := At(format, p);
      if ch == '\0' {
        assert format[p..] == [];
        NothingPending(m, buffer[q..]);
        ThenNothing(acc);
        break;
      }
      ghost var f, b := format[p..], buffer[q..];
      assert f[1..] == format[p + 1..];
      p := p + 1;
      var again, step;
      m, q, again, step := Turn(m, ch, buffer, q, f);
      ThenThen(acc, step, Pending(m, if again then f else f[1..], buffer[q..]));
      acc := Then(acc, step);
      if again {
        p := p - 1;
      }
    }
    stores := acc.stores;
    converted := if acc.bail == Eof && acc.converted == 0 then -1 else acc.converted;
  }
}
