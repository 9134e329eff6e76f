/** What the characters of a scanf format mean, and what strntoumax takes from
    any text, in terms of the characters themselves. */
module ScanDirectives {
  import opened Arithmetic
  import opened CText
  import opened FormatInt
  import opened Strntoumax
  import opened IntRoundTrip
  import opened IntLayout
  import opened Directives
  import V = Vsnprintf
  import S = Vsscanf

  // -------------------------------------------------- white space and digits

  lemma SpaceIs(c: char)
    ensures IsSpace(c) <==> c as int in {8, 9, 10, 11, 12, 13, 32, 160}
  {
  }

  lemma DigitTable(c: char)
    ensures DigitVal(c) ==
            if 48 <= c as int <= 57 then c as int - 48
            else if 65 <= c as int <= 90 then c as int - 55
            else if 97 <= c as int <= 122 then c as int - 87
            else -1
  {
  }

  /** The run is white space, and the longest such. */
  lemma {:induction false} SpaceRunIs(b: seq<char>)
    ensures AllSpaces(b[..SpaceRun(b)])
    ensures SpaceRun(b) < |b| ==> !IsSpace(b[SpaceRun(b)])
  {
    if b == [] || !IsSpace(b[0]) {
    } else {
      SpaceRunIs(b[1..]);
      assert b[..SpaceRun(b)] == [b[0]] + b[1..][..SpaceRun(b[1..])];
    }
  }

  /** The parts strntoumax finds in a text. */
  datatype Parts = Parts(lead: seq<char>, sign: seq<char>, prefix: seq<char>, digits: seq<char>, tail: seq<char>,
                         base: nat)

  ghost predicate BeginsWith(s: seq<char>, c: char) { s != [] && s[0] == c }

  ghost predicate Hex(s: seq<char>) { |s| >= 2 && s[0] == '0' && (s[1] == 'x' || s[1] == 'X') }

  /** The prefix of a number: 0x for base 16, 0x or 0 for base 0, each when it is
      there; and the base that counts. */
  ghost predicate PrefixIs(number: seq<char>, base: nat, prefix: seq<char>, b: nat) {
    if (base == 0 || base == 16) && Hex(number) then |prefix| == 2 && b == 16
    else if base == 0 && BeginsWith(number, '0') then |prefix| == 1 && b == 8
    else prefix == "" && b == if base == 0 then 10 else base
  }

  /** White space, one sign, the prefix the base allows and digits of the base,
      each taken as far as it goes. */
  ghost predicate PartsOf(p: Parts, s: seq<char>, base: nat) {
    var number := p.prefix + (p.digits + p.tail);
    var signed := p.sign + number;
    && s == p.lead + signed
    && AllSpaces(p.lead) && (signed == [] || !IsSpace(signed[0]))
    && (p.sign == "-" || p.sign == "+" || (p.sign == "" && !BeginsWith(number, '-') && !BeginsWith(number, '+')))
    && PrefixIs(number, base, p.prefix, p.base)
    && AllDigits(p.digits, p.base)
    && (p.tail == [] || !IsDigitOf(p.tail[0], p.base))
  }

  lemma TwoCuts(u: seq<char>, k: nat, d: nat)
    requires k <= |u| && d <= |u| - k
    ensures u == u[..k] + (u[k..][..d] + u[k..][d..])
  {
  }

  lemma PrefixMeans(u: seq<char>, base: nat)
    ensures var (k, b) := Prefix(u, base); k <= |u| && PrefixIs(u, base, u[..k], b)
  {
  }

  lemma DigitParts(u: seq<char>, base: nat) returns (prefix: seq<char>, digits: seq<char>, tail: seq<char>, b: nat)
    ensures u == prefix + (digits + tail) && PrefixIs(u, base, prefix, b)
    ensures AllDigits(digits, b) && (tail == [] || !IsDigitOf(tail[0], b))
    ensures ParseDigits(u, base) == (Value(digits, b) % TWO_64, |prefix| + |digits|)
  {
    hide Prefix, DigitRun, Value, IsDigitOf, AllDigits, PrefixIs;
    var (k, b') := Prefix(u, base);
    b := b';
    PrefixMeans(u, base);
    var d := DigitRun(u[k..], b);
    prefix, digits, tail := u[..k], u[k..][..d], u[k..][d..];
    RunAll(u[k..], b);
    TwoCuts(u, k, d);
  }

  lemma SignOf(t: seq<char>, base: nat) returns (sign: seq<char>, u: seq<char>)
    ensures t == sign + u
    ensures sign == "-" || sign == "+" || (sign == "" && !BeginsWith(u, '-') && !BeginsWith(u, '+'))
    ensures ParseSigned(t, base) ==
            (if sign == "-" then Negated(ParseDigits(u, base).0) else ParseDigits(u, base).0,
             |sign| + ParseDigits(u, base).1)
  {
    hide ParseDigits, Negated;
    if t != [] && IsSign(t[0]) {
      sign, u := [t[0]], t[1..];
    } else {
      sign, u := "", t;
    }
  }

  /** What strntoumax takes from any text, and what it makes of it. */
  lemma ParseMeans(s: seq<char>, base: nat) returns (p: Parts)
    ensures PartsOf(p, s, base)
    ensures var v := Value(p.digits, p.base) % 0x1_0000_0000_0000_0000;
            Parse(s, base) ==
            (if p.sign == "-" then (0x1_0000_0000_0000_0000 - v) % 0x1_0000_0000_0000_0000 else v, |s| - |p.tail|)
  {
    hide SpaceRun, ParseSigned, ParseDigits, Value, IsSpace, AllDigits, IsDigitOf, AllSpaces, PrefixIs, BeginsWith;
    var n := SpaceRun(s);
    SpaceRunIs(s);
    var t := s[n..];
    var sign, u := SignOf(t, base);
    var prefix, digits, tail, b := DigitParts(u, base);
    p := Parts(s[..n], sign, prefix, digits, tail, b);
    assert s == s[..n] + t;
  }

  // ------------------------------------------------------ one character more

  /** A blank passes over all white space; any other character must be there, and
      is consumed. */
  lemma PlainCharacter(c: char, f: seq<char>, b: seq<char>)
    requires c != '%'
    ensures S.Scan([c] + f, b) ==
            if IsSpace(c) then S.Scan(f, b[SpaceRun(b)..])
            else if b != [] && b[0] == c then S.Scan(f, b[1..])
            else S.Scanned(0, [], S.Err)
  {
    assert ([c] + f)[1..] == f;
  }

  lemma PercentCharacter(f: seq<char>, b: seq<char>)
    ensures S.Scan("%%" + f, b) ==
            if b != [] && b[0] == '%' then S.Scan(f, b[1..]) else S.Scanned(0, [], S.Err)
  {
    hide S.Scan, SpaceRun;
    ScanOpen("%" + f, b);
    assert ("%%" + f) == "%" + ("%" + f);
    assert ("%" + f)[0] == '%' && ("%" + f)[1..] == f;
    S.ThenNothing(S.Scan(f, if b != [] then b[1..] else b));
  }

  lemma ScanOpen(s: seq<char>, b: seq<char>)
    ensures S.Scan("%" + s, b) == S.FromStars(s, b, false)
  {
    assert ("%" + s)[1..] == s;
  }

  // --------------------------------------------------------- a whole directive

  lemma {:induction false} ReadStars(k: nat, rest: seq<char>, b: seq<char>, splat: bool)
    ensures S.FromStars(Repeat('*', k) + rest, b, splat) == S.FromStars(rest, b, splat || k > 0)
    decreases k
  {
    if k == 0 {
      assert Repeat('*', k) + rest == rest;
    } else {
      var s := Repeat('*', k) + rest;
      assert s[0] == '*' && s[1..] == Repeat('*', k - 1) + rest;
      ReadStars(k - 1, rest, b, true);
    }
  }

  lemma ScanWidthStep(c: char, s: seq<char>, b: seq<char>, splat: bool, w: nat)
    ensures c in "0123456789" ==>
              0 <= w * 10 + DigitVal(c) &&
              S.FromWidth([c] + s, b, splat, w) == S.FromWidth(s, b, splat, (w * 10 + DigitVal(c)) % TWO_32)
    ensures c in "0123456789" ==>
              0 <= DigitVal(c) && S.FromStars([c] + s, b, splat) == S.FromWidth(s, b, splat, DigitVal(c))
    ensures c !in "0123456789" ==> S.FromWidth([c] + s, b, splat, w) == S.FromRank([c] + s, b, splat, w, V.RANK_INT)
    ensures c !in "0123456789" && c != '*' ==>
              S.FromStars([c] + s, b, splat) == S.FromRank([c] + s, b, splat, 0xffff_ffff, V.RANK_INT)
  {
    hide S.FromRank, DigitVal;
    DecimalDigit(c);
    assert ([c] + s)[1..] == s;
  }

  lemma Uncons(s: seq<char>, rest: seq<char>)
    requires s != []
    ensures s + rest == [s[0]] + (s[1..] + rest) && s[0] in s && forall x :: x in s[1..] ==> x in s
  {
  }

  lemma {:induction false} WidthOn(w: nat, ds: seq<char>, rest: seq<char>, b: seq<char>, splat: bool)
    requires Decimal(ds) && rest != [] && rest[0] !in "0123456789"
    ensures 0 <= ReadOn(w, ds)
    ensures S.FromWidth(ds + rest, b, splat, w % TWO_32) ==
            S.FromRank(rest, b, splat, ReadOn(w, ds) % TWO_32, V.RANK_INT)
    decreases |ds|
  {
    hide S.FromRank, S.FromWidth, S.FromStars, DigitVal;
    ReadOnGrows(w, ds);
    if ds == [] {
      assert ds + rest == rest && rest == [rest[0]] + rest[1..];
      ScanWidthStep(rest[0], rest[1..], b, splat, w % TWO_32);
    } else {
      Uncons(ds, rest);
      ScanWidthStep(ds[0], ds[1..] + rest, b, splat, w % TWO_32);
      DecimalDigit(ds[0]);
      MulMod(w, TWO_32, 10, DigitVal(ds[0]));
      WidthOn(w * 10 + DigitVal(ds[0]), ds[1..], rest, b, splat);
    }
  }

  /** A width is the decimal number that is written, modulo 2^32; without one
      there is practically no limit. */
  lemma ReadScanWidth(w: Number, rest: seq<char>, b: seq<char>, splat: bool)
    requires GoodNumber(w) && !w.Star? && rest != [] && rest[0] !in "0123456789" && rest[0] != '*'
    ensures S.FromStars(NumberChars(w) + rest, b, splat) ==
            S.FromRank(rest, b, splat, if w.Absent? then 0xffff_ffff else Value(w.ds, 10) % 0x1_0000_0000, V.RANK_INT)
  {
    hide Value, S.FromRank, S.FromWidth, S.FromStars, DigitVal, Decimal;
    match w
    case Absent =>
      assert "" + rest == rest && rest == [rest[0]] + rest[1..];
      ScanWidthStep(rest[0], rest[1..], b, splat, 0);
    case Written(ds) =>
      WrittenWidth(ds, rest, b, splat);
  }

  lemma WrittenWidth(ds: seq<char>, rest: seq<char>, b: seq<char>, splat: bool)
    requires ds != [] && Decimal(ds) && rest != [] && rest[0] !in "0123456789"
    ensures S.FromStars(ds + rest, b, splat) == S.FromRank(rest, b, splat, Value(ds, 10) % TWO_32, V.RANK_INT)
  {
    hide Value, S.FromRank, S.FromWidth, S.FromStars, DigitVal;
    var c, t := ds[0], ds[1..];
    Uncons(ds, rest);
    ScanWidthStep(c, t + rest, b, splat, 0);
    DecimalDigit(c);
    ReadOnIsValue(ds);
    FirstDigit(ds);
    WidthOn(DigitVal(c), t, rest, b, splat);
    SmallMod(DigitVal(c));
  }

  lemma FirstDigit(ds: seq<char>)
    requires ds != []
    ensures ReadOn(0, ds) == ReadOn(DigitVal(ds[0]), ds[1..])
  {
    hide DigitVal;
  }

  lemma SmallMod(d: nat)
    requires d < 10
    ensures d % TWO_32 == d
  {
  }

  lemma ScanModifierStep(m: char, rest: seq<char>, b: seq<char>, splat: bool, width: nat, rank: int)
    requires m in "hljztLq"
    ensures S.FromRank([m] + rest, b, splat, width, rank) ==
            S.FromRank(rest, b, splat, width, S.WithScanModifier(rank, m))
  {
    hide S.Conversion, S.Scan;
    assert V.IsModifier(m) && ([m] + rest)[1..] == rest;
  }

  lemma ReadScanModifiers(mods: seq<char>, bytes: nat, rest: seq<char>, b: seq<char>, splat: bool, width: nat)
    returns (rank: int)
    requires Modifier(mods, bytes)
    ensures V.ClampRank(rank) == rank && V.Modulus(rank) == Pow(256, bytes)
    ensures S.FromRank(mods + rest, b, splat, width, V.RANK_INT) == S.FromRank(rest, b, splat, width, rank)
  {
    assert Pow(256, 1) == 256 && Pow(256, 2) == 256 * 256 && Pow(256, 4) == 0x1_0000_0000;
    PowEight();
    hide S.FromRank, Pow;
    rank := V.RANK_INT;
    if mods == "" {
      assert mods + rest == rest;
    } else {
      var m := mods[0];
      rank := S.WithScanModifier(V.RANK_INT, m);
      assert mods + rest == [m] + (mods[1..] + rest);
      ScanModifierStep(m, mods[1..] + rest, b, splat, width, V.RANK_INT);
      if |mods| == 2 {
        assert mods[1..] + rest == [m] + rest;
        ScanModifierStep(m, rest, b, splat, width, rank);
        rank := S.WithScanModifier(rank, m);
      } else {
        assert mods[1..] + rest == rest;
      }
    }
  }

  ghost predicate SettingScan(c: char) { Setting(c) || c == 'L' || c == 'q' }

  lemma {:induction false} CountScanModifiers(mods: seq<char>, rest: seq<char>, b: seq<char>, splat: bool, width: nat,
                                              rank: int)
    requires forall k :: 0 <= k < |mods| ==> mods[k] == 'h' || mods[k] == 'l'
    ensures S.FromRank(mods + rest, b, splat, width, rank) ==
            S.FromRank(rest, b, splat, width, rank - multiset(mods)['h'] + multiset(mods)['l'])
    decreases |mods|
  {
    hide S.FromRank;
    if mods == [] {
      assert mods + rest == rest;
    } else {
      var m, t := mods[0], mods[1..];
      assert m == 'h' || m == 'l';
      assert mods == [m] + t && mods + rest == [m] + (t + rest);
      assert multiset(mods) == multiset{m} + multiset(t);
      ScanModifierStep(m, t + rest, b, splat, width, rank);
      CountScanModifiers(t, rest, b, splat, width, S.WithScanModifier(rank, m));
    }
  }

  lemma {:induction false} SkipScanModifiers(mods: seq<char>, m: char, rest: seq<char>, b: seq<char>, splat: bool,
                                             width: nat, rank: int)
    requires Modifiers(mods) && SettingScan(m)
    ensures S.FromRank(mods + ([m] + rest), b, splat, width, rank) ==
            S.FromRank(rest, b, splat, width, if m == 'z' || m == 't' then 1 else 2)
    decreases |mods|
  {
    hide S.FromRank;
    if mods == [] {
      assert mods + ([m] + rest) == [m] + rest;
      ScanModifierStep(m, rest, b, splat, width, rank);
    } else {
      var c, t := mods[0], mods[1..];
      assert Counting(c) || Setting(c);
      assert mods == [c] + t && mods + ([m] + rest) == [c] + (t + ([m] + rest));
      ScanModifierStep(c, t + ([m] + rest), b, splat, width, rank);
      SkipScanModifiers(t, m, rest, b, splat, width, S.WithScanModifier(rank, c));
    }
  }

  /** Any run of modifiers: here L and q forget what stands before them too. */
  lemma ReadScanModifierRun(before: seq<char>, m: char, after: seq<char>, rest: seq<char>, b: seq<char>, splat: bool,
                            width: nat)
    requires Modifiers(before) && SettingScan(m) && forall k :: 0 <= k < |after| ==> after[k] == 'h' || after[k] == 'l'
    ensures var n, was: int := multiset(after), if m == 'z' || m == 't' then 1 else 2;
            S.FromRank(before + ([m] + (after + rest)), b, splat, width, V.RANK_INT) ==
            S.FromRank(rest, b, splat, width, was - n['h'] + n['l'])
  {
    hide S.FromRank;
    SkipScanModifiers(before, m, after + rest, b, splat, width, V.RANK_INT);
    CountScanModifiers(after, rest, b, splat, width, if m == 'z' || m == 't' then 1 else 2);
  }

  ghost predicate IntegerEnd(c: char) {
    c == 'd' || c == 'i' || c == 'o' || c == 'u' || c == 'x' || c == 'X' || c == 'p' || c == 'P'
  }

  /** The result of an integer directive on the text after white space. */
  ghost function Taken(t: seq<char>, splat: bool, width: nat, base: nat, rank: int, size: nat, f: seq<char>): S.Scanned
    requires size > 0
  {
    if t == [] then S.Scanned(0, [], S.Eof)
    else
      var (val, n) := Parse(if width <= |t| then t[..width] else t, base);
      if n == 0 then S.Scanned(0, [], S.Err)
      else if splat then S.Scan(f, t[n..])
      else S.Then(S.Scanned(1, [S.Stored(rank, val % size)], S.None), S.Scan(f, t[n..]))
  }

  lemma EndOfScan(c: char, f: seq<char>, b: seq<char>, splat: bool, width: nat, rank: int)
    requires IntegerEnd(c) && V.ClampRank(rank) == rank
    ensures var pointer := c == 'p' || c == 'P';
            var base := if c == 'd' || c == 'u' then 10 else if c == 'o' then 8
                        else if c == 'x' || c == 'X' then 16 else 0;
            S.FromRank([c] + f, b, splat, width, rank) ==
            Taken(b[SpaceRun(b)..], splat, width, base, if pointer then S.RANK_PTR else rank,
                  if pointer then 0x1_0000_0000 else V.Modulus(rank), f)
  {
    hide S.Scan, Parse, SpaceRun;
    assert ([c] + f)[1..] == f && S.IsIntConv(c);
    var t := b[SpaceRun(b)..];
    if t != [] {
      var n := Parse(S.Field(t, width), S.ScanBase(c)).1;
      if n > 0 {
        S.ThenNothing(S.Scan(f, t[n..]));
      }
    }
  }

  /** Every integer directive is scanned as it is written: stars suppress the
      store, the width limits the field, the letter gives the base and the length
      modifier the size of what is stored. */
  lemma ReadScanDirective(k: nat, w: Number, mods: seq<char>, bytes: nat, c: char, f: seq<char>, b: seq<char>)
    returns (rank: int)
    requires GoodNumber(w) && !w.Star? && Modifier(mods, bytes) && IntegerEnd(c)
    ensures V.Modulus(rank) == Pow(256, bytes)
    ensures var pointer := c == 'p' || c == 'P';
            var base := if c == 'd' || c == 'u' then 10 else if c == 'o' then 8
                        else if c == 'x' || c == 'X' then 16 else 0;
            var width := if w.Absent? then 0xffff_ffff else Value(w.ds, 10) % 0x1_0000_0000;
            S.Scan("%" + (Repeat('*', k) + (NumberChars(w) + (mods + ([c] + f)))), b) ==
            Taken(b[SpaceRun(b)..], k > 0, width, base, if pointer then S.RANK_PTR else rank,
                  if pointer then 0x1_0000_0000 else V.Modulus(rank), f)
  {
    hide S.Scan, S.FromStars, S.FromRank, Taken, Value, SpaceRun, Pow, Modifier, Decimal, Repeat,
         V.ClampRank, V.Modulus;
    var t := mods + ([c] + f);
    EndsInteger(c);
    HeadOf(mods, bytes, c, f);
    assert t[0] != '*' && t[0] !in "0123456789";
    ScanOpen(Repeat('*', k) + (NumberChars(w) + t), b);
    ReadStars(k, NumberChars(w) + t, b, false);
    ReadScanWidth(w, t, b, k > 0);
    var width := if w.Absent? then 0xffff_ffff else Value(w.ds, 10) % 0x1_0000_0000;
    rank := ReadScanModifiers(mods, bytes, [c] + f, b, k > 0, width);
    EndOfScan(c, f, b, k > 0, width, rank);
  }

  lemma EndsInteger(c: char)
    requires IntegerEnd(c)
    ensures Ends(c)
  {
  }
}
