/** LoadProgram's arguments: the initial stack of a new program, with argc,
    argv and the argument strings at the top of region 1. */
module ArgStack {
  import opened Arithmetic
  import opened ByteText
  import opened Machine

  const INITIAL_STACK_FRAME_SIZE: nat := 0
  const POST_ARGV_NULL_SPACE: nat := 0x20

  datatype Loaded = Error | Stack(sp: nat, pages: nat)

  // ------------------------------------------------------------- the meaning

  /** Where the `i`-th string begins when each is put after the one before. */
  function Offset(args: seq<ByteString>, i: nat): nat
    requires i <= |args|
  {
    if i == 0 then 0 else Offset(args, i - 1) + |args[i - 1]| + 1
  }

  lemma OffsetNext(args: seq<ByteString>, i: nat)
    ensures Offset(args, 0) == 0
    ensures i < |args| ==> Offset(args, i + 1) == Offset(args, i) + |args[i]| + 1
  {
  }

  /** Strings do not overlap. */
  lemma {:induction false} OffsetMono(args: seq<ByteString>, i: nat, j: nat)
    requires i < j <= |args|
    ensures Offset(args, i) + |args[i]| + 1 <= Offset(args, j)
    decreases j
  {
    if i == j - 1 {
    } else {
      OffsetMono(args, i, j - 1);
    }
  }

  ghost predicate TextAt(s: seq<Byte>, a: nat, t: ByteString) {
    && a + |t| < |s|
    && (forall k :: a <= k < a + |t| ==> s[k] == t[k - a])
    && s[a + |t|] == 0
  }

  /** The first `n` strings stand one after the other from `base`. */
  ghost predicate Texts(s: seq<Byte>, base: nat, args: seq<ByteString>, n: nat)
    requires n <= |args|
  {
    forall i :: 0 <= i < n ==> TextAt(s, base + Offset(args, i), args[i])
  }

  /** `t` is `s` but for the bytes `[a, end)`. */
  ghost predicate SameBut(t: seq<Byte>, s: seq<Byte>, a: nat, end: nat) {
    |t| == |s| && forall k :: 0 <= k < |s| && !(a <= k < end) ==> t[k] == s[k]
  }

  lemma TextsNone(s: seq<Byte>, base: nat, args: seq<ByteString>)
    ensures Texts(s, base, args, 0)
  {
  }

  lemma TextKept(t: seq<Byte>, s: seq<Byte>, a: nat, text: ByteString, x: nat, y: nat)
    requires TextAt(s, a, text) && SameBut(t, s, x, y) && (a + |text| < x || y <= a)
    ensures TextAt(t, a, text)
  {
  }

  /** A string put behind the others completes one more. */
  lemma TextsNext(t: seq<Byte>, s: seq<Byte>, base: nat, args: seq<ByteString>, i: nat)
    requires i < |args| && Texts(s, base, args, i)
    requires var d := base + Offset(args, i); SameBut(t, s, d, d + |args[i]| + 1) && TextAt(t, d, args[i])
    ensures Texts(t, base, args, i + 1)
  {
    hide Offset, TextAt, SameBut;
    var d := base + Offset(args, i);
    forall j | 0 <= j < i ensures TextAt(t, base + Offset(args, j), args[j]) {
      OffsetMono(args, j, i);
      TextKept(t, s, base + Offset(args, j), args[j], d, d + |args[i]| + 1);
    }
  }

  /** What is written outside the strings leaves them. */
  lemma TextsKept(t: seq<Byte>, s: seq<Byte>, base: nat, args: seq<ByteString>, n: nat, a: nat, end: nat)
    requires n <= |args| && Texts(s, base, args, n) && SameBut(t, s, a, end) && end <= base
    ensures Texts(t, base, args, n)
  {
    hide Offset, TextAt, SameBut;
    forall j | 0 <= j < n ensures TextAt(t, base + Offset(args, j), args[j]) {
      TextKept(t, s, base + Offset(args, j), args[j], a, end);
    }
  }

  /** The first `n` words from `argv` point to those strings. */
  ghost predicate Pointers(s: seq<Byte>, argv: nat, base: nat, args: seq<ByteString>, n: nat)
    requires n <= |args|
  {
    argv + 4 * n <= |s| && forall i :: 0 <= i < n ==> Word(s, argv + 4 * i) == base + Offset(args, i)
  }

  lemma WordKept(t: seq<Byte>, s: seq<Byte>, w: nat, a: nat, end: nat)
    requires w + 4 <= |s| && SameBut(t, s, a, end) && (w + 4 <= a || end <= w)
    ensures Word(t, w) == Word(s, w)
  {
  }

  lemma PointersKept(t: seq<Byte>, s: seq<Byte>, argv: nat, base: nat, args: seq<ByteString>, n: nat, a: nat, end: nat)
    requires n <= |args| && Pointers(s, argv, base, args, n) && SameBut(t, s, a, end) && argv + 4 * n <= a
    ensures Pointers(t, argv, base, args, n)
  {
    hide Offset, Word;
    forall i | 0 <= i < n ensures Word(t, argv + 4 * i) == Word(s, argv + 4 * i) {
      WordKept(t, s, argv + 4 * i, a, end);
    }
  }

  /** First byte of the strings, and the stack pointer below them. */
  function Strings(args: seq<ByteString>): int { VMEM_1_LIMIT - Offset(args, |args|) }

  function StackPointer(args: seq<ByteString>): int {
    (Strings(args) - (|args| + 3 + POST_ARGV_NULL_SPACE) * 4) / 8 * 8 - INITIAL_STACK_FRAME_SIZE
  }

  /** The words, the room kept behind them and the strings follow one another
      with less than 8 bytes of slack; strings are disjoint, and the last ends
      exactly at the end of region 1. */
  lemma Layout(args: seq<ByteString>)
    ensures 0 <= Strings(args) - 4 * 0x20 - (StackPointer(args) + 4 * (|args| + 3)) < 8
    ensures StackPointer(args) % 8 == 0
    ensures forall i: nat, j: nat :: i < j < |args| ==> Offset(args, i) + |args[i]| < Offset(args, j)
    ensures |args| > 0 ==>
      Strings(args) + Offset(args, |args| - 1) + |args[|args| - 1]| + 1 == VMEM_1_LIMIT
  {
    hide Offset;
    if |args| > 0 {
      OffsetNext(args, |args| - 1);
    }
    forall i: nat, j: nat | i < j < |args| ensures Offset(args, i) + |args[i]| < Offset(args, j) {
      OffsetMono(args, i, j);
    }
  }

  /** What main finds: argc, the argument pointers, two NULLs, room that is all
      zero, and the strings, of which the last ends at the end of region 1. */
  ghost predicate Frame(s: seq<Byte>, sp: nat, args: seq<ByteString>) {
    var argv, base := sp + 4, Strings(args);
    && |s| == VMEM_1_LIMIT && argv + 4 * |args| + 8 + 4 * POST_ARGV_NULL_SPACE <= base
    && Word(s, sp) == |args|
    && Pointers(s, argv, base, args, |args|)
    && Word(s, argv + 4 * |args|) == 0
    && Word(s, argv + 4 * |args| + 4) == 0
    && (forall a :: argv + 4 * |args| + 8 <= a < base ==> s[a] == 0)
    && Texts(s, base, args, |args|)
  }

  /** The stack while it is built: `p` pointers and `n` strings are there, all
      between them is zero, and nothing below the stack pointer has changed. */
  ghost predicate Built(s: seq<Byte>, was: seq<Byte>, sp: nat, args: seq<ByteString>, p: nat, n: nat)
    requires p <= |args| && n <= |args|
  {
    var argv, base := sp + 4, Strings(args);
    && |s| == VMEM_1_LIMIT && argv + 4 * |args| + 8 + 4 * POST_ARGV_NULL_SPACE <= base
    && SameBut(s, was, sp, VMEM_1_LIMIT)
    && Word(s, sp) == |args|
    && Pointers(s, argv, base, args, p)
    && (forall a :: argv + 4 * p <= a < base ==> s[a] == 0)
    && Texts(s, base, args, n)
  }

  lemma CountPut(t: seq<Byte>, s: seq<Byte>, was: seq<Byte>, sp: nat, args: seq<ByteString>)
    requires |s| == VMEM_1_LIMIT && sp + 12 + 4 * |args| + 4 * POST_ARGV_NULL_SPACE <= Strings(args)
    requires SameBut(s, was, sp, VMEM_1_LIMIT) && forall a :: sp <= a < VMEM_1_LIMIT ==> s[a] == 0
    requires SameBut(t, s, sp, sp + 4) && Word(t, sp) == |args|
    ensures Built(t, was, sp, args, 0, 0)
  {
    hide Offset, Word;
  }

  lemma PointerPut(t: seq<Byte>, s: seq<Byte>, was: seq<Byte>, sp: nat, args: seq<ByteString>, i: nat)
    requires i < |args| && Built(s, was, sp, args, i, i)
    requires var a := sp + 4 + 4 * i;
      SameBut(t, s, a, a + 4) && Word(t, a) == Strings(args) + Offset(args, i)
    ensures Built(t, was, sp, args, i + 1, i)
  {
    hide Offset, Texts;
    var a := sp + 4 + 4 * i;
    TextsKept(t, s, Strings(args), args, i, a, a + 4);
    PointersKept(t, s, sp + 4, Strings(args), args, i, a, a + 4);
  }

  lemma TextPut(t: seq<Byte>, s: seq<Byte>, was: seq<Byte>, sp: nat, args: seq<ByteString>, i: nat)
    requires i < |args| && Built(s, was, sp, args, i + 1, i)
    requires var d := Strings(args) + Offset(args, i);
      SameBut(t, s, d, d + |args[i]| + 1) && TextAt(t, d, args[i])
    ensures Built(t, was, sp, args, i + 1, i + 1)
  {
    hide Offset, Texts, TextAt;
    var base := Strings(args);
    var d := base + Offset(args, i);
    TextsNext(t, s, base, args, i);
    PointersKept(t, s, sp + 4, base, args, i + 1, d, d + |args[i]| + 1);
  }

  lemma ZeroWord(s: seq<Byte>, a: nat)
    requires a + 4 <= |s|
    ensures Word(s, a) == 0 <==> s[a] == 0 && s[a + 1] == 0 && s[a + 2] == 0 && s[a + 3] == 0
  {
  }

  /** A NULL put where all is zero. */
  lemma NullPut(t: seq<Byte>, s: seq<Byte>, was: seq<Byte>, sp: nat, args: seq<ByteString>, a: nat)
    requires Built(s, was, sp, args, |args|, |args|)
    requires sp + 4 + 4 * |args| <= a && a + 4 <= Strings(args)
    requires SameBut(t, s, a, a + 4) && Word(t, a) == 0
    ensures Built(t, was, sp, args, |args|, |args|)
  {
    hide Offset, Texts, Word;
    ZeroWord(t, a);
    WordKept(t, s, sp, a, a + 4);
    TextsKept(t, s, Strings(args), args, |args|, a, a + 4);
    PointersKept(t, s, sp + 4, Strings(args), args, |args|, a, a + 4);
  }

  lemma BuiltIsFrame(s: seq<Byte>, was: seq<Byte>, sp: nat, args: seq<ByteString>)
    requires Built(s, was, sp, args, |args|, |args|)
    ensures Frame(s, sp, args) && SameBut(s, was, sp, VMEM_1_LIMIT)
  {
    hide Offset, Texts, Word;
    ZeroWord(s, sp + 4 + 4 * |args|);
    ZeroWord(s, sp + 8 + 4 * |args|);
  }

  // -------------------------------------------------------- string functions

  lemma TextIsString(s: seq<Byte>, a: nat, t: ByteString)
    requires TextAt(s, a, t)
    ensures IsString(s, a, a + |t|) && s[a..a + |t|] == t
  {
  }

  lemma Terminated(t: ByteString)
    ensures IsString(t + [0], 0, |t|) && (t + [0])[0..0 + |t|] == t
  {
  }

  method Strlen(s: seq<Byte>, p: nat, ghost n: nat) returns (len: nat)
    requires IsString(s, p, p + n)
    ensures len == n
  {
    len := 0;
    while s[p + len] != 0
      invariant len <= n
      decreases n - len
    {
      len := len + 1;
    }
  }

  method Strcpy(mem: array<Byte>, d: nat, s: seq<Byte>, p: nat, ghost t: ByteString)
    requires IsString(s, p, p + |t|) && s[p..p + |t|] == t && d + |t| < mem.Length
    modifies mem
    ensures TextAt(mem[..], d, t)
    ensures SameBut(mem[..], old(mem[..]), d, d + |t| + 1)
  {
    var i := 0;
    while true
      invariant i <= |t|
      invariant forall k :: d <= k < d + i ==> mem[k] == t[k - d]
      invariant forall a :: 0 <= a < mem.Length && !(d <= a < d + i) ==> mem[a] == old(mem[a])
      decreases |t| - i
    {
      mem[d + i] := s[p + i];
      if s[p + i] == 0 {
        break;
      }
      assert s[p + i] == s[p..p + |t|][i];
      i := i + 1;
    }
    assert i == |t|;
  }

  method Clear(mem: array<Byte>, a: nat, end: nat)
    requires a <= end <= mem.Length
    modifies mem
    ensures forall k :: 0 <= k < mem.Length ==> mem[k] == if a <= k < end then 0 else old(mem[k])
  {
    var i := a;
    while i < end
      invariant a <= i <= end
      invariant forall k :: 0 <= k < mem.Length ==> mem[k] == if a <= k < i then 0 else old(mem[k])
    {
      mem[i] := 0;
      i := i + 1;
    }
  }

  // ----------------------------------------------------------------- the code

  /** Bytes the strings take, each with its NUL. */
  method Measure(args: seq<ByteString>) returns (size: nat)
    ensures size == Offset(args, |args|)
  {
    size := 0;
    var i := 0;
    while i < |args|
      invariant i <= |args| && size == Offset(args, i)
    {
      size := size + |args[i]| + 1;
      i := i + 1;
    }
  }

  /** The arguments saved in a buffer of their own. */
  method Save(args: seq<ByteString>, size: nat) returns (argbuf: array<Byte>)
    requires size == Offset(args, |args|)
    ensures fresh(argbuf) && argbuf.Length == size && Texts(argbuf[..], 0, args, |args|)
  {
    hide Texts, TextAt, SameBut, IsString;
    argbuf := new Byte[size];
    TextsNone(argbuf[..], 0, args);
    var i, cp2 := 0, 0;
    while i < |args|
      invariant i <= |args| && cp2 == Offset(args, i) && Texts(argbuf[..], 0, args, i)
    {
      OffsetMono(args, i, |args|);
      ghost var before := argbuf[..];
      Terminated(args[i]);
      Strcpy(argbuf, cp2, args[i] + [0], 0, args[i]);
      TextsNext(argbuf[..], before, 0, args, i);
      TextIsString(argbuf[..], cp2, args[i]);
      var n := Strlen(argbuf[..], cp2, |args[i]|);
      cp2 := cp2 + n + 1;
      i := i + 1;
    }
  }

  lemma SavedText(s: seq<Byte>, args: seq<ByteString>, i: nat)
    requires i < |args| && Texts(s, 0, args, |args|)
    ensures var p := Offset(args, i); IsString(s, p, p + |args[i]|) && s[p..p + |args[i]|] == args[i]
  {
    hide Offset;
    assert TextAt(s, 0 + Offset(args, i), args[i]);
  }

  lemma Cleared(s: seq<Byte>, was: seq<Byte>, sp: nat)
    requires |s| == |was| == VMEM_1_LIMIT
    requires forall k :: 0 <= k < |s| ==> s[k] == if sp <= k < VMEM_1_LIMIT then 0 else was[k]
    ensures SameBut(s, was, sp, VMEM_1_LIMIT)
  {
  }

  /** The page count of the check, in bytes. */
  lemma Fit(sp: int, pages: int, data: nat)
    requires pages == (VMEM_1_LIMIT - DownToPage(sp)) / PAGESIZE
    ensures pages + data < MAX_PT_LEN <==> VMEM_1_BASE + (data + 1) * PAGESIZE <= sp
    ensures 0 <= sp - (VMEM_1_LIMIT - pages * PAGESIZE) < PAGESIZE
  {
    var q := sp / 0x2000;
    assert DownToPage(sp) == q * 0x2000;
    assert pages == 256 - q;
  }

  method PutWord(mem: array<Byte>, a: nat, w: nat)
    requires a + 4 <= mem.Length && w < TWO_32
    modifies mem
    ensures Word(mem[..], a) == w && SameBut(mem[..], old(mem[..]), a, a + 4)
  {
    Store(mem, a, w);
  }

  /** Argument list on the new stack (from the copies in `argbuf`). */
  method BuildStack(mem: array<Byte>, argbuf: array<Byte>, sp: nat, base: nat, argcount: nat,
                    ghost args: seq<ByteString>)
    requires mem.Length == VMEM_1_LIMIT && mem != argbuf
    requires argcount == |args| && base == Strings(args) && Texts(argbuf[..], 0, args, argcount)
    requires sp + 12 + 4 * argcount + 4 * POST_ARGV_NULL_SPACE <= base
    modifies mem
    ensures Frame(mem[..], sp, args)
    ensures SameBut(mem[..], old(mem[..]), sp, VMEM_1_LIMIT)
  {
    hide Offset, Texts, Word, TextAt, SameBut, IsString, Built, Frame;
    ghost var was, saved := mem[..], argbuf[..];
    Clear(mem, sp, VMEM_1_LIMIT);
    Cleared(mem[..], was, sp);
    ghost var s := mem[..];
    var cp, cpp, cp2 := base, sp, 0;
    PutWord(mem, cpp, argcount);
    CountPut(mem[..], s, was, sp, args);
    cpp := cpp + 4;
    var i := 0;
    OffsetNext(args, 0);
    while i < argcount
      invariant i <= argcount && cpp == sp + 4 + 4 * i && cp2 == Offset(args, i) && cp == base + cp2
      invariant Built(mem[..], was, sp, args, i, i)
      invariant argbuf[..] == saved
    {
      OffsetMono(args, i, argcount);
      OffsetNext(args, i);
      SavedText(saved, args, i);
      s := mem[..];
      PutWord(mem, cpp, cp);
      PointerPut(mem[..], s, was, sp, args, i);
      cpp := cpp + 4;
      s := mem[..];
      Strcpy(mem, cp, argbuf[..], cp2, args[i]);
      TextPut(mem[..], s, was, sp, args, i);
      TextIsString(mem[..], cp, args[i]);
      var n := Strlen(mem[..], cp, |args[i]|);
      cp := cp + n + 1;
      n := Strlen(argbuf[..], cp2, |args[i]|);
      cp2 := cp2 + n + 1;
      i := i + 1;
    }
    s := mem[..];
    PutWord(mem, cpp, 0);
    NullPut(mem[..], s, was, sp, args, cpp);
    cpp := cpp + 4;
    s := mem[..];
    PutWord(mem, cpp, 0);
    NullPut(mem[..], s, was, sp, args, cpp);
    BuiltIsFrame(mem[..], was, sp, args);
  }

  /** A program is rejected exactly when its arguments do not leave one whole
      page above its data. Otherwise the stack pointer is 8-aligned, lies in the
      lowest of the counted stack pages, and what main finds is there; nothing
      below the stack pointer has changed. */
  method LoadArguments(mem: array<Byte>, args: seq<ByteString>, dataPage: nat, dataPages: nat) returns (r: Loaded)
    requires mem.Length == VMEM_1_LIMIT
    modifies mem
    ensures r.Stack? <==> VMEM_1_BASE + (dataPage + dataPages + 1) * PAGESIZE <= StackPointer(args)
    ensures r.Error? ==> mem[..] == old(mem[..])
    ensures r.Stack? ==>
      && r.sp == StackPointer(args) && r.sp % 8 == 0
      && 0 <= r.sp - (VMEM_1_LIMIT - r.pages * PAGESIZE) < PAGESIZE
      && Frame(mem[..], r.sp, args)
      && SameBut(mem[..], old(mem[..]), r.sp, VMEM_1_LIMIT)
  {
    hide Offset, Texts, SameBut, Frame;
    var size := Measure(args);
    var argcount := |args|;
    var cp: int := VMEM_1_LIMIT - size;
    var cpp: int := (cp - (argcount + 3 + POST_ARGV_NULL_SPACE) * 4) / 8 * 8;
    var cp2: int := cpp - INITIAL_STACK_FRAME_SIZE;
    var pages := (VMEM_1_LIMIT - DownToPage(cp2)) / PAGESIZE;
    Fit(cp2, pages, dataPage + dataPages);
    if pages + dataPage + dataPages >= MAX_PT_LEN {
      return Error;
    }
    r := Stack(cp2, pages);
    var argbuf := Save(args, size);
    BuildStack(mem, argbuf, cpp, cp, argcount, args);
  }
}
