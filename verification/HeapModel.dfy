/** malloc, free and realloc as functions on the block list, with the laws a
    program using the heap relies on. */
module HeapModel {
  import opened Arithmetic
  import opened Machine
  import opened BlockList

  datatype HeapState = HeapState(blocks: seq<Block>, lo: nat, hi: nat)

  datatype Outcome = Outcome(heap: HeapState, ptr: nat)

  ghost predicate Inv(s: HeapState) {
    0 < s.lo && Tiles(s.blocks, s.lo, s.hi) && Canonical(s.blocks)
  }

  function WordRound(n: nat): (r: nat)
    ensures r % 4 == 0 && n <= r < n + 4
  {
    (n + 3) / 4 * 4
  }

  /** malloc adds four bytes of slop, so that no block has length 0. */
  function Request(len: nat): (n: nat)
    ensures n % 4 == 0 && len + 4 <= n < len + 8
  {
    WordRound(len + 4)
  }

  function First(bs: seq<Block>, p: Block -> bool): (k: nat)
    ensures k <= |bs|
    ensures k < |bs| ==> p(bs[k])
    ensures forall i :: 0 <= i < k ==> !p(bs[i])
  {
    if bs == [] then 0 else if p(bs[0]) then 0 else 1 + First(bs[1..], p)
  }

  predicate Fits(b: Block, need: nat) { b.Free() && need <= b.size }

  /** Where the scans of malloc, free and realloc stop. */
  function FirstFit(bs: seq<Block>, need: nat): (k: nat)
    ensures k <= |bs|
    ensures k < |bs| ==> Fits(bs[k], need)
    ensures forall i :: 0 <= i < k ==> !Fits(bs[i], need)
  {
    First(bs, (b: Block) => Fits(b, need))
  }

  function FirstContaining(bs: seq<Block>, a: nat): (k: nat)
    ensures k <= |bs|
    ensures k < |bs| ==> bs[k].Contains(a)
    ensures forall i :: 0 <= i < k ==> !bs[i].Contains(a)
  {
    First(bs, (b: Block) => b.Contains(a))
  }

  function FirstAt(bs: seq<Block>, ptr: nat): (k: nat)
    ensures k <= |bs|
    ensures k < |bs| ==> bs[k].Start() == ptr
    ensures forall i :: 0 <= i < k ==> bs[i].Start() != ptr
  {
    First(bs, (b: Block) => b.Start() == ptr)
  }

  function SetUsed(bs: seq<Block>, k: nat, used: nat): seq<Block>
    requires k < |bs|
  {
    bs[k := bs[k].(used := used)]
  }

  function SplitAt(bs: seq<Block>, k: nat, len: nat): seq<Block>
    requires k < |bs| && len <= bs[k].size
  {
    var b := bs[k];
    if b.size < len + MINBLOCK then bs
    else bs[..k] + [Block(b.addr, len, b.used), Block(b.Start() + len, b.size - len - HEADER, 0)] + bs[k + 1..]
  }

  function Take(bs: seq<Block>, k: nat, need: nat): seq<Block>
    requires k < |bs| && need <= bs[k].size
  {
    SetUsed(SplitAt(bs, k, need), k, need)
  }

  /** The kernel grants a break up to `limit`, and is only asked when the page
      of the break changes. */
  predicate BrkGranted(current: nat, request: nat, limit: nat) {
    UpToPage(request) == UpToPage(current) || UpToPage(request) <= limit
  }

  function RoundUp8(a: nat): (r: nat)
    ensures r % 8 == 0 && a <= r < a + 8
  {
    (a + 7) / 8 * 8
  }

  /** The first page boundary that leaves room for a header and `need` bytes. */
  function GrowEnd(hi: nat, need: nat): (end: nat)
    ensures end % PAGESIZE == 0 && hi + HEADER + need <= end < hi + HEADER + need + PAGESIZE
  {
    UpToPage(hi + need + HEADER)
  }

  /** A grown break is page-aligned and stays within memory. */
  lemma GrowBound(hi: nat, need: nat, limit: nat, size: nat)
    requires hi <= size && limit <= size && size % PAGESIZE == 0
    ensures var end := GrowEnd(hi, need);
            && RoundUp8(end) == end && hi + need + HEADER <= end && end % 4 == 0
            && (BrkGranted(hi, end, limit) ==> end <= size)
  {
    var end := GrowEnd(hi, need);
    PageMultiple(end);
    UpToPageMono(hi, size);
    UpToPageMono(size, size);
    UpToPageMono(end, end);
    hide UpToPage;
  }

  /** The list after the heap has grown to `end`: the new block is merged into
      the last one when that one is free. */
  function Grown(bs: seq<Block>, hi: nat, end: nat): seq<Block>
    requires |bs| > 0 && hi + HEADER <= end
  {
    var more := bs + [Block(hi, end - hi - HEADER, 0)];
    if bs[|bs| - 1].Free() then FuseAt(more, |bs| - 1) else more
  }

  function Malloc(s: HeapState, len: nat, limit: nat): (r: Outcome)
    requires |s.blocks| > 0
    ensures |r.heap.blocks| > 0
  {
    var need := Request(len);
    if TWO_31 <= len then Outcome(s, 0)
    else
      var k := FirstFit(s.blocks, need);
      if k < |s.blocks| then
        Outcome(s.(blocks := Take(s.blocks, k, need)), s.blocks[k].Start())
      else
        var end := GrowEnd(s.hi, need);
        if !BrkGranted(s.hi, end, limit) then Outcome(s, 0)
        else
          var bs := Grown(s.blocks, s.hi, end);
          var last := |bs| - 1;
          if bs[last].size < need then Outcome(HeapState(bs, s.lo, end), 0)
          else Outcome(HeapState(Take(bs, last, need), s.lo, end), bs[last].Start())
  }

  function Free(s: HeapState, a: nat): (t: HeapState)
    ensures |s.blocks| > 0 ==> |t.blocks| > 0
  {
    var k := FirstContaining(s.blocks, a);
    if a == 0 || k == |s.blocks| || s.blocks[k].Free() then s
    else s.(blocks := Coalesce(SetUsed(s.blocks, k, 0)))
  }

  predicate CanAbsorb(bs: seq<Block>, k: nat, size: nat)
    requires k < |bs|
  {
    k + 1 < |bs| && bs[k + 1].Free() && size <= bs[k].size + bs[k + 1].size + HEADER
  }

  function Absorb(bs: seq<Block>, k: nat, size: nat): seq<Block>
    requires k + 1 < |bs|
  {
    Joined(bs, k, Block(bs[k].addr, bs[k].size + bs[k + 1].size + HEADER, size))
  }

  function Realloc(s: HeapState, ptr: nat, size: nat, limit: nat): (r: Outcome)
    requires |s.blocks| > 0
    ensures |r.heap.blocks| > 0
  {
    hide Malloc, Free;
    if size == 0 then Outcome(Free(s, ptr), 0)
    else if ptr == 0 then Malloc(s, size, limit)
    else
      var k := FirstAt(s.blocks, ptr);
      if k == |s.blocks| then Outcome(s, 0)
      else if size <= s.blocks[k].size then
        Outcome(s.(blocks := SetUsed(s.blocks, k, size)), ptr)
      else if CanAbsorb(s.blocks, k, size) then
        Outcome(s.(blocks := Absorb(s.blocks, k, size)), ptr)
      else
        var moved := Malloc(s, size, limit);
        if moved.ptr == 0 then moved
        else Outcome(Free(moved.heap, ptr), moved.ptr)
  }

  // ------------------------------------------------------- list-level facts

  /** `ys` has the used blocks of `xs` and `b` besides. */
  ghost predicate Adds(xs: seq<Block>, ys: seq<Block>, b: Block) {
    && !b.Free() && b in ys && b !in xs
    && forall c: Block :: !c.Free() && c != b ==> (c in xs <==> c in ys)
  }

  /** The used blocks of `ys` are those of `xs` with `b` replaced by `c`. */
  ghost predicate Replaces(xs: seq<Block>, ys: seq<Block>, b: Block, c: Block) {
    && b in xs && c in ys && !c.Free()
    && (b != c ==> b !in ys && c !in xs)
    && forall d: Block :: !d.Free() && d != b && d != c ==> (d in xs <==> d in ys)
  }

  lemma SplitIndex(bs: seq<Block>, k: nat, len: nat)
    requires k < |bs| && bs[k].Free() && len + MINBLOCK <= bs[k].size
    ensures var ss := SplitAt(bs, k, len);
            && |ss| == |bs| + 1
            && (forall i :: 0 <= i < k ==> ss[i] == bs[i])
            && ss[k] == Block(bs[k].addr, len, 0)
            && ss[k + 1] == Block(bs[k].Start() + len, bs[k].size - len - HEADER, 0)
            && (forall i :: k + 1 < i < |ss| ==> ss[i] == bs[i - 1])
  {
  }

  lemma SplitSameUsed(bs: seq<Block>, k: nat, len: nat)
    requires k < |bs| && bs[k].Free() && len + MINBLOCK <= bs[k].size
    ensures SameUsed(bs, SplitAt(bs, k, len))
  {
    assert bs == bs[..k] + [bs[k]] + bs[k + 1..];
  }

  lemma SplitTiles(bs: seq<Block>, lo: nat, hi: nat, k: nat, len: nat)
    requires Tiles(bs, lo, hi) && k < |bs| && bs[k].Free()
    requires 0 < len <= bs[k].size && len % 4 == 0
    ensures var ss := SplitAt(bs, k, len);
            && Tiles(ss, lo, hi) && SameUsed(bs, ss)
            && |bs| <= |ss| && ss[k].Free() && ss[k].addr == bs[k].addr
            && len <= ss[k].size < len + MINBLOCK
  {
    if len + MINBLOCK <= bs[k].size {
      SplitSameUsed(bs, k, len);
      SplitChain(bs, lo, hi, k, len);
    }
  }

  lemma SplitChain(bs: seq<Block>, lo: nat, hi: nat, k: nat, len: nat)
    requires Tiles(bs, lo, hi) && k < |bs| && bs[k].Free()
    requires 0 < len && len % 4 == 0 && len + MINBLOCK <= bs[k].size
    ensures Tiles(SplitAt(bs, k, len), lo, hi)
    ensures SplitAt(bs, k, len)[k] == Block(bs[k].addr, len, 0)
  {
    SplitIndex(bs, k, len);
    hide SplitAt;
    var ss := SplitAt(bs, k, len);
    forall i, j | 0 <= i && j == i + 1 && j < |ss| ensures ss[j].addr == ss[i].End() {
      if j <= k {
        assert ss[i] == bs[i] && ss[j].addr == bs[j].addr;
      } else if i == k + 1 {
        assert ss[i].End() == bs[k].End() && ss[j] == bs[k + 1];
      } else if i > k + 1 {
        assert ss[i] == bs[i - 1] && ss[j] == bs[j - 1];
      }
    }
    forall i | 0 <= i < |ss| ensures ss[i].Good() {
      assert bs[k].Good();
      if i > k + 1 { assert ss[i] == bs[i - 1]; }
    }
  }

  /** Changing `used` of block `k` changes no other block of the list. */
  lemma SetUsedChanges(bs: seq<Block>, k: nat, used: nat)
    requires k < |bs|
    requires forall i :: 0 <= i < |bs| && i != k ==> bs[i].addr != bs[k].addr
    ensures var us := SetUsed(bs, k, used);
            && (used != bs[k].used ==> bs[k] !in us && us[k] !in bs)
            && bs[k] in bs && us[k] in us
            && forall c :: c != bs[k] && c != us[k] ==> (c in bs <==> c in us)
  {
    var us := SetUsed(bs, k, used);
    forall c: Block | c != bs[k] && c != us[k] ensures c in bs <==> c in us {
      if c in bs { var i :| 0 <= i < |bs| && bs[i] == c; assert us[i] == c; }
      if c in us { var i :| 0 <= i < |us| && us[i] == c; assert bs[i] == c; }
    }
  }

  lemma SetUsedTiles(bs: seq<Block>, lo: nat, hi: nat, k: nat, used: nat)
    requires Tiles(bs, lo, hi) && k < |bs| && used <= bs[k].size
    ensures Tiles(SetUsed(bs, k, used), lo, hi)
    ensures bs[k].Free() && used > 0 ==> Adds(bs, SetUsed(bs, k, used), bs[k].(used := used))
    ensures !bs[k].Free() && used == 0 ==> Adds(SetUsed(bs, k, used), bs, bs[k])
    ensures !bs[k].Free() && used > 0 ==> Replaces(bs, SetUsed(bs, k, used), bs[k], bs[k].(used := used))
  {
    AllOrdered(bs, lo, hi);
    SetUsedChanges(bs, k, used);
  }

  lemma AddsAfterSame(xs: seq<Block>, ys: seq<Block>, zs: seq<Block>, b: Block)
    requires SameUsed(xs, ys) && Adds(ys, zs, b)
    ensures Adds(xs, zs, b)
  {
  }

  lemma TakeCorrect(bs: seq<Block>, lo: nat, hi: nat, k: nat, need: nat)
    requires Tiles(bs, lo, hi) && k < |bs| && bs[k].Free()
    requires 0 < need <= bs[k].size && need % 4 == 0
    ensures var ts := Take(bs, k, need);
            && Tiles(ts, lo, hi) && k < |ts|
            && ts[k].addr == bs[k].addr && ts[k].used == need && ts[k].size < need + MINBLOCK
            && Adds(bs, ts, ts[k])
  {
    SplitTiles(bs, lo, hi, k, need);
    var ss := SplitAt(bs, k, need);
    SetUsedTiles(ss, lo, hi, k, need);
    AllOrdered(bs, lo, hi);
  }

  lemma TakeCanonical(bs: seq<Block>, k: nat, need: nat)
    requires Canonical(bs) && k < |bs| && bs[k].Free() && 0 < need <= bs[k].size
    ensures Canonical(Take(bs, k, need))
  {
    var ts := Take(bs, k, need);
    forall i, j | 0 <= i && j == i + 1 && j < |ts| ensures !(ts[i].Free() && ts[j].Free()) {
      if |ts| > |bs| && i > k {
        assert ts[j] == bs[j - 1] && (i > k + 1 ==> ts[i] == bs[i - 1]);
      }
    }
  }

  lemma AppendTiles(bs: seq<Block>, lo: nat, hi: nat, b: Block)
    requires Tiles(bs, lo, hi) && b.Good() && b.addr == hi && b.Free()
    ensures Tiles(bs + [b], lo, b.End()) && SameUsed(bs, bs + [b])
    ensures Canonical(bs) && !bs[|bs| - 1].Free() ==> Canonical(bs + [b])
  {
  }

  lemma LastFused(bs: seq<Block>, b: Block)
    requires |bs| > 0 && bs[|bs| - 1].Free() && b.Free() && Canonical(bs)
    ensures var fs := FuseAt(bs + [b], |bs| - 1);
            fs == bs[..|bs| - 1] + [Fuse(bs[|bs| - 1], b)] && Canonical(fs)
  {
  }

  /** Growing keeps the tiling, and the last block of the grown heap is free
      and big enough. */
  lemma GrownCorrect(bs: seq<Block>, lo: nat, hi: nat, need: nat)
    requires Tiles(bs, lo, hi) && Canonical(bs) && lo % 4 == 0
    requires 0 < need && need % 4 == 0
    ensures var end := GrowEnd(hi, need);
            var gs := Grown(bs, hi, end);
            && Tiles(gs, lo, end) && Canonical(gs) && SameUsed(bs, gs)
            && gs[|gs| - 1].Free() && need <= gs[|gs| - 1].size
  {
    AddrAligned(bs, lo, hi, |bs| - 1);
    var end := GrowEnd(hi, need);
    var b := Block(hi, end - hi - HEADER, 0);
    var more := bs + [b];
    AppendTiles(bs, lo, hi, b);
    hide Tiles, Canonical;
    if bs[|bs| - 1].Free() {
      FuseTiles(more, lo, end, |bs| - 1);
      LastFused(bs, b);
    }
  }

  lemma GrownKeepsUsed(bs: seq<Block>, lo: nat, hi: nat, need: nat)
    requires Tiles(bs, lo, hi)
    ensures var gs := Grown(bs, hi, GrowEnd(hi, need));
            gs[|gs| - 1].Free() && forall b :: b in bs && !b.Free() ==> b in gs
  {
    var more := bs + [Block(hi, GrowEnd(hi, need) - hi - HEADER, 0)];
    assert bs[|bs| - 1].Free() ==>
        FuseAt(more, |bs| - 1) == bs[..|bs| - 1] + [Fuse(bs[|bs| - 1], more[|bs|])];
    assert bs == bs[..|bs| - 1] + [bs[|bs| - 1]];
  }

  lemma {:induction false} AddrAligned(bs: seq<Block>, lo: nat, hi: nat, i: nat)
    requires Tiles(bs, lo, hi) && lo % 4 == 0 && i < |bs|
    ensures bs[i].addr % 4 == 0 && bs[i].End() % 4 == 0
  {
    if i == 0 {
    } else {
      AddrAligned(bs, lo, hi, i - 1);
      assert bs[i].addr == bs[i - 1].End();
    }
    assert bs[i].Good() && bs[i].End() == bs[i].addr + 24 + bs[i].size;
  }

  // ------------------------------------------------------------- the three calls

  /** malloc keeps the invariant; NULL leaves the heap as it was; otherwise
      exactly one used block appears, at the returned pointer, with room for
      the rounded request and less than MINBLOCK of slack. */
  lemma MallocCorrect(s: HeapState, len: nat, limit: nat) returns (b: Block)
    requires Inv(s) && s.lo % 4 == 0
    ensures var r := Malloc(s, len, limit);
            && Inv(r.heap) && r.heap.lo == s.lo && s.hi <= r.heap.hi
            && (r.ptr == 0 ==> r.heap == s)
            && (r.ptr != 0 ==> Adds(s.blocks, r.heap.blocks, b) && b.Start() == r.ptr
                               && b.used == Request(len) && b.size < Request(len) + MINBLOCK)
  {
    var need := Request(len);
    var k := FirstFit(s.blocks, need);
    b := s.blocks[0];
    if len < TWO_31 {
      if k < |s.blocks| {
        TakeCorrect(s.blocks, s.lo, s.hi, k, need);
        TakeCanonical(s.blocks, k, need);
        b := Take(s.blocks, k, need)[k];
      } else if BrkGranted(s.hi, GrowEnd(s.hi, need), limit) {
        GrownCorrect(s.blocks, s.lo, s.hi, need);
        var end := GrowEnd(s.hi, need);
        var gs := Grown(s.blocks, s.hi, end);
        TakeCorrect(gs, s.lo, end, |gs| - 1, need);
        TakeCanonical(gs, |gs| - 1, need);
        b := Take(gs, |gs| - 1, need)[|gs| - 1];
        AddsAfterSame(s.blocks, gs, Take(gs, |gs| - 1, need), b);
      }
    }
  }

  /** malloc fails exactly when the length is negative as an int, or no free
      block is long enough and the kernel refuses the page where the grown heap
      would end; the "something odd" exit is dead. */
  lemma MallocNullIff(s: HeapState, len: nat, limit: nat)
    requires Inv(s) && s.lo % 4 == 0
    ensures var need := Request(len);
            var end := GrowEnd(s.hi, need);
            Malloc(s, len, limit).ptr == 0 <==>
            || 0x8000_0000 <= len
            || ((forall b :: b in s.blocks ==> !(b.used == 0 && need <= b.size))
                && limit < end && UpToPage(s.hi) != end)
  {
    UpToPageMono(GrowEnd(s.hi, Request(len)), GrowEnd(s.hi, Request(len)));
    hide UpToPage;
  }

  lemma TakeFront(bs: seq<Block>, k: nat, need: nat)
    requires k < |bs| && need <= bs[k].size
    ensures |Take(bs, k, need)| > k
    ensures Take(bs, k, need)[k] ==
            Block(bs[k].addr, if bs[k].size < need + 48 then bs[k].size else need, need)
  {
  }

  /** Without growth malloc takes the lowest free block that is long enough, from
      its front: what is left over becomes a block of its own exactly when it
      has room for two headers. */
  lemma MallocLowest(s: HeapState, len: nat, limit: nat, b: Block) returns (c: Block, d: Block)
    requires Inv(s) && s.lo % 4 == 0 && len < TWO_31
    requires b in s.blocks && b.used == 0 && Request(len) <= b.size
    ensures c in s.blocks && c.used == 0 && Request(len) <= c.size && c.addr <= b.addr
    ensures var r := Malloc(s, len, limit);
            && r.heap.hi == s.hi && r.ptr == c.addr + 24
            && d in r.heap.blocks && d.addr == c.addr && d.used == Request(len)
            && d.size == if c.size < Request(len) + 48 then c.size else Request(len)
  {
    AllOrdered(s.blocks, s.lo, s.hi);
    var need := Request(len);
    var k := FirstFit(s.blocks, need);
    var i :| 0 <= i < |s.blocks| && s.blocks[i] == b;
    c := s.blocks[k];
    TakeFront(s.blocks, k, need);
    d := Take(s.blocks, k, need)[k];
    hide Take, Request, FirstFit;
  }

  lemma {:induction false} NothingFits(bs: seq<Block>, need: nat)
    requires forall b :: b in bs ==> !Fits(b, need)
    ensures FirstFit(bs, need) == |bs|
  {
  }

  /** With growth malloc takes the front of the last block, if that was free, or
      of the new bytes, and the heap then ends at the first page that holds it. */
  lemma MallocGrows(s: HeapState, len: nat, limit: nat)
    requires Inv(s) && s.lo % 4 == 0
    requires forall b :: b in s.blocks ==> !(b.used == 0 && Request(len) <= b.size)
    requires Malloc(s, len, limit).ptr != 0
    ensures var r, last := Malloc(s, len, limit), s.blocks[|s.blocks| - 1];
            && r.heap.hi == GrowEnd(s.hi, Request(len))
            && r.ptr == (if last.used == 0 then last.addr else s.hi) + 24
  {
    NothingFits(s.blocks, Request(len));
    GrownCorrect(s.blocks, s.lo, s.hi, Request(len));
  }

  /** free on any address inside a used block removes exactly that block. */
  lemma FreeCorrect(s: HeapState, a: nat, b: Block)
    requires Inv(s) && b in s.blocks && !b.Free() && b.Contains(a)
    ensures var r := Free(s, a);
            && Inv(r) && r.lo == s.lo && r.hi == s.hi && Adds(r.blocks, s.blocks, b)
  {
    AllOrdered(s.blocks, s.lo, s.hi);
    var k := FirstContaining(s.blocks, a);
    var i :| 0 <= i < |s.blocks| && s.blocks[i] == b;
    assert k == i;
    SetUsedTiles(s.blocks, s.lo, s.hi, k, 0);
    CoalesceCorrect(SetUsed(s.blocks, k, 0), s.lo, s.hi);
  }

  lemma FreeKeepsInv(s: HeapState, a: nat)
    requires Inv(s)
    ensures Inv(Free(s, a)) && Free(s, a).lo == s.lo && Free(s, a).hi == s.hi
    ensures (forall b :: b in s.blocks && b.Contains(a) ==> b.Free()) ==> Free(s, a) == s
  {
    var k := FirstContaining(s.blocks, a);
    if k < |s.blocks| && !s.blocks[k].Free() {
      FreeCorrect(s, a, s.blocks[k]);
    }
  }

  lemma AddThenRemove(xs: seq<Block>, ys: seq<Block>, zs: seq<Block>, b: Block, c: Block)
    requires b in xs && !b.Free() && Adds(xs, ys, c) && Adds(zs, ys, b)
    ensures Replaces(xs, zs, b, c)
  {
  }

  /** realloc of a live pointer: NULL leaves the heap as it was; otherwise the
      block is replaced by one at the returned pointer that can hold `size`
      bytes, and every other used block stays. */
  lemma ReallocCorrect(s: HeapState, ptr: nat, size: nat, limit: nat, b: Block) returns (c: Block)
    requires Inv(s) && s.lo % 4 == 0 && size > 0
    requires b in s.blocks && !b.Free() && b.Start() == ptr
    ensures var r := Realloc(s, ptr, size, limit);
            && Inv(r.heap) && r.heap.lo == s.lo && s.hi <= r.heap.hi
            && (r.ptr == 0 ==> r.heap == s)
            && (r.ptr != 0 ==> Replaces(s.blocks, r.heap.blocks, b, c)
                               && c.Start() == r.ptr && size <= c.used <= c.size)
  {
    var k := FirstAt(s.blocks, ptr);
    assert s.blocks[k] == b by { AllOrdered(s.blocks, s.lo, s.hi); }
    hide Tiles, Canonical, Malloc, Free, Absorb, CanAbsorb, SetUsed;
    c := b;
    if size <= b.size {
      SetUsedTiles(s.blocks, s.lo, s.hi, k, size);
      c := b.(used := size);
    } else if CanAbsorb(s.blocks, k, size) {
      AbsorbCorrect(s.blocks, s.lo, s.hi, k, size);
      c := Absorb(s.blocks, k, size)[k];
    } else {
      c := MallocCorrect(s, size, limit);
      var moved := Malloc(s, size, limit);
      if moved.ptr != 0 {
        assert b in moved.heap.blocks;
        FreeCorrect(moved.heap, ptr, b);
        AddThenRemove(s.blocks, moved.heap.blocks, Free(moved.heap, ptr).blocks, b, c);
      }
    }
  }

  /** There is room for `size` bytes at the live pointer `ptr`: in its block, or
      in that block and the free one right behind it with its header. */
  ghost predicate RoomAt(s: HeapState, ptr: nat, size: nat) {
    exists b :: b in s.blocks && b.used != 0 && b.addr + 24 == ptr && (size <= b.size || RoomBehind(s, b, size))
  }

  ghost predicate RoomBehind(s: HeapState, b: Block, size: nat) {
    exists c :: c in s.blocks && c.used == 0 && c.addr == b.addr + 24 + b.size && size <= b.size + c.size + 24
  }

  lemma RoomBehindIs(s: HeapState, k: nat, size: nat)
    requires Inv(s) && k < |s.blocks|
    ensures RoomBehind(s, s.blocks[k], size) <==> CanAbsorb(s.blocks, k, size)
  {
    AllOrdered(s.blocks, s.lo, s.hi);
    var b := s.blocks[k];
    if c :| c in s.blocks && c.used == 0 && c.addr == b.addr + 24 + b.size && size <= b.size + c.size + 24 {
      var j :| 0 <= j < |s.blocks| && s.blocks[j] == c;
      assert j == k + 1;
    }
    if CanAbsorb(s.blocks, k, size) {
      assert s.blocks[k + 1] in s.blocks;
    }
  }

  /** `d` is block `b` holding `size` bytes, with the free block behind it taken
      in exactly when `b` alone is too small. */
  ghost predicate Resized(s: HeapState, b: Block, d: Block, size: nat) {
    && d.addr == b.addr && d.used == size
    && if size <= b.size then d.size == b.size
       else exists c :: c in s.blocks && c.used == 0 && c.addr == b.addr + 24 + b.size && d.size == b.size + c.size + 24
  }

  lemma ReallocStays(s: HeapState, k: nat, size: nat, limit: nat) returns (d: Block)
    requires Inv(s) && k < |s.blocks| && size > 0 && k == FirstAt(s.blocks, s.blocks[k].Start())
    requires size <= s.blocks[k].size || CanAbsorb(s.blocks, k, size)
    ensures var r := Realloc(s, s.blocks[k].Start(), size, limit);
            && r.ptr == s.blocks[k].Start() && r.heap.lo == s.lo && r.heap.hi == s.hi
            && d in r.heap.blocks && Resized(s, s.blocks[k], d, size)
  {
    var b := s.blocks[k];
    FuseBounds(s.blocks, s.lo, s.hi, k);
    hide Tiles, Canonical, Malloc, Free, FirstAt;
    if size <= b.size {
      d := b.(used := size);
      assert SetUsed(s.blocks, k, size)[k] == d;
    } else {
      d := Block(b.addr, b.size + s.blocks[k + 1].size + 24, size);
      assert s.blocks[k + 1] in s.blocks;
      assert Absorb(s.blocks, k, size)[k] == d;
    }
  }

  lemma ReallocMoves(s: HeapState, k: nat, size: nat, limit: nat)
    requires Inv(s) && s.lo % 4 == 0 && k < |s.blocks| && size > 0 && k == FirstAt(s.blocks, s.blocks[k].Start())
    requires s.blocks[k].used != 0 && size > s.blocks[k].size && !CanAbsorb(s.blocks, k, size)
    ensures var r := Realloc(s, s.blocks[k].Start(), size, limit);
            r.ptr != s.blocks[k].Start() && r.ptr == Malloc(s, size, limit).ptr
  {
    var b := s.blocks[k];
    var m := Malloc(s, size, limit);
    var c := MallocCorrect(s, size, limit);
    if m.ptr != 0 {
      OneAt(m.heap, c);
      assert b in m.heap.blocks && b != c;
    }
    hide Tiles, Canonical, Malloc, Free, FirstAt;
  }

  /** realloc of a live pointer stays where it is exactly when there is room, and
      then the heap keeps its bounds; otherwise its answer is that of malloc,
      which is another pointer or NULL. */
  lemma ReallocWhere(s: HeapState, ptr: nat, size: nat, limit: nat, b: Block) returns (d: Block)
    requires Inv(s) && s.lo % 4 == 0 && size > 0
    requires b in s.blocks && b.used != 0 && b.addr + 24 == ptr
    ensures RoomAt(s, ptr, size) <==> size <= b.size || RoomBehind(s, b, size)
    ensures var r := Realloc(s, ptr, size, limit);
            if RoomAt(s, ptr, size) then
              && r.ptr == ptr && r.heap.lo == s.lo && r.heap.hi == s.hi
              && d in r.heap.blocks && Resized(s, b, d, size)
            else
              r.ptr != ptr && r.ptr == Malloc(s, size, limit).ptr
  {
    var k := FirstAt(s.blocks, ptr);
    assert s.blocks[k] == b by { AllOrdered(s.blocks, s.lo, s.hi); }
    OneAt(s, b);
    RoomBehindIs(s, k, size);
    hide Tiles, Canonical, Malloc, Free, Realloc, RoomBehind, CanAbsorb, Resized, FirstAt;
    d := b;
    if size <= b.size || CanAbsorb(s.blocks, k, size) {
      d := ReallocStays(s, k, size, limit);
    } else {
      ReallocMoves(s, k, size, limit);
    }
  }

  lemma OneAt(s: HeapState, b: Block)
    requires Inv(s) && b in s.blocks
    ensures forall c :: c in s.blocks && c.addr == b.addr ==> c == b
  {
    AllOrdered(s.blocks, s.lo, s.hi);
  }

  lemma ReallocZero(s: HeapState, ptr: nat, limit: nat)
    requires |s.blocks| > 0
    ensures Realloc(s, ptr, 0, limit) == Outcome(Free(s, ptr), 0)
  {
  }

  lemma ReallocNull(s: HeapState, size: nat, limit: nat)
    requires |s.blocks| > 0 && size > 0
    ensures Realloc(s, 0, size, limit) == Malloc(s, size, limit)
  {
  }

  lemma ReallocNotFound(s: HeapState, ptr: nat, size: nat, limit: nat)
    requires |s.blocks| > 0 && size > 0 && ptr > 0 && FirstAt(s.blocks, ptr) == |s.blocks|
    ensures Realloc(s, ptr, size, limit) == Outcome(s, 0)
  {
  }

  lemma AbsorbTiles(bs: seq<Block>, lo: nat, hi: nat, k: nat, size: nat)
    requires Tiles(bs, lo, hi) && k < |bs| && CanAbsorb(bs, k, size)
    ensures Tiles(Absorb(bs, k, size), lo, hi)
  {
    var us := SetUsed(bs, k, 0);
    SetUsedTiles(bs, lo, hi, k, 0);
    FuseTiles(us, lo, hi, k);
    SetUsedTiles(FuseAt(us, k), lo, hi, k, size);
    assert SetUsed(FuseAt(us, k), k, size) == Absorb(bs, k, size);
  }

  lemma AbsorbCorrect(bs: seq<Block>, lo: nat, hi: nat, k: nat, size: nat)
    requires Tiles(bs, lo, hi) && Canonical(bs)
    requires k < |bs| && !bs[k].Free() && bs[k].size < size && CanAbsorb(bs, k, size)
    ensures var ts := Absorb(bs, k, size);
            && Tiles(ts, lo, hi) && Canonical(ts) && k < |ts| && Replaces(bs, ts, bs[k], ts[k])
  {
    var us := SetUsed(bs, k, 0);
    var fs := FuseAt(us, k);
    var ts := SetUsed(fs, k, size);
    assert ts == Absorb(bs, k, size);
    SetUsedTiles(bs, lo, hi, k, 0);
    FuseTiles(us, lo, hi, k);
    SetUsedTiles(fs, lo, hi, k, size);
    AllOrdered(bs, lo, hi);
    AbsorbCanonical(bs, k, size);
  }

  lemma AbsorbCanonical(bs: seq<Block>, k: nat, size: nat)
    requires Canonical(bs) && 0 < size && k + 1 < |bs| && bs[k + 1].Free()
    ensures Canonical(Absorb(bs, k, size))
  {
    var ts := Absorb(bs, k, size);
    forall i, j | 0 <= i && j == i + 1 && j < |ts| ensures !(ts[i].Free() && ts[j].Free()) {
      if i > k { assert ts[j] == bs[j + 1] && ts[i] == bs[i + 1]; }
    }
  }

  // -------------------------------------------------- laws across several calls

  lemma SingleFree(s: HeapState)
    requires Inv(s) && forall b :: b in s.blocks ==> b.Free()
    ensures s.lo + HEADER < s.hi && s == Initial(s.lo, s.hi)
  {
    var second := s.blocks[if |s.blocks| > 1 then 1 else 0];
    assert s.blocks[0] in s.blocks && second in s.blocks;
    assert s.blocks == [s.blocks[0]];
  }

  /** A malloc that does not grow, undone by free, restores the list exactly. */
  lemma MallocFreeRestores(s: HeapState, len: nat, limit: nat)
    requires Inv(s) && s.lo % 4 == 0
    requires var r := Malloc(s, len, limit); r.ptr != 0 && r.heap.hi == s.hi
    ensures Free(Malloc(s, len, limit).heap, Malloc(s, len, limit).ptr) == s
  {
    var r := Malloc(s, len, limit);
    var b := MallocCorrect(s, len, limit);
    FreeCorrect(r.heap, r.ptr, b);
    CanonicalUnique(Free(r.heap, r.ptr).blocks, s.blocks, s.lo, s.hi);
  }

  datatype Call =
    | MallocCall(len: nat, limit: nat)
    | FreeCall(a: nat)
    | ReallocCall(ptr: nat, size: nat, limit: nat)
    | WriteCall(ptr: nat, i: nat, v: Byte)  // the client stores a byte in its own block

  function Apply(s: HeapState, c: Call): (t: HeapState)
    requires |s.blocks| > 0
    ensures |t.blocks| > 0
  {
    hide Malloc, Free, Realloc;
    match c
    case MallocCall(len, limit) => Malloc(s, len, limit).heap
    case FreeCall(a) => Free(s, a)
    case ReallocCall(ptr, size, limit) => Realloc(s, ptr, size, limit).heap
    case WriteCall(_, _, _) => s
  }

  /** Every call keeps the invariant, also on stale or foreign pointers. */
  lemma ApplyKeepsInv(s: HeapState, c: Call)
    requires Inv(s) && s.lo % 4 == 0
    ensures Inv(Apply(s, c)) && Apply(s, c).lo == s.lo && s.hi <= Apply(s, c).hi
  {
    match c
    case MallocCall(len, limit) =>
      var _ := MallocCorrect(s, len, limit);
    case FreeCall(a) =>
      FreeKeepsInv(s, a);
    case ReallocCall(ptr, size, limit) =>
      var k := FirstAt(s.blocks, ptr);
      if size == 0 {
        FreeKeepsInv(s, ptr);
      } else if ptr == 0 || k == |s.blocks| {
        var _ := MallocCorrect(s, size, limit);
      } else if !s.blocks[k].Free() {
        var _ := ReallocCorrect(s, ptr, size, limit, s.blocks[k]);
      } else if size <= s.blocks[k].size {
        SetUsedTiles(s.blocks, s.lo, s.hi, k, size);
      } else {
        var _ := MallocCorrect(s, size, limit);
        FreeKeepsInv(Malloc(s, size, limit).heap, ptr);
      }
    case WriteCall(_, _, _) =>
  }

  function Run(s: HeapState, calls: seq<Call>): HeapState
    requires |s.blocks| > 0
    decreases |calls|
  {
    if calls == [] then s else Run(Apply(s, calls[0]), calls[1..])
  }

  /** What C asks of the caller: no realloc of a freed block, no store outside
      the caller's own bytes. */
  ghost predicate LegalCall(s: HeapState, c: Call, memory: nat) {
    match c
    case MallocCall(len, limit) => len < TWO_32 && limit <= memory
    case FreeCall(_) => true
    case ReallocCall(ptr, size, limit) =>
      && size < TWO_32 && limit <= memory
      && (size == 0 || forall b :: b in s.blocks && b.Start() == ptr ==> !b.Free())
    case WriteCall(ptr, i, _) =>
      exists b :: b in s.blocks && b.Start() == ptr && i < b.used
  }

  ghost predicate Legal(s: HeapState, calls: seq<Call>, memory: nat)
    requires |s.blocks| > 0
    decreases |calls|
  {
    calls == [] || (LegalCall(s, calls[0], memory) && Legal(Apply(s, calls[0]), calls[1..], memory))
  }

  /** The first of the calls that are left, and the rest. */
  lemma CallStep(s: HeapState, calls: seq<Call>, i: nat, memory: nat)
    requires |s.blocks| > 0 && i < |calls|
    ensures Run(s, calls[i..]) == Run(Apply(s, calls[i]), calls[i + 1..])
    ensures Legal(s, calls[i..], memory) ==>
              LegalCall(s, calls[i], memory) && Legal(Apply(s, calls[i]), calls[i + 1..], memory)
  {
    hide Apply, LegalCall;
    assert calls[i..][0] == calls[i] && calls[i..][1..] == calls[i + 1..];
  }

  lemma NoCalls(s: HeapState, calls: seq<Call>)
    requires |s.blocks| > 0
    ensures calls[0..] == calls && Run(s, calls[|calls|..]) == s
  {
  }

  function Initial(lo: nat, hi: nat): HeapState
    requires lo + HEADER < hi
  {
    HeapState([Block(lo, hi - lo - HEADER, 0)], lo, hi)
  }

  lemma InitialInv(lo: nat, hi: nat)
    requires 0 < lo && lo % 4 == 0 && hi % 4 == 0 && lo + HEADER < hi
    ensures Inv(Initial(lo, hi))
  {
  }

  /** Every heap reachable from the initial one, by any calls at all. */
  lemma {:induction false} RunKeepsInv(s: HeapState, calls: seq<Call>)
    requires Inv(s) && s.lo % 4 == 0
    ensures Inv(Run(s, calls)) && Run(s, calls).lo == s.lo && s.hi <= Run(s, calls).hi
    decreases |calls|
  {
    if calls == [] {
    } else {
      ApplyKeepsInv(s, calls[0]);
      RunKeepsInv(Apply(s, calls[0]), calls[1..]);
    }
  }

  /** Once every live block is freed, whatever happened before, the heap is one
      free block again. */
  lemma AllFreedIsOneBlock(lo: nat, hi: nat, calls: seq<Call>)
    requires 0 < lo && lo % 4 == 0 && hi % 4 == 0 && lo + HEADER < hi
    requires forall b :: b in Run(Initial(lo, hi), calls).blocks ==> b.Free()
    ensures var r := Run(Initial(lo, hi), calls);
            hi <= r.hi && r == Initial(lo, r.hi)
  {
    RunKeepsInv(Initial(lo, hi), calls);
    SingleFree(Run(Initial(lo, hi), calls));
  }
}
