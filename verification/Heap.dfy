/** The user heap: list nodes live in the memory they manage, and every call
    is proved against the list-level model. */
module Heap {
  import opened Arithmetic
  import opened Machine
  import opened BlockList
  import opened HeapModel
  import opened HeaderMemory
  import HeapContents

  const PRE_STARTUP_HEAPSIZE: nat := 4 * PAGESIZE

  ghost function Dirty(bs: seq<Block>): seq<Block> {
    if bs == [] then []
    else Dirty(bs[..|bs| - 1]) + if bs[|bs| - 1].Free() then [] else [bs[|bs| - 1]]
  }

  /** There is one live pointer for each used block. */
  lemma DirtyIsLive(bs: seq<Block>, lo: nat, hi: nat)
    requires Tiles(bs, lo, hi)
    ensures |Dirty(bs)| == |HeapContents.LivePtrs(bs)|
  {
    AllOrdered(bs, lo, hi);
    hide Tiles;
    DirtyCount(bs);
  }

  lemma {:induction false} DirtyCount(bs: seq<Block>)
    requires forall i, j :: 0 <= i < j < |bs| ==> bs[i].End() <= bs[j].addr
    ensures |Dirty(bs)| == |HeapContents.LivePtrs(bs)|
    decreases |bs|
  {
    if bs == [] {
      assert HeapContents.LivePtrs(bs) == {};
    } else {
      var t, b := bs[..|bs| - 1], bs[|bs| - 1];
      DirtyCount(t);
      assert bs == t + [b];
      if b.Free() {
        assert HeapContents.LivePtrs(bs) == HeapContents.LivePtrs(t);
      } else {
        assert b.Start() !in HeapContents.LivePtrs(t);
        assert HeapContents.LivePtrs(bs) == HeapContents.LivePtrs(t) + {b.Start()};
      }
    }
  }

  /** Bytes in use in used blocks, and payload bytes of free blocks. */
  ghost function UsedBytes(bs: seq<Block>): nat {
    if bs == [] then 0 else UsedBytes(bs[..|bs| - 1]) + bs[|bs| - 1].used
  }

  ghost function FreeBytes(bs: seq<Block>): nat {
    if bs == [] then 0
    else FreeBytes(bs[..|bs| - 1]) + if bs[|bs| - 1].Free() then bs[|bs| - 1].size else 0
  }

  class UserHeap {
    const mem: array<Byte>
    var currentBreak: nat
    var heapStart: nat
    var heapEnd: nat
    var notInitialized: bool
    ghost var blocks: seq<Block>

    /** The linked list in memory is `blocks`, and it tiles the heap. */
    ghost predicate Ready()
      reads this, mem
    {
      && !notInitialized
      && mem.Length == VMEM_1_LIMIT
      && 0 < heapStart && heapStart % 4 == 0
      && heapEnd == currentBreak <= mem.Length
      && Tiles(blocks, heapStart, heapEnd)
      && Linked(mem, blocks)
    }

    ghost function State(): HeapState
      reads this
    {
      HeapState(blocks, heapStart, heapEnd)
    }

    /** No payload byte of a used block of `bs` has changed. */
    twostate predicate KeptPayloads(bs: seq<Block>)
      reads this, mem
    {
      forall b, a: nat :: b in bs && !b.Free() && b.Contains(a) && a < mem.Length ==> mem[a] == old(mem[a])
    }

    // ---------------------------------------------------------- list surgery

    /** The stores of merge_free_pair, once both blocks are known to be free. */
    method FusePair(first: nat, second: nat, ghost k: nat)
      requires Ready() && k + 1 < |blocks|
      requires first == blocks[k].addr && second == blocks[k + 1].addr
      requires blocks[k].Free() && blocks[k + 1].Free()
      modifies this`blocks, mem
      ensures Ready() && blocks == FuseAt(old(blocks), k)
      ensures KeptPayloads(old(blocks))
    {
      hide Load, HeaderAt, Apart, Tiles, FuseAt, Linked;
      TilesApart(blocks, heapStart, heapEnd, mem.Length);
      FuseBounds(blocks, heapStart, heapEnd, k);
      HeadBounds(blocks, heapStart, heapEnd);
      FuseTiles(blocks, heapStart, heapEnd, k);
      FuseHeaders(mem, first, second, blocks, k);
      blocks := FuseAt(blocks, k);
    }

    method MergeFreePair(bp: nat, ghost k: nat) returns (np: nat)
      requires Ready()
      requires bp == 0 || (k < |blocks| && bp == blocks[k].addr)
      modifies this`blocks, mem
      ensures Ready() && KeptPayloads(old(blocks))
      ensures bp == 0 ==> np == 0 && blocks == old(blocks)
      ensures bp != 0 ==>
                if k + 1 == |old(blocks)| then np == 0 && blocks == old(blocks)
                else if old(blocks)[k].Free() && old(blocks)[k + 1].Free() then
                  np == bp && blocks == FuseAt(old(blocks), k)
                else np == old(blocks)[k + 1].addr && blocks == old(blocks)
    {
      hide Load, HeaderAt, Tiles, FuseAt;
      var first := bp;
      if first == 0 {
        return 0;
      }
      HeadBounds(blocks, heapStart, heapEnd);
      var second := HeaderAt(mem, first).next;
      if second == 0 {
        return 0;
      }
      if HeaderAt(mem, first).used != 0 {
        return second;
      }
      if HeaderAt(mem, second).used != 0 {
        return second;
      }
      FusePair(first, second, k);
      return first;
    }

    method SetUsedAt(bp: nat, used: nat, ghost k: nat)
      requires Ready() && k < |blocks| && bp == blocks[k].addr && used <= blocks[k].size
      modifies this`blocks, mem
      ensures Ready() && blocks == SetUsed(old(blocks), k, used)
      ensures KeptPayloads(old(blocks))
    {
      hide Load, HeaderAt, Tiles, Apart, SetUsed, NextOf, PreviousOf;
      TilesApart(blocks, heapStart, heapEnd, mem.Length);
      FuseBounds(blocks, heapStart, heapEnd, k);
      PutUsed(mem, bp, used, blocks, k);
      UsedLinked(mem, blocks, k, used);
      SetUsedTiles(blocks, heapStart, heapEnd, k, used);
      blocks := SetUsed(blocks, k, used);
    }

    /** The stores of split_free_block, once the split is worth while. */
    method SplitOff(bp: nat, len: nat, ghost k: nat)
      requires Ready() && k < |blocks| && bp == blocks[k].addr && blocks[k].Free()
      requires 0 < len && len % 4 == 0 && len + MINBLOCK <= blocks[k].size
      modifies this`blocks, mem
      ensures Ready() && blocks == SplitAt(old(blocks), k, len)
      ensures KeptPayloads(old(blocks))
    {
      hide Load, HeaderAt, Tiles, Apart, SplitAt, Linked;
      FuseBounds(blocks, heapStart, heapEnd, k);
      HeadBounds(blocks, heapStart, heapEnd);
      SplitTiles(blocks, heapStart, heapEnd, k, len);
      ghost var ss := SplitAt(blocks, k, len);
      TilesApart(ss, heapStart, heapEnd, mem.Length);
      SplitHeaders(mem, bp, len, blocks, k);
      blocks := ss;
    }

    method SplitFreeBlock(bp: nat, len: nat, ghost k: nat)
      requires Ready() && k < |blocks| && bp == blocks[k].addr
      requires 0 < len && len + HEADER + MINBLOCK <= TWO_32
      modifies this`blocks, mem
      ensures Ready() && KeptPayloads(old(blocks))
      ensures blocks == if old(blocks)[k].Free() && WordRound(len) <= old(blocks)[k].size
                        then SplitAt(old(blocks), k, WordRound(len)) else old(blocks)
    {
      hide Load, HeaderAt, Tiles;
      var rounded := WordRound(len);
      if HeaderAt(mem, bp).used != 0 {
        return;
      }
      if HeaderAt(mem, bp).size < rounded {
        return;
      }
      if HeaderAt(mem, bp).size < rounded + MINBLOCK {
        return;
      }
      SplitOff(bp, rounded, k);
    }

    method GarbageCollect()
      requires Ready()
      modifies this`blocks, mem
      ensures Ready() && blocks == Coalesce(old(blocks)) && SameUsed(old(blocks), blocks)
      ensures KeptPayloads(old(blocks))
    {
      hide Load, HeaderAt, Linked, FuseAt, Swept, Coalesce;
      var bp := heapStart;
      ghost var k := 0;
      SweptEnds(blocks);
      while bp != 0
        invariant Ready() && 0 <= k <= |blocks|
        invariant bp == if k < |blocks| then blocks[k].addr else 0
        invariant bp == 0 ==> k == |blocks|
        invariant Swept(blocks, k) == Coalesce(old(blocks))
        invariant SameUsed(old(blocks), blocks)
        invariant KeptPayloads(old(blocks))
        decreases |blocks| - k
      {
        HeadBounds(blocks, heapStart, heapEnd);
        SweptStep(blocks, heapStart, heapEnd, k);
        var np := MergeFreePair(bp, k);
        if np != bp {
          k := k + 1;
        }
        bp := np;
      }
      SweptEnds(blocks);
    }

    // ------------------------------------------------------------ the heap check

    /** None of the warnings of sanity_check is due for the header at `bp`. */
    ghost predicate Sane(bp: nat)
      reads this, mem
    {
      && 0 < bp && bp + HEADER <= mem.Length
      && (heapStart == heapEnd ||
          var h := HeaderAt(mem, bp);
          && heapStart <= bp < heapEnd
          && h.magic1 == h.magic2 == MAGIC
          && h.used <= h.size
          && (h.next == 0 || bp + HEADER + h.size == h.next))
    }

    /** What the words of a header without a warning are. */
    lemma SaneWords(bp: nat)
      requires 0 < bp && bp + 24 <= mem.Length && heapStart != heapEnd
      ensures Sane(bp) <==>
              && heapStart <= bp < heapEnd
              && Load(mem, bp) == 0xfeed_dad && Load(mem, bp + 20) == 0xfeed_dad
              && Load(mem, bp + 8) <= Load(mem, bp + 4)
              && (Load(mem, bp + 12) == 0 || Load(mem, bp + 12) == bp + 24 + Load(mem, bp + 4))
    {
      HeaderWords(mem, bp);
      hide Load, HeaderAt;
    }

    /** sanity_check: false stands for any of its warnings. On a list in order
        it never warns. */
    method SanityCheck(bp: nat) returns (ok: bool)
      requires bp == 0 || bp + HEADER <= mem.Length
      ensures ok <==> Sane(bp)
      ensures Ready() && (exists i :: 0 <= i < |blocks| && bp == blocks[i].addr) ==> ok
    {
      hide Load, HeaderAt, Tiles;
      if Ready() && exists i :: 0 <= i < |blocks| && bp == blocks[i].addr {
        ghost var i :| 0 <= i < |blocks| && bp == blocks[i].addr;
        HeadBounds(blocks, heapStart, heapEnd);
        FuseBounds(blocks, heapStart, heapEnd, i);
      }
      if bp == 0 {
        return false;
      }
      if heapStart == heapEnd {
        return true;
      }
      ok := heapStart <= bp < heapEnd;
      var h := HeaderAt(mem, bp);
      if h.magic1 != MAGIC || h.magic2 != MAGIC {
        ok := false;
      }
      if h.used > h.size {
        ok := false;
      }
      if h.next != 0 && bp + HEADER + h.size != h.next {
        ok := false;
      }
    }

    /** The header of a block in the list, as it should be. */
    method ReadHeader(bp: nat, ghost k: nat) returns (h: Header)
      requires Ready() && k < |blocks| && bp == blocks[k].addr
      ensures bp + HEADER <= mem.Length
      ensures h.size == blocks[k].size && h.used == blocks[k].used <= h.size
      ensures h.next == if k + 1 < |blocks| then bp + HEADER + h.size else 0
      ensures h.next == NextOf(blocks, k)
      ensures h.next == 0 ==> k + 1 == |blocks| && bp + HEADER + h.size == heapEnd
    {
      hide Load, HeaderAt, Tiles;
      FuseBounds(blocks, heapStart, heapEnd, k);
      h := HeaderAt(mem, bp);
    }

    /** The tally of helper_check_heap once the heap is there. */
    method CheckReady() returns (ok: bool, count: nat, dirty: nat, free: nat, used: nat, ifrag: nat)
      requires Ready()
      ensures ok
      ensures used + ifrag + free + HEADER * count == heapEnd - heapStart
      ensures count == |blocks| && dirty == |Dirty(blocks)|
      ensures used == UsedBytes(blocks) && free == FreeBytes(blocks)
    {
      hide Load, HeaderAt, Tiles, Linked;
      HeadBounds(blocks, heapStart, heapEnd);
      ok, count, dirty, free, used, ifrag := true, 0, 0, 0, 0, 0;
      var bp := heapStart;
      while bp != 0
        invariant ok && 0 <= count <= |blocks|
        invariant bp == if count < |blocks| then blocks[count].addr else 0
        invariant bp == 0 ==> count == |blocks|
        invariant used + ifrag + free + HEADER * count + heapStart == if bp == 0 then heapEnd else bp
        invariant dirty == |Dirty(blocks[..count])|
        invariant used == UsedBytes(blocks[..count]) && free == FreeBytes(blocks[..count])
        decreases |blocks| - count
      {
        var h := ReadHeader(bp, count);
        ok := SanityCheck(bp);
        assert blocks[..count + 1][..count] == blocks[..count];
        count := count + 1;
        if h.used != 0 {
          dirty := dirty + 1;
          used := used + h.used;
          ifrag := ifrag + (h.size - h.used);
        } else {
          free := free + h.size;
        }
        bp := h.next;
      }
      assert blocks[..count] == blocks;
    }

    // ------------------------------------------------------------------- free

    method FreeReady(addr: nat)
      requires Ready()
      modifies this`blocks, mem
      ensures Ready() && State() == HeapModel.Free(old(State()), addr)
      ensures KeptPayloads(blocks)
    {
      hide Load, HeaderAt, Linked, Tiles, Coalesce;
      if addr == 0 {
        return;
      }
      HeadBounds(blocks, heapStart, heapEnd);
      var bp, used := heapStart, 0;
      ghost var k := 0;
      while bp != 0
        invariant 0 <= k <= |blocks|
        invariant bp == if k < |blocks| then blocks[k].addr else 0
        invariant bp == 0 ==> k == |blocks|
        invariant forall i :: 0 <= i < k ==> !blocks[i].Contains(addr)
        modifies {}
        decreases |blocks| - k
      {
        var h := ReadHeader(bp, k);
        var ok := SanityCheck(bp);
        if bp + HEADER <= addr < bp + HEADER + h.size {
          used := h.used;
          break;
        }
        bp := h.next;
        k := k + 1;
      }
      assert k == FirstContaining(blocks, addr);
      if bp == 0 || used == 0 {
        return;
      }
      SetUsedAt(bp, 0, k);
      GarbageCollect();
      assert forall b :: b in SetUsed(old(blocks), k, 0) && !b.Free() ==> b in old(blocks);
    }

    // ---------------------------------------------------- the break and growth

    /** The kernel's answer: it grants pages below `limit`. */
    method SysBrk(pageaddr: nat, limit: nat) returns (status: int)
      ensures status == if pageaddr <= limit then 0 else -1
    {
      status := if pageaddr <= limit then 0 else -1;
    }

    method BrkUnlocked(addr: nat, limit: nat) returns (rc: int)
      modifies this`currentBreak
      ensures if BrkGranted(old(currentBreak), RoundUp8(addr), limit)
              then rc == 0 && currentBreak == RoundUp8(addr)
              else rc == -1 && currentBreak == old(currentBreak)
      ensures rc == 0 <==> UpToPage(RoundUp8(addr)) == UpToPage(old(currentBreak)) || UpToPage(RoundUp8(addr)) <= limit
    {
      var rounded := RoundUp8(addr);
      var pageaddr := UpToPage(rounded);
      if pageaddr != UpToPage(currentBreak) {
        var status := SysBrk(pageaddr, limit);
        if status != 0 {
          return -1;
        }
      }
      currentBreak := rounded;
      return 0;
    }

    method GrowHeap(len: nat, limit: nat) returns (bp: nat)
      requires Ready() && limit <= mem.Length
      modifies this`heapEnd, this`currentBreak, mem
      ensures Linked(mem, blocks) && heapEnd == currentBreak <= mem.Length
      ensures KeptPayloads(blocks)
      ensures var end := GrowEnd(old(heapEnd), len);
              if BrkGranted(old(heapEnd), end, limit)
              then bp == old(heapEnd) && heapEnd == end
                   && bp + HEADER <= heapEnd
                   && HeaderAt(mem, bp) == Header(MAGIC, end - bp - HEADER, 0, 0, 0, MAGIC)
              else bp == 0 && heapEnd == old(heapEnd)
    {
      hide Load, HeaderAt, Tiles, Apart, GrowEnd, UpToPage, RoundUp8, BrkGranted;
      var req := GrowEnd(heapEnd, len);
      GrowBound(heapEnd, len, limit, mem.Length);
      bp := 0;
      var rc := BrkUnlocked(req, limit);
      if rc != 0 {
        return;
      }
      var newEnd := currentBreak;
      if newEnd < req {
        return;
      }
      bp := heapEnd;
      GrownApart(blocks, heapStart, heapEnd, newEnd, mem.Length);
      ghost var more := blocks + [Block(heapEnd, newEnd - heapEnd - HEADER, 0)];
      assert forall i :: 0 <= i < |blocks| ==> more[i] == blocks[i];
      PutFreeHeader(mem, bp, newEnd - heapEnd - HEADER, more, |blocks|);
      heapEnd := newEnd;
    }

    /** malloc hangs the grown block behind the last one. */
    method LinkGrown(last: nat, bp: nat)
      requires !notInitialized && mem.Length == VMEM_1_LIMIT && 0 < heapStart && heapStart % 4 == 0
      requires Tiles(blocks, heapStart, bp) && Linked(mem, blocks)
      requires bp % 4 == 0 && bp + HEADER < heapEnd == currentBreak <= mem.Length && heapEnd % 4 == 0
      requires last == blocks[|blocks| - 1].addr
      requires HeaderAt(mem, bp) == Header(MAGIC, heapEnd - bp - HEADER, 0, 0, 0, MAGIC)
      modifies this`blocks, mem
      ensures Ready() && blocks == old(blocks) + [Block(bp, heapEnd - bp - HEADER, 0)]
      ensures KeptPayloads(old(blocks))
    {
      hide Load, HeaderAt, Tiles, Apart, Linked;
      HeadBounds(blocks, heapStart, bp);
      ghost var more := Block(bp, heapEnd - bp - HEADER, 0);
      AppendTiles(blocks, heapStart, bp, more);
      TilesApart(blocks + [more], heapStart, heapEnd, mem.Length);
      AppendHeaders(mem, last, bp, blocks, more);
      blocks := blocks + [more];
    }

    /** The growth half of malloc: `last->next = bp` and the merge. */
    method Extend(last: nat, need: nat, limit: nat) returns (bp: nat, ghost k: nat)
      requires Ready() && limit <= mem.Length && last == blocks[|blocks| - 1].addr
      requires 0 < need && need % 4 == 0
      modifies this`blocks, this`heapEnd, this`currentBreak, mem
      ensures Ready() && KeptPayloads(old(blocks))
      ensures var end := GrowEnd(old(heapEnd), need);
              if BrkGranted(old(heapEnd), end, limit)
              then heapEnd == end && blocks == Grown(old(blocks), old(heapEnd), end)
                   && k == |blocks| - 1 && bp == blocks[k].addr && bp != 0
              else bp == 0 && State() == old(State())
    {
      hide Load, HeaderAt, Tiles, Apart, Linked, GrowEnd, UpToPage, BrkGranted;
      GrowBound(heapEnd, need, limit, mem.Length);
      HeadBounds(blocks, heapStart, heapEnd);
      AddrAligned(blocks, heapStart, heapEnd, |blocks| - 1);
      FuseBounds(blocks, heapStart, heapEnd, |blocks| - 1);
      bp := GrowHeap(need, limit);
      if bp == 0 {
        return 0, 0;
      }
      LinkGrown(last, bp);
      bp := MergeFreePair(last, |blocks| - 2);
      k := |blocks| - 1;
    }

    // ---------------------------------------------------------------- malloc

    method TakeBlock(bp: nat, need: nat, ghost k: nat) returns (p: nat)
      requires Ready() && k < |blocks| && bp == blocks[k].addr && blocks[k].Free()
      requires 0 < need <= blocks[k].size && need % 4 == 0
      modifies this`blocks, mem
      ensures Ready() && blocks == Take(old(blocks), k, need) && p == bp + HEADER
      ensures KeptPayloads(old(blocks))
    {
      hide Load, HeaderAt, Tiles, Linked, SplitAt, SetUsed;
      FuseBounds(blocks, heapStart, heapEnd, k);
      SplitTiles(blocks, heapStart, heapEnd, k, need);
      SplitFreeBlock(bp, need, k);
      SetUsedAt(bp, need, k);
      p := bp + HEADER;
    }

    /** The scan of malloc: the first free block that fits, and the last block
        it looked at. */
    method ScanFit(need: nat) returns (bp: nat, last: nat, ghost k: nat)
      requires Ready()
      ensures k == FirstFit(blocks, need)
      ensures var i := FirstFit(blocks, need); bp == if i < |blocks| then blocks[i].addr else 0
      ensures bp == 0 ==> k == |blocks| && last == blocks[|blocks| - 1].addr
    {
      hide Load, HeaderAt, Linked, Tiles;
      HeadBounds(blocks, heapStart, heapEnd);
      bp, last, k := heapStart, 0, 0;
      while bp != 0
        invariant 0 <= k <= |blocks|
        invariant bp == if k < |blocks| then blocks[k].addr else 0
        invariant bp == 0 ==> k == |blocks|
        invariant last == if k > 0 then blocks[k - 1].addr else 0
        invariant forall i :: 0 <= i < k ==> !Fits(blocks[i], need)
        decreases |blocks| - k
      {
        var h := ReadHeader(bp, k);
        var ok := SanityCheck(bp);
        if h.used == 0 && need <= h.size {
          break;
        }
        last := bp;
        bp := h.next;
        k := k + 1;
      }
    }

    method MallocReady(len: nat, limit: nat) returns (p: nat)
      requires Ready() && limit <= mem.Length
      modifies this`blocks, this`heapEnd, this`currentBreak, mem
      ensures Ready() && Outcome(State(), p) == HeapModel.Malloc(old(State()), len, limit)
      ensures KeptPayloads(old(blocks))
    {
      hide Load, HeaderAt, Linked, Tiles, SplitAt, SetUsed, GrowEnd, UpToPage, BrkGranted, Take,
           Grown, FirstFit, NextOf;
      if TWO_31 <= len {
        return 0;
      }
      var need := WordRound(len + 4);
      var bp, last, k := ScanFit(need);
      if bp != 0 {
        p := TakeBlock(bp, need, k);
        return p;
      }
      GrownKeepsUsed(blocks, heapStart, heapEnd, need);
      bp, k := Extend(last, need, limit);
      if bp == 0 {
        return 0;
      }
      var h := ReadHeader(bp, k);
      if h.used != 0 || h.size < need {
        return 0;
      }
      p := TakeBlock(bp, need, k);
    }

    // --------------------------------------------------------------- realloc

    method AbsorbNext(bp: nat, size: nat, ghost k: nat)
      requires Ready() && CanAbsorbAt(k, size) && bp == blocks[k].addr
      modifies this`blocks, mem
      ensures Ready() && blocks == Absorb(old(blocks), k, size)
      ensures KeptPayloads(old(blocks))
    {
      hide Load, HeaderAt, Tiles, Apart, Linked;
      FuseBounds(blocks, heapStart, heapEnd, k);
      HeadBounds(blocks, heapStart, heapEnd);
      TilesApart(blocks, heapStart, heapEnd, mem.Length);
      AbsorbTiles(blocks, heapStart, heapEnd, k, size);
      AbsorbHeaders(mem, bp, size, blocks, k);
      blocks := Absorb(blocks, k, size);
    }

    ghost predicate CanAbsorbAt(k: nat, size: nat)
      reads this
    {
      k < |blocks| && 0 < size && CanAbsorb(blocks, k, size)
    }

    method ScanPtr(ptr: nat) returns (bp: nat, ghost k: nat)
      requires Ready()
      ensures k == FirstAt(blocks, ptr)
      ensures var i := FirstAt(blocks, ptr); bp == if i < |blocks| then blocks[i].addr else 0
      ensures bp == 0 ==> k == |blocks|
    {
      hide Load, HeaderAt, Linked, Tiles;
      HeadBounds(blocks, heapStart, heapEnd);
      bp, k := heapStart, 0;
      while bp != 0
        invariant 0 <= k <= |blocks|
        invariant bp == if k < |blocks| then blocks[k].addr else 0
        invariant bp == 0 ==> k == |blocks|
        invariant forall i :: 0 <= i < k ==> blocks[i].Start() != ptr
        decreases |blocks| - k
      {
        var h := ReadHeader(bp, k);
        var ok := SanityCheck(bp);
        if bp + HEADER == ptr {
          break;
        }
        bp := h.next;
        k := k + 1;
      }
    }

    /** Payload bytes of blocks that are used before and after are unchanged. */
    twostate predicate KeptShared()
      reads this, mem
    {
      forall b, a: nat :: b in old(blocks) && b in blocks && !b.Free() && b.Contains(a) && a < mem.Length ==>
        mem[a] == old(mem[a])
    }

    ghost predicate Holds(p: nat, bytes: seq<Byte>)
      reads this, mem
    {
      p + |bytes| <= mem.Length && mem[p..p + |bytes|] == bytes
    }

    ghost function IndexOf(b: Block): (i: nat)
      requires b in blocks
      reads this
      ensures i < |blocks| && blocks[i] == b
    {
      var i :| 0 <= i < |blocks| && blocks[i] == b; i
    }

    /** memcpy from the payload of `b` to that of `c`. */
    method CopyPayload(dst: nat, src: nat, n: nat, ghost b: Block, ghost c: Block)
      requires Ready() && b in blocks && c in blocks && b != c
      requires b.Start() == src && n <= b.size && c.Start() == dst && n <= c.size
      modifies mem
      ensures Ready() && src + n <= mem.Length && Holds(dst, old(mem[src..src + n]))
      ensures forall d, a: nat :: d in blocks && d != c && d.Contains(a) && a < mem.Length ==>
                mem[a] == old(mem[a])
    {
      hide Linked, Tiles, Apart;
      TilesApart(blocks, heapStart, heapEnd, mem.Length);
      OthersApart(blocks, heapStart, heapEnd, b);
      OthersApart(blocks, heapStart, heapEnd, c);
      MemcpyPayload(mem, dst, src, n, blocks, IndexOf(c));
    }

    /** The old block goes; the new one, `c`, keeps its bytes. */
    method FreeOld(ptr: nat, ghost b: Block, ghost c: Block, ghost bytes: seq<Byte>)
      requires Ready() && Canonical(blocks)
      requires b in blocks && !b.Free() && ptr == b.Start() && c in blocks && !c.Free() && b != c
      requires |bytes| <= c.size && Holds(c.Start(), bytes)
      modifies this`blocks, mem
      ensures Ready() && State() == HeapModel.Free(old(State()), ptr)
      ensures KeptPayloads(blocks) && Holds(c.Start(), bytes)
    {
      hide Load, HeaderAt, Linked, Tiles, HeapModel.Free;
      FuseBounds(blocks, heapStart, heapEnd, IndexOf(b));
      FuseBounds(blocks, heapStart, heapEnd, IndexOf(c));
      FreeCorrect(State(), ptr, b);
      FreeReady(ptr);
      assert c in blocks;
      assert forall a: nat :: c.Start() <= a < c.End() ==> c.Contains(a);
    }

    method CopyAndFree(rp: nat, ptr: nat, n: nat, ghost b: Block, ghost c: Block)
      requires Ready() && Canonical(blocks)
      requires b in blocks && !b.Free() && ptr == b.Start() && c in blocks && !c.Free() && b != c
      requires rp == c.Start() && n <= b.size && n <= c.size
      modifies this`blocks, mem
      ensures Ready() && State() == HeapModel.Free(old(State()), ptr)
      ensures ptr + n <= mem.Length && Holds(rp, old(mem[ptr..ptr + n]))
      ensures forall d, a: nat ::
                d in blocks && d in old(blocks) && !d.Free() && d != c && d.Contains(a) && a < mem.Length ==>
                mem[a] == old(mem[a])
    {
      hide Linked, Tiles, HeapModel.Free, Holds;
      FuseBounds(blocks, heapStart, heapEnd, IndexOf(b));
      CopyPayload(rp, ptr, n, b, c);
      FreeOld(ptr, b, c, old(mem[ptr..ptr + n]));
    }

    /** The hard way: a new block, the old bytes copied into it, the old block freed. */
    method Move(ptr: nat, bp: nat, size: nat, limit: nat, ghost b: Block) returns (rp: nat)
      requires Ready() && Canonical(blocks) && limit <= mem.Length
      requires b in blocks && !b.Free() && bp == b.addr && ptr == b.Start() && b.size < size
      requires b.used <= b.size && b.End() <= mem.Length
      modifies this`blocks, this`heapEnd, this`currentBreak, mem
      ensures Ready()
      ensures var r := HeapModel.Malloc(old(State()), size, limit);
              && rp == r.ptr && State() == if rp == 0 then r.heap else HeapModel.Free(r.heap, ptr)
      ensures rp != 0 ==> KeptShared() && Holds(rp, old(mem[ptr..ptr + b.used]))
      ensures rp == 0 ==> KeptPayloads(old(blocks))
    {
      hide Linked, Tiles, HeapModel.Malloc, HeapModel.Free, Holds;
      ghost var c := MallocCorrect(State(), size, limit);
      rp := MallocReady(size, limit);
      if rp == 0 {
        return;
      }
      var h := ReadHeader(bp, IndexOf(b));
      assert mem[ptr..ptr + h.used] == old(mem[ptr..ptr + b.used]) by {
        assert forall a: nat :: ptr <= a < ptr + h.used ==> b.Contains(a);
      }
      FuseBounds(blocks, heapStart, heapEnd, IndexOf(c));
      CopyAndFree(rp, ptr, h.used, b, c);
    }

    ghost predicate NotStale(ptr: nat)
      requires Valid()
      reads this, mem
    {
      forall b :: b in Base().blocks && b.Start() == ptr ==> !b.Free()
    }

    /** realloc once the block of `ptr` is found. */
    method Resize(ptr: nat, bp: nat, size: nat, limit: nat, ghost k: nat) returns (p: nat)
      requires Ready() && Canonical(blocks) && limit <= mem.Length && size > 0
      requires k < |blocks| && bp == blocks[k].addr && !blocks[k].Free() && blocks[k].Start() == ptr
      requires k == FirstAt(blocks, ptr) && 0 < ptr && ptr + blocks[k].used <= mem.Length
      modifies this`blocks, this`heapEnd, this`currentBreak, mem
      ensures Ready() && Outcome(State(), p) == HeapModel.Realloc(old(State()), ptr, size, limit)
      ensures p != 0 ==> KeptShared()
      ensures p == 0 ==> KeptPayloads(old(blocks))
      ensures p != 0 ==> Holds(p, old(mem[ptr..ptr + blocks[k].used]))
    {
      hide Load, HeaderAt, Linked, Tiles, HeapModel.Malloc, HeapModel.Free, SetUsed, Absorb;
      FuseBounds(blocks, heapStart, heapEnd, k);
      ghost var b := blocks[k];
      assert b in blocks && forall a: nat :: ptr <= a < ptr + b.used ==> b.Contains(a);
      var h := ReadHeader(bp, k);
      if size <= h.size {
        SetUsedAt(bp, size, k);
        assert Holds(ptr, old(mem[ptr..ptr + b.used]));
        return ptr;
      }
      var np := h.next;
      if np != 0 {
        var nh := ReadHeader(np, k + 1);
        if nh.used == 0 && size <= h.size + nh.size + HEADER {
          AbsorbNext(bp, size, k);
          assert Holds(ptr, old(mem[ptr..ptr + b.used]));
          return ptr;
        }
      }
      assert mem[ptr..ptr + b.used] == old(mem[ptr..ptr + b.used]);
      p := Move(ptr, bp, size, limit, b);
    }

    // --------------------------------------------------- the calls of the library

    constructor (memory: array<Byte>, end: nat)
      requires memory.Length == VMEM_1_LIMIT && 0 < end <= VMEM_1_LIMIT && end % 4 == 0
      ensures Valid() && mem == memory && notInitialized && currentBreak == end
      ensures Contents() == map[]
    {
      mem := memory;
      currentBreak, heapStart, heapEnd := end, 0, 0;
      notInitialized := true;
      blocks := [];
    }

    /** What holds between any two calls. */
    ghost predicate Valid()
      reads this, mem
    {
      if notInitialized then
        && mem.Length == VMEM_1_LIMIT && blocks == [] && heapStart == heapEnd == 0
        && 0 < currentBreak <= mem.Length && currentBreak % 4 == 0
      else
        Ready() && Canonical(blocks)
    }

    /** The live pointers and the bytes they point to. */
    ghost function Contents(): map<nat, seq<Byte>>
      reads this, mem
      requires Valid()
    {
      if notInitialized then map[]
      else
        HeapContents.TilesInMemory(blocks, heapStart, heapEnd, mem.Length);
        HeapContents.Contents(mem[..], blocks)
    }

    /** Four pages above the break, on a double-word boundary. */
    ghost function FirstEnd(): (end: nat)
      reads this
      ensures end % 8 == 0 && currentBreak + 0x8000 <= end < currentBreak + 0x8008
    {
      RoundUp8(currentBreak + PRE_STARTUP_HEAPSIZE)
    }

    /** The state the list-level model starts from: the first call creates the
        initial heap. */
    ghost function Base(): (s: HeapState)
      requires Valid()
      reads this, mem
      ensures |s.blocks| > 0
    {
      if notInitialized then Initial(currentBreak, FirstEnd()) else State()
    }

    /** The kernel grants the first pages of the heap. */
    ghost predicate CanInit(limit: nat)
      reads this, mem
    {
      limit <= mem.Length && (notInitialized ==> UpToPage(FirstEnd()) <= limit)
    }

    /** The stores of init_heap. */
    method PutFirstBlock()
      requires notInitialized && mem.Length == VMEM_1_LIMIT && heapEnd == currentBreak <= mem.Length
      requires 0 < heapStart && heapStart % 4 == 0 && heapEnd % 4 == 0 && heapStart + HEADER < heapEnd
      modifies this`blocks, this`notInitialized, mem
      ensures Ready() && Canonical(blocks) && State() == Initial(heapStart, heapEnd)
    {
      hide Load, HeaderAt, Linked, Tiles, Canonical, Apart;
      ghost var first := Initial(heapStart, heapEnd);
      InitialInv(heapStart, heapEnd);
      TilesApart(first.blocks, heapStart, heapEnd, mem.Length);
      PutFreeHeader(mem, heapStart, heapEnd - heapStart - HEADER, first.blocks, 0);
      SingleLinked(mem, first.blocks[0]);
      notInitialized := false;
      blocks := first.blocks;
    }

    static lemma FirstEndBounds(start: nat, limit: nat, size: nat)
      requires UpToPage(RoundUp8(start + PRE_STARTUP_HEAPSIZE)) <= limit <= size
      ensures var end := RoundUp8(start + PRE_STARTUP_HEAPSIZE);
              end % 4 == 0 && start + HEADER < end <= size && BrkGranted(start, end, limit)
    {
      var end := RoundUp8(start + PRE_STARTUP_HEAPSIZE);
      assert end == 4 * (end / 8 * 2);
    }

    method InitHeap(limit: nat)
      requires Valid() && notInitialized && CanInit(limit)
      modifies this, mem
      ensures Valid() && !notInitialized && State() == old(Base())
    {
      hide BrkGranted, UpToPage, RoundUp8, Linked, Tiles, Canonical;
      FirstEndBounds(currentBreak, limit, mem.Length);
      heapStart := currentBreak;
      var rc := BrkUnlocked(currentBreak + PRE_STARTUP_HEAPSIZE, limit);
      heapEnd := currentBreak;
      PutFirstBlock();
    }

    method EnsureInit(limit: nat)
      requires Valid() && CanInit(limit)
      modifies this, mem
      ensures Valid() && !notInitialized && State() == old(Base()) && Contents() == old(Contents())
    {
      if notInitialized {
        InitHeap(limit);
        assert HeapContents.LivePtrs(blocks) == {};
      }
    }

    lemma InMemoryNow()
      requires Valid() && !notInitialized
      ensures HeapContents.InMemory(blocks, mem.Length)
      ensures Contents() == HeapContents.Contents(mem[..], blocks)
      ensures Contents().Keys == HeapContents.LivePtrs(blocks)
    {
      hide Linked, Tiles, HeapContents.Contents, HeapContents.InMemory;
      HeapContents.TilesInMemory(blocks, heapStart, heapEnd, mem.Length);
      HeapContents.KeysOf(mem[..], blocks);
    }

    /** Live regions lie inside the heap and apart from each other, with room for
        a header between them. */
    lemma LiveDisjoint(p: nat, q: nat)
      requires Valid() && p in Contents() && q in Contents() && p < q
      ensures heapStart + HEADER <= p && p + |Contents()[p]| + HEADER <= q
      ensures q + |Contents()[q]| <= heapEnd
    {
      hide Linked, Tiles, HeapContents.Contents, HeapContents.InMemory;
      InMemoryNow();
      ghost var b, c := HeapContents.LiveAt(blocks, p), HeapContents.LiveAt(blocks, q);
      HeapContents.EntryOf(mem[..], blocks, b);
      HeapContents.EntryOf(mem[..], blocks, c);
      OthersApart(blocks, heapStart, heapEnd, b);
      FuseBounds(blocks, heapStart, heapEnd, IndexOf(b));
      FuseBounds(blocks, heapStart, heapEnd, IndexOf(c));
    }

    method MallocLive(len: nat, limit: nat) returns (p: nat)
      requires Valid() && !notInitialized && limit <= mem.Length
      modifies this, mem
      ensures Valid() && !notInitialized
      ensures Outcome(State(), p) == HeapModel.Malloc(old(State()), len, limit)
      ensures p == 0 ==> Contents() == old(Contents())
      ensures p != 0 ==>
                && p !in old(Contents()) && p in Contents() && |Contents()[p]| == Request(len)
                && Contents() - {p} == old(Contents())
    {
      hide Linked, Tiles, HeapModel.Malloc, HeapContents.Contents, HeapContents.InMemory;
      ghost var b := MallocCorrect(State(), len, limit);
      InMemoryNow();
      p := MallocReady(len, limit);
      InMemoryNow();
      if p == 0 {
        HeapContents.ContentsSame(old(mem[..]), mem[..], blocks);
      } else {
        HeapContents.ContentsAdded(old(mem[..]), old(blocks), mem[..], blocks, b);
      }
    }

    /** The block an address lies in is the nearest live region below it, and a
        live pointer lies in its own block only. */
    lemma LiveOrder(addr: nat)
      requires Valid() && !notInitialized
      ensures forall b :: b in blocks && !b.Free() && b.Contains(addr) ==>
                HeapContents.Nearest(Contents(), addr, b.Start())
      ensures addr in Contents() ==> exists b :: b in blocks && !b.Free() && b.Contains(addr) && b.Start() == addr
    {
      hide Linked, Tiles, HeapContents.Contents, HeapContents.InMemory;
      InMemoryNow();
      forall b | b in blocks && !b.Free() && b.Contains(addr)
        ensures HeapContents.Nearest(Contents(), addr, b.Start())
      {
        HeapContents.EntryOf(mem[..], blocks, b);
        OthersApart(blocks, heapStart, heapEnd, b);
        forall r | r in Contents() && r <= addr ensures r <= b.Start() {
          ghost var d := HeapContents.LiveAt(blocks, r);
          assert d == b || d.End() <= b.addr || b.End() <= d.addr;
        }
      }
      if addr in Contents() {
        ghost var b := HeapContents.LiveAt(blocks, addr);
        FuseBounds(blocks, heapStart, heapEnd, IndexOf(b));
        assert b.Contains(addr);
      }
    }

    method FreeLive(addr: nat)
      requires Valid() && !notInitialized
      modifies this, mem
      ensures Valid() && !notInitialized && State() == HeapModel.Free(old(State()), addr)
      ensures forall b :: b in old(blocks) && !b.Free() && b.Contains(addr) ==>
                Contents() == old(Contents()) - {b.Start()}
      ensures (forall b :: b in old(blocks) && b.Contains(addr) ==> b.Free()) ==>
                Contents() == old(Contents())
      ensures HeapContents.Freed(old(Contents()), Contents(), addr)
    {
      hide Linked, Tiles, HeapModel.Free, HeapContents.Contents, HeapContents.InMemory;
      LiveOrder(addr);
      FreeKeepsInv(State(), addr);
      InMemoryNow();
      FreeReady(addr);
      InMemoryNow();
      if b :| b in old(blocks) && !b.Free() && b.Contains(addr) {
        FreeCorrect(old(State()), addr, b);
        HeapContents.ContentsAdded(mem[..], blocks, old(mem[..]), old(blocks), b);
        OthersApart(old(blocks), heapStart, heapEnd, b);
      } else {
        HeapContents.ContentsSame(old(mem[..]), mem[..], blocks);
      }
    }

    method ReallocLive(ptr: nat, size: nat, limit: nat) returns (p: nat)
      requires Valid() && !notInitialized && limit <= mem.Length && 0 < size && 0 < ptr && NotStale(ptr)
      modifies this, mem
      ensures Valid() && !notInitialized
      ensures Outcome(State(), p) == HeapModel.Realloc(old(State()), ptr, size, limit)
      ensures p == 0 ==> Contents() == old(Contents())
      ensures p != 0 ==>
                && ptr in old(Contents()) && p in Contents()
                && Contents() - {p} == old(Contents()) - {ptr}
                && size <= |Contents()[p]|
                && HeapContents.Keeps(old(Contents())[ptr], Contents()[p], size)
    {
      hide Linked, Tiles, HeapModel.Realloc, HeapContents.Contents, HeapContents.InMemory;
      InMemoryNow();
      HeadBounds(blocks, heapStart, heapEnd);
      var bp, k := ScanPtr(ptr);
      if bp == 0 {
        ReallocNotFound(State(), ptr, size, limit);
        return 0;
      }
      ghost var b := blocks[k];
      assert b in blocks;
      FuseBounds(blocks, heapStart, heapEnd, k);
      ghost var c := ReallocCorrect(State(), ptr, size, limit, b);
      p := Resize(ptr, bp, size, limit, k);
      InMemoryNow();
      if p == 0 {
        HeapContents.ContentsSame(old(mem[..]), mem[..], blocks);
      } else {
        HeapContents.ContentsMoved(old(mem[..]), old(blocks), mem[..], blocks, b, c, size);
      }
    }

    method WriteLive(ptr: nat, i: nat, v: Byte)
      requires Valid() && !notInitialized && ptr in Contents() && i < |Contents()[ptr]|
      modifies mem
      ensures Valid() && State() == old(State())
      ensures Contents() == old(Contents())[ptr := HeapContents.Patch(old(Contents())[ptr], i, v)]
    {
      hide Linked, Tiles, HeapContents.Contents, HeapContents.InMemory;
      InMemoryNow();
      ghost var b := HeapContents.LiveAt(blocks, ptr);
      HeapContents.EntryOf(mem[..], blocks, b);
      TilesApart(blocks, heapStart, heapEnd, mem.Length);
      OthersApart(blocks, heapStart, heapEnd, b);
      FuseBounds(blocks, heapStart, heapEnd, IndexOf(b));
      PutByte(mem, ptr + i, v, blocks, IndexOf(b));
      InMemoryNow();
      HeapContents.ContentsWritten(old(mem[..]), mem[..], blocks, b, i, v);
    }

    /** helper_check_heap: the heap is created if need be, then checked. */
    method CheckHeap(limit: nat) returns (ok: bool, count: nat, dirty: nat, free: nat, used: nat, ifrag: nat)
      requires Valid() && CanInit(limit)
      modifies this, mem
      ensures Valid() && !notInitialized && State() == old(Base()) && Contents() == old(Contents())
      ensures ok && dirty == |Contents()|
      ensures used + ifrag + free + HEADER * count == heapEnd - heapStart
      ensures count == |blocks| && dirty == |Dirty(blocks)|
      ensures used == UsedBytes(blocks) && free == FreeBytes(blocks)
    {
      hide Linked, Tiles, HeapContents.Contents, HeapContents.InMemory, Dirty, UsedBytes, FreeBytes;
      EnsureInit(limit);
      ok, count, dirty, free, used, ifrag := CheckReady();
      DirtyIsLive(blocks, heapStart, heapEnd);
      InMemoryNow();
      assert |Contents()| == |Contents().Keys|;
    }

    method Malloc(len: nat, limit: nat) returns (p: nat)
      requires Valid() && CanInit(limit)
      modifies this, mem
      ensures Valid() && notInitialized == (old(notInitialized) && TWO_31 <= len)
      ensures notInitialized ==> currentBreak == old(currentBreak)
      ensures Outcome(Base(), p) == HeapModel.Malloc(old(Base()), len, limit)
      ensures if p == 0 then Contents() == old(Contents())
              else HeapContents.Added(old(Contents()), Contents(), p, Request(len))
    {
      if TWO_31 <= len {
        return 0;
      }
      EnsureInit(limit);
      p := MallocLive(len, limit);
    }

    /** The used block that `a` lies in goes; no other byte of a client changes. */
    twostate predicate FreedAt(a: nat)
      requires old(Valid()) && Valid()
      reads this, mem
    {
      && HeapContents.Freed(old(Contents()), Contents(), a)
      && (forall b :: b in old(Base().blocks) && !b.Free() && b.Contains(a) ==>
            Contents() == old(Contents()) - {b.Start()})
      && ((forall b :: b in old(Base().blocks) && b.Contains(a) ==> b.Free()) ==>
            Contents() == old(Contents()))
    }

    method Free(addr: nat, limit: nat)
      requires Valid() && CanInit(limit)
      modifies this, mem
      ensures Valid() && notInitialized == (old(notInitialized) && addr == 0)
      ensures notInitialized ==> currentBreak == old(currentBreak)
      ensures Base() == HeapModel.Free(old(Base()), addr)
      ensures FreedAt(addr)
      ensures addr == 0 ==> Contents() == old(Contents())
    {
      if addr == 0 {
        ZeroNotLive();
        return;
      }
      EnsureInit(limit);
      FreeLive(addr);
    }

    /** NULL is neither a live pointer nor inside a block. */
    lemma ZeroNotLive()
      requires Valid()
      ensures 0 !in Contents() && forall b :: b in Base().blocks ==> !b.Contains(0)
    {
      if !notInitialized {
        InMemoryNow();
      }
    }

    method Realloc(ptr: nat, size: nat, limit: nat) returns (p: nat)
      requires Valid() && CanInit(limit) && (size == 0 || NotStale(ptr))
      modifies this, mem
      ensures Valid() && (notInitialized ==> old(notInitialized))
      ensures notInitialized ==> currentBreak == old(currentBreak)
      ensures Outcome(Base(), p) == HeapModel.Realloc(old(Base()), ptr, size, limit)
      ensures size == 0 ==> p == 0 && FreedAt(ptr)
      ensures size != 0 && p == 0 ==> Contents() == old(Contents())
      ensures size != 0 && p != 0 ==>
                if ptr == 0 then HeapContents.Added(old(Contents()), Contents(), p, Request(size))
                else HeapContents.Moved(old(Contents()), Contents(), ptr, p, size)
      ensures size != 0 && ptr in old(Contents()) ==>
                && (p == ptr <==> old(RoomAt(Base(), ptr, size)))
                && (p == ptr ==> heapEnd == old(heapEnd) && |Contents()[p]| == size)
                && (p == 0 <==> !old(RoomAt(Base(), ptr, size)) && HeapModel.Malloc(old(Base()), size, limit).ptr == 0)
    {
      hide Linked, HeapModel.Malloc, HeapModel.Free, HeapModel.Realloc, HeapContents.Contents;
      if size == 0 {
        ReallocZero(Base(), ptr, limit);
        Free(ptr, limit);
        return 0;
      }
      if ptr == 0 {
        ZeroNotLive();
        ReallocNull(Base(), size, limit);
        p := Malloc(size, limit);
        return;
      }
      EnsureInit(limit);
      ghost var before := State();
      InMemoryNow();
      p := ReallocLive(ptr, size, limit);
      InMemoryNow();
      if ptr in old(Contents()) {
        ghost var b :| b in before.blocks && b.used != 0 && b.addr + 24 == ptr;
        ghost var d := ReallocWhere(before, ptr, size, limit, b);
        if p == ptr {
          HeapContents.EntryOf(mem[..], blocks, d);
        }
      }
    }

    // ------------------------------------------------------------ whole runs

    /** The kernel grants the first pages of the heap at this call. */
    ghost predicate CanInitAt(c: Call)
      reads this, mem
    {
      match c
      case MallocCall(_, limit) => CanInit(limit)
      case ReallocCall(_, _, limit) => CanInit(limit)
      case _ => true
    }

    /** Any legal run of calls and client stores, from the first call of the
        program on: every call is a step of the map from live pointers to bytes,
        and the heap in memory follows the model. */
    method RunCalls(calls: seq<Call>, limit: nat) returns (ps: seq<nat>, ghost maps: seq<map<nat, seq<Byte>>>)
      requires Valid() && CanInit(limit) && Legal(Base(), calls, mem.Length)
      requires forall c :: c in calls ==> CanInitAt(c)
      modifies this, mem
      ensures Valid() && Base() == Run(old(Base()), calls)
      ensures HeapContents.IsTrace(calls, maps, ps)
      ensures maps[0] == old(Contents()) && maps[|calls|] == Contents()
    {
      hide Run, Legal, Apply, LegalCall, Linked, Tiles, HeapContents.Contents, HeapContents.MapStep;
      NoCalls(Base(), calls);
      var i := 0;
      ps, maps := [], [Contents()];
      while i < |calls|
        invariant 0 <= i <= |calls| && Valid() && CanInit(limit)
        invariant forall c :: c in calls ==> CanInitAt(c)
        invariant Legal(Base(), calls[i..], mem.Length)
        invariant Run(old(Base()), calls) == Run(Base(), calls[i..])
        invariant HeapContents.IsTrace(calls[..i], maps, ps)
        invariant maps[0] == old(Contents()) && maps[i] == Contents()
      {
        CallStep(Base(), calls, i, mem.Length);
        var p := Step(calls[i], limit);
        HeapContents.TraceSnoc(calls[..i], maps, ps, calls[i], Contents(), p);
        assert calls[..i] + [calls[i]] == calls[..i + 1];
        ps, maps := ps + [p], maps + [Contents()];
        i := i + 1;
      }
      assert calls[..i] == calls;
      NoCalls(Base(), calls);
    }

    method Step(c: Call, limit: nat) returns (p: nat)
      requires Valid() && CanInit(limit) && LegalCall(Base(), c, mem.Length) && CanInitAt(c)
      modifies this, mem
      ensures Valid() && Base() == Apply(old(Base()), c)
      ensures notInitialized ==> old(notInitialized) && currentBreak == old(currentBreak)
      ensures HeapContents.MapStep(c, old(Contents()), Contents(), p)
    {
      hide Linked, Tiles, HeapModel.Malloc, HeapModel.Free, HeapModel.Realloc, HeapContents.Contents;
      p := 0;
      match c
      case MallocCall(len, l) =>
        p := Malloc(len, l);
      case FreeCall(a) =>
        Free(a, limit);
      case ReallocCall(ptr, size, l) =>
        p := Realloc(ptr, size, l);
      case WriteCall(ptr, k, v) =>
        ghost var b :| b in Base().blocks && b.Start() == ptr && k < b.used;
        InMemoryNow();
        HeapContents.EntryOf(mem[..], blocks, b);
        WriteLive(ptr, k, v);
    }
  }
}
