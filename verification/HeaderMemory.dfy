/** Block headers as six little-endian words inside the heap's own bytes. */
module HeaderMemory {
  import opened Arithmetic
  import opened Machine
  import opened BlockList
  import opened HeapModel

  const MAGIC: nat := 0xfeed_dad

  datatype Header = Header(magic1: nat, size: nat, used: nat, next: nat, previous: nat, magic2: nat)

  function HeaderAt(mem: array<Byte>, a: nat): (h: Header)
    requires a + HEADER <= mem.Length
    reads mem
    ensures h.size < TWO_32 && h.used < TWO_32 && h.next < TWO_32 && h.previous < TWO_32
  {
    Header(Load(mem, a), Load(mem, a + 4), Load(mem, a + 8),
           Load(mem, a + 12), Load(mem, a + 16), Load(mem, a + 20))
  }

  /** The six words of a header, in their order. */
  lemma HeaderWords(mem: array<Byte>, a: nat)
    requires a + 24 <= mem.Length
    ensures var h := HeaderAt(mem, a);
            && h.magic1 == Load(mem, a) && h.size == Load(mem, a + 4) && h.used == Load(mem, a + 8)
            && h.next == Load(mem, a + 12) && h.previous == Load(mem, a + 16) && h.magic2 == Load(mem, a + 20)
  {
    hide Load;
  }

  /** Blocks that lie one after the other below `limit`. */
  ghost predicate Apart(bs: seq<Block>, limit: nat) {
    && (forall i :: 0 <= i < |bs| ==> bs[i].End() <= limit)
    && (forall i, j :: 0 <= i < j < |bs| ==> bs[i].End() <= bs[j].addr)
  }

  lemma TilesApart(bs: seq<Block>, lo: nat, hi: nat, limit: nat)
    requires Tiles(bs, lo, hi) && hi <= limit
    ensures Apart(bs, limit)
  {
    AllOrdered(bs, lo, hi);
  }

  lemma GrownApart(bs: seq<Block>, lo: nat, hi: nat, end: nat, limit: nat)
    requires Tiles(bs, lo, hi) && hi + HEADER <= end <= limit
    ensures Apart(bs + [Block(hi, end - hi - HEADER, 0)], limit)
  {
    AllOrdered(bs, lo, hi);
  }

  /** Only the headers of blocks `m` to `n` may differ: the other headers and
      all payload bytes are as before. */
  twostate predicate OthersKept(mem: array<Byte>, bs: seq<Block>, m: nat, n: nat)
    requires Apart(bs, mem.Length)
    reads mem
  {
    && (forall i :: 0 <= i < |bs| && !(m <= i <= n) ==>
         HeaderAt(mem, bs[i].addr) == old(HeaderAt(mem, bs[i].addr)))
    && (forall b, a: nat :: b in bs && b.Contains(a) ==> mem[a] == old(mem[a]))
  }

  method PutMagic1(mem: array<Byte>, a: nat, w: nat, ghost bs: seq<Block>, ghost k: nat)
    requires Apart(bs, mem.Length) && k < |bs| && a == bs[k].addr && w < TWO_32
    modifies mem
    ensures HeaderAt(mem, a) == old(HeaderAt(mem, a)).(magic1 := w)
    ensures OthersKept(mem, bs, k, k)
  {
    Store(mem, a, w);
  }

  method PutSize(mem: array<Byte>, a: nat, w: nat, ghost bs: seq<Block>, ghost k: nat)
    requires Apart(bs, mem.Length) && k < |bs| && a == bs[k].addr && w < TWO_32
    modifies mem
    ensures HeaderAt(mem, a) == old(HeaderAt(mem, a)).(size := w)
    ensures OthersKept(mem, bs, k, k)
  {
    Store(mem, a + 4, w);
  }

  method PutUsed(mem: array<Byte>, a: nat, w: nat, ghost bs: seq<Block>, ghost k: nat)
    requires Apart(bs, mem.Length) && k < |bs| && a == bs[k].addr && w < TWO_32
    modifies mem
    ensures HeaderAt(mem, a) == old(HeaderAt(mem, a)).(used := w)
    ensures OthersKept(mem, bs, k, k)
  {
    Store(mem, a + 8, w);
  }

  method PutNext(mem: array<Byte>, a: nat, w: nat, ghost bs: seq<Block>, ghost k: nat)
    requires Apart(bs, mem.Length) && k < |bs| && a == bs[k].addr && w < TWO_32
    modifies mem
    ensures HeaderAt(mem, a) == old(HeaderAt(mem, a)).(next := w)
    ensures OthersKept(mem, bs, k, k)
  {
    Store(mem, a + 12, w);
  }

  method PutPrevious(mem: array<Byte>, a: nat, w: nat, ghost bs: seq<Block>, ghost k: nat)
    requires Apart(bs, mem.Length) && k < |bs| && a == bs[k].addr && w < TWO_32
    modifies mem
    ensures HeaderAt(mem, a) == old(HeaderAt(mem, a)).(previous := w)
    ensures OthersKept(mem, bs, k, k)
  {
    Store(mem, a + 16, w);
  }

  method PutMagic2(mem: array<Byte>, a: nat, w: nat, ghost bs: seq<Block>, ghost k: nat)
    requires Apart(bs, mem.Length) && k < |bs| && a == bs[k].addr && w < TWO_32
    modifies mem
    ensures HeaderAt(mem, a) == old(HeaderAt(mem, a)).(magic2 := w)
    ensures OthersKept(mem, bs, k, k)
  {
    Store(mem, a + 20, w);
  }

  ghost function NextOf(bs: seq<Block>, i: nat): nat {
    if i + 1 < |bs| then bs[i + 1].addr else 0
  }

  ghost function PreviousOf(bs: seq<Block>, i: nat): nat {
    if 0 < i <= |bs| then bs[i - 1].addr else 0
  }

  ghost function HeaderFor(bs: seq<Block>, i: nat): Header
    requires i < |bs|
  {
    Header(MAGIC, bs[i].size, bs[i].used, NextOf(bs, i), PreviousOf(bs, i), MAGIC)
  }

  /** The headers in memory describe the list `bs`: magics intact, sizes right,
      `next` and `previous` inverse to each other. */
  ghost predicate Linked(mem: array<Byte>, bs: seq<Block>)
    reads mem
  {
    forall i :: 0 <= i < |bs| ==>
      bs[i].addr + HEADER <= mem.Length && HeaderAt(mem, bs[i].addr) == HeaderFor(bs, i)
  }

  lemma JoinedHeaders(bs: seq<Block>, k: nat, b: Block, i: nat)
    requires k + 1 < |bs| && b.addr == bs[k].addr && i < |Joined(bs, k, b)|
    ensures HeaderFor(Joined(bs, k, b), i) ==
            if i < k then HeaderFor(bs, i)
            else if i == k then HeaderFor(bs, k).(size := b.size, used := b.used, next := NextOf(bs, k + 1))
            else if i == k + 1 then HeaderFor(bs, k + 2).(previous := bs[k].addr)
            else HeaderFor(bs, i + 1)
  {
    JoinedIndex(bs, k, b);
    hide Joined;
  }

  /** Joining block `k` and the next one into `b` needs three header fields of
      block `k` and the back link of the block after both. */
  lemma JoinLinked(mem: array<Byte>, bs: seq<Block>, k: nat, b: Block)
    requires k + 1 < |bs| && b.addr == bs[k].addr
    requires Apart(bs, mem.Length)
    requires forall i :: 0 <= i < |bs| && i != k && i != k + 1 && i != k + 2 ==>
               HeaderAt(mem, bs[i].addr) == HeaderFor(bs, i)
    requires HeaderAt(mem, bs[k].addr) ==
             HeaderFor(bs, k).(size := b.size, used := b.used, next := NextOf(bs, k + 1))
    requires k + 2 < |bs| ==> HeaderAt(mem, bs[k + 2].addr) == HeaderFor(bs, k + 2).(previous := bs[k].addr)
    ensures Linked(mem, Joined(bs, k, b))
  {
    JoinedIndex(bs, k, b);
    hide Load, HeaderAt, Joined, HeaderFor;
    var fs := Joined(bs, k, b);
    forall i | 0 <= i < |fs|
      ensures fs[i].addr + HEADER <= mem.Length && HeaderAt(mem, fs[i].addr) == HeaderFor(fs, i)
    {
      JoinedHeaders(bs, k, b, i);
      assert fs[i].addr == bs[if i <= k then i else i + 1].addr;
    }
  }

  /** All stores of merge_free_pair. */
  method FuseHeaders(mem: array<Byte>, first: nat, second: nat, ghost bs: seq<Block>, ghost k: nat)
    requires Linked(mem, bs) && Apart(bs, mem.Length) && mem.Length < TWO_32
    requires k + 1 < |bs| && first == bs[k].addr && second == bs[k + 1].addr
    requires bs[k].Free() && bs[k].size + bs[k + 1].size + HEADER < TWO_32
    requires forall i :: 0 <= i < |bs| ==> 0 < bs[i].addr
    modifies mem
    ensures Linked(mem, FuseAt(bs, k))
    ensures forall b, a: nat :: b in bs && b.Contains(a) && a < mem.Length ==> mem[a] == old(mem[a])
  {
    hide Load, HeaderAt;
    PutSize(mem, first, HeaderAt(mem, first).size + HeaderAt(mem, second).size + HEADER, bs, k);
    var third := HeaderAt(mem, second).next;
    PutNext(mem, first, third, bs, k);
    if third != 0 {
      PutPrevious(mem, third, first, bs, k + 2);
    }
    JoinLinked(mem, bs, k, Fuse(bs[k], bs[k + 1]));
  }

  /** The stores of realloc when it absorbs the next block. */
  method AbsorbHeaders(mem: array<Byte>, bp: nat, size: nat, ghost bs: seq<Block>, ghost k: nat)
    requires Linked(mem, bs) && Apart(bs, mem.Length) && mem.Length < TWO_32
    requires k + 1 < |bs| && bp == bs[k].addr
    requires size <= bs[k].size + bs[k + 1].size + HEADER < TWO_32
    requires forall i :: 0 <= i < |bs| ==> 0 < bs[i].addr
    modifies mem
    ensures Linked(mem, Absorb(bs, k, size))
    ensures forall b, a: nat :: b in bs && b.Contains(a) && a < mem.Length ==> mem[a] == old(mem[a])
  {
    hide Load, HeaderAt;
    var np := HeaderAt(mem, bp).next;
    PutNext(mem, bp, HeaderAt(mem, np).next, bs, k);
    PutSize(mem, bp, HeaderAt(mem, bp).size + HeaderAt(mem, np).size + HEADER, bs, k);
    PutUsed(mem, bp, size, bs, k);
    var third := HeaderAt(mem, np).next;
    if third != 0 {
      PutPrevious(mem, third, bp, bs, k + 2);
    }
    JoinLinked(mem, bs, k, Block(bs[k].addr, bs[k].size + bs[k + 1].size + HEADER, size));
  }

  lemma UsedHeaders(bs: seq<Block>, k: nat, used: nat, i: nat)
    requires k < |bs| && i < |bs|
    ensures var us := SetUsed(bs, k, used);
            && us[i].addr == bs[i].addr
            && HeaderFor(us, i) == if i == k then HeaderFor(bs, k).(used := used) else HeaderFor(bs, i)
  {
  }

  lemma UsedLinked(mem: array<Byte>, bs: seq<Block>, k: nat, used: nat)
    requires k < |bs| && Apart(bs, mem.Length)
    requires forall i :: 0 <= i < |bs| && i != k ==> HeaderAt(mem, bs[i].addr) == HeaderFor(bs, i)
    requires HeaderAt(mem, bs[k].addr) == HeaderFor(bs, k).(used := used)
    ensures Linked(mem, SetUsed(bs, k, used))
  {
    hide Load, HeaderAt, HeaderFor;
    var us := SetUsed(bs, k, used);
    forall i | 0 <= i < |us|
      ensures us[i].addr + HEADER <= mem.Length && HeaderAt(mem, us[i].addr) == HeaderFor(us, i)
    {
      UsedHeaders(bs, k, used, i);
      if i == k {
        assert HeaderAt(mem, us[i].addr) == HeaderFor(bs, k).(used := used);
      } else {
        assert HeaderAt(mem, us[i].addr) == HeaderFor(bs, i);
      }
    }
  }

  /** The headers of `bs` in the places they have in the split list. */
  ghost predicate SplitPlaces(mem: array<Byte>, bs: seq<Block>, ss: seq<Block>, k: nat)
    requires k < |bs|
    reads mem
  {
    && |ss| == |bs| + 1 && Apart(ss, mem.Length)
    && (forall i :: 0 <= i < |ss| && i < k ==> HeaderAt(mem, ss[i].addr) == HeaderFor(bs, i))
    && (forall i :: 0 <= i < |ss| && k + 2 < i ==> HeaderAt(mem, ss[i].addr) == HeaderFor(bs, i - 1))
  }

  /** What split_free_block stores is what the split list asks for. */
  lemma SplitLinked(mem: array<Byte>, bs: seq<Block>, k: nat, len: nat)
    requires k < |bs| && bs[k].Free() && len + MINBLOCK <= bs[k].size
    requires SplitPlaces(mem, bs, SplitAt(bs, k, len), k)
    requires var ss := SplitAt(bs, k, len);
             && HeaderAt(mem, ss[k].addr) == HeaderFor(bs, k).(size := len, next := ss[k + 1].addr)
             && HeaderAt(mem, ss[k + 1].addr) ==
                Header(MAGIC, bs[k].size - len - HEADER, 0, NextOf(bs, k), bs[k].addr, MAGIC)
             && (k + 2 < |ss| ==> HeaderAt(mem, ss[k + 2].addr) == HeaderFor(bs, k + 1).(previous := ss[k + 1].addr))
    ensures Linked(mem, SplitAt(bs, k, len))
  {
    hide Load, HeaderAt, SplitAt;
    SplitIndex(bs, k, len);
    var ss := SplitAt(bs, k, len);
    forall i | 0 <= i < |ss|
      ensures ss[i].addr + HEADER <= mem.Length && HeaderAt(mem, ss[i].addr) == HeaderFor(ss, i)
    {
      if i < k {
        assert HeaderFor(ss, i) == HeaderFor(bs, i);
      } else if i == k {
        assert PreviousOf(ss, i) == PreviousOf(bs, i);
      } else if i == k + 1 {
        assert NextOf(ss, i) == NextOf(bs, k);
      } else if i == k + 2 {
        assert NextOf(ss, i) == NextOf(bs, k + 1);
      } else {
        assert HeaderFor(ss, i) == HeaderFor(bs, i - 1);
      }
    }
  }

  /** The first five stores of split_free_block, up to `second->previous`. */
  method CarveBlock(mem: array<Byte>, bp: nat, second: nat, len: nat, ghost ss: seq<Block>, ghost k: nat)
    requires Apart(ss, mem.Length) && k + 1 < |ss| && bp == ss[k].addr && second == ss[k + 1].addr
    requires len + HEADER <= HeaderAt(mem, bp).size && second < TWO_32
    modifies mem
    ensures HeaderAt(mem, bp) == old(HeaderAt(mem, bp)).(size := len)
    ensures HeaderAt(mem, second) == old(HeaderAt(mem, second)).(
              magic1 := MAGIC, size := old(HeaderAt(mem, bp)).size - len - HEADER, used := 0, previous := bp)
    ensures OthersKept(mem, ss, k, k + 1)
  {
    hide Load, HeaderAt;
    PutMagic1(mem, second, MAGIC, ss, k + 1);
    PutSize(mem, second, HeaderAt(mem, bp).size - len - HEADER, ss, k + 1);
    PutSize(mem, bp, len, ss, k);
    PutUsed(mem, second, 0, ss, k + 1);
    PutPrevious(mem, second, bp, ss, k + 1);
  }

  /** The rest of them: the new block goes between `bp` and its old successor. */
  method LinkBlock(mem: array<Byte>, bp: nat, second: nat, ghost ss: seq<Block>, ghost k: nat)
    requires Apart(ss, mem.Length) && k + 1 < |ss| && bp == ss[k].addr && second == ss[k + 1].addr
    requires second < TWO_32
    requires HeaderAt(mem, bp).next == if k + 2 < |ss| then ss[k + 2].addr else 0
    requires k + 2 < |ss| ==> 0 < ss[k + 2].addr
    modifies mem
    ensures HeaderAt(mem, bp) == old(HeaderAt(mem, bp)).(next := second)
    ensures HeaderAt(mem, second) == old(HeaderAt(mem, second)).(next := old(HeaderAt(mem, bp)).next, magic2 := MAGIC)
    ensures k + 2 < |ss| ==>
              HeaderAt(mem, ss[k + 2].addr) == old(HeaderAt(mem, ss[k + 2].addr)).(previous := second)
    ensures OthersKept(mem, ss, k, k + 2)
  {
    hide Load, HeaderAt;
    PutNext(mem, second, HeaderAt(mem, bp).next, ss, k + 1);
    PutNext(mem, bp, second, ss, k);
    var third := HeaderAt(mem, second).next;
    if third != 0 {
      PutPrevious(mem, third, second, ss, k + 2);
    }
    PutMagic2(mem, second, MAGIC, ss, k + 1);
  }

  /** All stores of split_free_block. */
  method SplitHeaders(mem: array<Byte>, bp: nat, len: nat, ghost bs: seq<Block>, ghost k: nat)
    requires Linked(mem, bs) && mem.Length < TWO_32
    requires k < |bs| && bp == bs[k].addr && bs[k].Free() && len + MINBLOCK <= bs[k].size
    requires Apart(SplitAt(bs, k, len), mem.Length)
    requires forall i :: 0 <= i < |bs| ==> 0 < bs[i].addr
    modifies mem
    ensures Linked(mem, SplitAt(bs, k, len))
    ensures forall b, a: nat :: b in SplitAt(bs, k, len) && b.Contains(a) && a < mem.Length ==> mem[a] == old(mem[a])
  {
    hide Load, HeaderAt, SplitAt;
    SplitIndex(bs, k, len);
    ghost var ss := SplitAt(bs, k, len);
    var second := bp + HEADER + len;
    CarveBlock(mem, bp, second, len, ss, k);
    LinkBlock(mem, bp, second, ss, k);
    SplitLinked(mem, bs, k, len);
  }

  method Memcpy(mem: array<Byte>, dst: nat, src: nat, n: nat)
    requires dst + n <= mem.Length && src + n <= mem.Length
    requires src + n <= dst || dst + n <= src
    modifies mem
    ensures mem[dst..dst + n] == old(mem[src..src + n])
    ensures forall a :: 0 <= a < mem.Length && !(dst <= a < dst + n) ==> mem[a] == old(mem[a])
  {
    var i := 0;
    while i < n
      invariant 0 <= i <= n
      invariant forall a :: dst <= a < dst + i ==> mem[a] == old(mem[src + (a - dst)])
      invariant forall a :: 0 <= a < mem.Length && !(dst <= a < dst + i) ==> mem[a] == old(mem[a])
    {
      mem[dst + i] := mem[src + i];
      i := i + 1;
    }
  }

  /** A store into the payload of block `k` keeps all headers. */
  method PutByteHeaders(mem: array<Byte>, a: nat, v: Byte, ghost bs: seq<Block>, ghost k: nat)
    requires Apart(bs, mem.Length) && k < |bs| && bs[k].Contains(a)
    modifies mem
    ensures mem[..] == old(mem[..])[a := v]
    ensures forall i :: 0 <= i < |bs| ==> HeaderAt(mem, bs[i].addr) == old(HeaderAt(mem, bs[i].addr))
  {
    mem[a] := v;
    forall j | 0 <= j < |bs| ensures HeaderAt(mem, bs[j].addr) == old(HeaderAt(mem, bs[j].addr)) {
      assert !(bs[j].addr <= a < bs[j].addr + HEADER);
    }
  }

  method PutByte(mem: array<Byte>, a: nat, v: Byte, ghost bs: seq<Block>, ghost k: nat)
    requires Linked(mem, bs) && Apart(bs, mem.Length) && k < |bs| && bs[k].Contains(a)
    modifies mem
    ensures Linked(mem, bs)
    ensures mem[..] == old(mem[..])[a := v]
  {
    hide Load, HeaderAt, HeaderFor;
    PutByteHeaders(mem, a, v, bs, k);
  }

  /** A memcpy into the payload of block `k` keeps all headers. */
  method MemcpyHeaders(mem: array<Byte>, dst: nat, src: nat, n: nat, ghost bs: seq<Block>, ghost k: nat)
    requires Apart(bs, mem.Length) && k < |bs|
    requires bs[k].Start() <= dst && dst + n <= bs[k].End() && src + n <= mem.Length
    requires src + n <= dst || dst + n <= src
    modifies mem
    ensures mem[dst..dst + n] == old(mem[src..src + n])
    ensures forall a :: 0 <= a < mem.Length && !(dst <= a < dst + n) ==> mem[a] == old(mem[a])
    ensures forall i :: 0 <= i < |bs| ==> HeaderAt(mem, bs[i].addr) == old(HeaderAt(mem, bs[i].addr))
  {
    Memcpy(mem, dst, src, n);
    forall j | 0 <= j < |bs| ensures HeaderAt(mem, bs[j].addr) == old(HeaderAt(mem, bs[j].addr)) {
      assert forall a :: bs[j].addr <= a < bs[j].addr + HEADER ==> mem[a] == old(mem[a]);
    }
  }

  method MemcpyPayload(mem: array<Byte>, dst: nat, src: nat, n: nat, ghost bs: seq<Block>, ghost k: nat)
    requires Linked(mem, bs) && Apart(bs, mem.Length) && k < |bs|
    requires bs[k].Start() <= dst && dst + n <= bs[k].End() && src + n <= mem.Length
    requires src + n <= dst || dst + n <= src
    modifies mem
    ensures Linked(mem, bs)
    ensures mem[dst..dst + n] == old(mem[src..src + n])
    ensures forall a :: 0 <= a < mem.Length && !(dst <= a < dst + n) ==> mem[a] == old(mem[a])
  {
    hide Load, HeaderAt, HeaderFor;
    MemcpyHeaders(mem, dst, src, n, bs, k);
  }

  /** Two lists one after the other, joined by the last `next` and the first
      `previous`. */
  lemma AppendLinked(mem: array<Byte>, bs: seq<Block>, more: Block)
    requires |bs| > 0 && Apart(bs + [more], mem.Length)
    requires forall i :: 0 <= i < |bs| ==> bs[i].addr + HEADER <= mem.Length
    requires forall i :: 0 <= i < |bs| - 1 ==> HeaderAt(mem, bs[i].addr) == HeaderFor(bs, i)
    requires HeaderAt(mem, bs[|bs| - 1].addr) == HeaderFor(bs, |bs| - 1).(next := more.addr)
    requires more.addr + HEADER <= mem.Length
    requires HeaderAt(mem, more.addr) == Header(MAGIC, more.size, more.used, 0, bs[|bs| - 1].addr, MAGIC)
    ensures Linked(mem, bs + [more])
  {
    hide Load, HeaderAt;
    var ms := bs + [more];
    forall i | 0 <= i < |ms|
      ensures ms[i].addr + HEADER <= mem.Length && HeaderAt(mem, ms[i].addr) == HeaderFor(ms, i)
    {
      if i < |bs| - 1 {
        assert HeaderFor(ms, i) == HeaderFor(bs, i);
      } else if i == |bs| - 1 {
        assert PreviousOf(ms, i) == PreviousOf(bs, i);
      }
    }
  }

  lemma SingleLinked(mem: array<Byte>, b: Block)
    requires b.addr + HEADER <= mem.Length
    requires HeaderAt(mem, b.addr) == Header(MAGIC, b.size, b.used, 0, 0, MAGIC)
    ensures Linked(mem, [b])
  {
    hide Load, HeaderAt;
  }

  /** The header that init_heap and grow_heap write for a block with nothing
      after it. */
  method PutFreeHeader(mem: array<Byte>, a: nat, size: nat, ghost bs: seq<Block>, ghost k: nat)
    requires Apart(bs, mem.Length) && k < |bs| && a == bs[k].addr && size < TWO_32
    modifies mem
    ensures HeaderAt(mem, a) == Header(MAGIC, size, 0, 0, 0, MAGIC)
    ensures OthersKept(mem, bs, k, k)
  {
    hide Load, HeaderAt;
    PutMagic1(mem, a, MAGIC, bs, k);
    PutSize(mem, a, size, bs, k);
    PutUsed(mem, a, 0, bs, k);
    PutNext(mem, a, 0, bs, k);
    PutPrevious(mem, a, 0, bs, k);
    PutMagic2(mem, a, MAGIC, bs, k);
  }

  /** The stores of malloc that hang a grown block behind the last one. */
  method AppendHeaders(mem: array<Byte>, last: nat, bp: nat, ghost bs: seq<Block>, ghost more: Block)
    requires |bs| > 0 && last == bs[|bs| - 1].addr && bp == more.addr
    requires Linked(mem, bs) && Apart(bs + [more], mem.Length) && mem.Length < TWO_32
    requires bp + HEADER <= mem.Length
    requires HeaderAt(mem, bp) == Header(MAGIC, more.size, more.used, 0, 0, MAGIC)
    modifies mem
    ensures Linked(mem, bs + [more])
    ensures forall b, a: nat :: b in bs + [more] && b.Contains(a) && a < mem.Length ==> mem[a] == old(mem[a])
  {
    hide Load, HeaderAt;
    ghost var ms := bs + [more];
    assert ms[|bs|] == more && forall i :: 0 <= i < |bs| ==> ms[i] == bs[i];
    PutNext(mem, last, bp, ms, |bs| - 1);
    PutPrevious(mem, bp, last, ms, |bs|);
    AppendLinked(mem, bs, more);
  }
}
