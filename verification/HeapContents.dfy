/** The heap as its clients see it: a map from live pointers to byte strings. */
module HeapContents {
  import opened Machine
  import opened BlockList
  import opened HeapModel

  ghost function LivePtrs(bs: seq<Block>): set<nat> {
    set b | b in bs && !b.Free() :: b.Start()
  }

  ghost function LiveAt(bs: seq<Block>, p: nat): (b: Block)
    requires p in LivePtrs(bs)
    ensures b in bs && !b.Free() && b.Start() == p
  {
    var b :| b in bs && !b.Free() && b.Start() == p;
    b
  }

  ghost predicate InMemory(bs: seq<Block>, size: nat) {
    && (forall b :: b in bs ==> b.used <= b.size && b.End() <= size)
    && (forall b, c :: b in bs && c in bs && b.addr == c.addr ==> b == c)
  }

  lemma TilesInMemory(bs: seq<Block>, lo: nat, hi: nat, size: nat)
    requires Tiles(bs, lo, hi) && hi <= size
    ensures InMemory(bs, size)
  {
    AllOrdered(bs, lo, hi);
  }

  ghost function Payload(m: seq<Byte>, b: Block): (bytes: seq<Byte>)
    requires b.Start() + b.used <= |m|
    ensures |bytes| == b.used
  {
    m[b.Start()..b.Start() + b.used]
  }

  ghost function Contents(m: seq<Byte>, bs: seq<Block>): map<nat, seq<Byte>>
    requires InMemory(bs, |m|)
  {
    map p | p in LivePtrs(bs) :: Payload(m, LiveAt(bs, p))
  }

  /** The payloads of the used blocks in both lists are the same in both
      memories. */
  ghost predicate SamePayloads(m: seq<Byte>, n: seq<Byte>, xs: seq<Block>, ys: seq<Block>) {
    && |m| == |n|
    && forall b, a: nat :: b in xs && b in ys && !b.Free() && b.Contains(a) && a < |m| ==> m[a] == n[a]
  }

  lemma SameBytes(m: seq<Byte>, n: seq<Byte>, xs: seq<Block>, ys: seq<Block>, b: Block)
    requires InMemory(xs, |m|) && SamePayloads(m, n, xs, ys) && b in xs && b in ys && !b.Free()
    ensures Payload(m, b) == Payload(n, b)
  {
    assert forall a: nat :: b.Start() <= a < b.Start() + b.used ==> b.Contains(a) && m[a] == n[a];
  }

  /** Each used block is one entry of the map. */
  lemma EntryOf(m: seq<Byte>, bs: seq<Block>, b: Block)
    requires InMemory(bs, |m|) && b in bs && !b.Free()
    ensures b.Start() in LivePtrs(bs) && LiveAt(bs, b.Start()) == b
    ensures b.Start() in Contents(m, bs) && Contents(m, bs)[b.Start()] == Payload(m, b)
  {
    assert b.Start() in LivePtrs(bs);
    assert LiveAt(bs, b.Start()) == b;
    hide Payload;
  }

  lemma KeysOf(m: seq<Byte>, bs: seq<Block>)
    requires InMemory(bs, |m|)
    ensures Contents(m, bs).Keys == LivePtrs(bs)
  {
  }

  /** Used blocks that both lists share have equal entries. */
  lemma SharedEntry(m: seq<Byte>, xs: seq<Block>, n: seq<Byte>, ys: seq<Block>, b: Block)
    requires InMemory(xs, |m|) && InMemory(ys, |n|) && SamePayloads(m, n, xs, ys)
    requires b in xs && b in ys && !b.Free()
    ensures b.Start() in Contents(n, ys) && b.Start() in Contents(m, xs)
    ensures Contents(n, ys)[b.Start()] == Contents(m, xs)[b.Start()]
  {
    hide Contents, LivePtrs, LiveAt, Payload;
    EntryOf(m, xs, b);
    EntryOf(n, ys, b);
    SameBytes(m, n, xs, ys, b);
  }

  lemma ContentsSame(m: seq<Byte>, n: seq<Byte>, bs: seq<Block>)
    requires InMemory(bs, |m|) && InMemory(bs, |n|) && SamePayloads(m, n, bs, bs)
    ensures Contents(m, bs) == Contents(n, bs)
  {
    KeysOf(m, bs);
    KeysOf(n, bs);
    forall p | p in Contents(m, bs) ensures Contents(n, bs)[p] == Contents(m, bs)[p] {
      SharedEntry(m, bs, n, bs, LiveAt(bs, p));
    }
  }

  /** A live pointer other than the replaced one belongs to a shared block. */
  lemma OtherPointer(xs: seq<Block>, ys: seq<Block>, b: Block, c: Block, size: nat, p: nat)
    requires InMemory(xs, size) && InMemory(ys, size) && !b.Free() && Replaces(xs, ys, b, c)
    requires p in LivePtrs(xs) && p != b.Start()
    ensures LiveAt(xs, p) in ys && p != c.Start()
  {
    hide LivePtrs;
    var d := LiveAt(xs, p);
    assert d != b && d != c;
    assert d in ys;
  }

  lemma MapsAgree<K, V>(f: map<K, V>, g: map<K, V>, k: K, l: K)
    requires forall p :: p in f && p != k ==> p in g && p != l && g[p] == f[p]
    requires forall p :: p in g && p != l ==> p in f && p != k
    ensures g - {l} == f - {k}
  {
  }

  lemma ContentsReplaced(m: seq<Byte>, xs: seq<Block>, n: seq<Byte>, ys: seq<Block>, b: Block, c: Block)
    requires InMemory(xs, |m|) && InMemory(ys, |n|) && SamePayloads(m, n, xs, ys)
    requires !b.Free() && Replaces(xs, ys, b, c)
    ensures b.Start() in Contents(m, xs) && Contents(m, xs)[b.Start()] == Payload(m, b)
    ensures c.Start() in Contents(n, ys) && Contents(n, ys)[c.Start()] == Payload(n, c)
    ensures Contents(n, ys) - {c.Start()} == Contents(m, xs) - {b.Start()}
  {
    EntryOf(m, xs, b);
    EntryOf(n, ys, c);
    KeysOf(m, xs);
    KeysOf(n, ys);
    var before, after := Contents(m, xs), Contents(n, ys);
    hide Contents, LivePtrs, Payload, InMemory, Replaces, SamePayloads;
    forall p | p in before && p != b.Start() ensures p in after && p != c.Start() && after[p] == before[p] {
      OtherPointer(xs, ys, b, c, |m|, p);
      SharedEntry(m, xs, n, ys, LiveAt(xs, p));
    }
    ReplacesBack(xs, ys, b, c);
    forall p | p in after && p != c.Start() ensures p in before && p != b.Start() {
      OtherPointer(ys, xs, c, b, |m|, p);
      EntryOf(m, xs, LiveAt(ys, p));
    }
    MapsAgree(before, after, b.Start(), c.Start());
  }

  lemma ReplacesBack(xs: seq<Block>, ys: seq<Block>, b: Block, c: Block)
    requires !b.Free() && Replaces(xs, ys, b, c)
    ensures Replaces(ys, xs, c, b) && !c.Free()
  {
  }

  /** One used block more is one entry more. */
  lemma ContentsAdded(m: seq<Byte>, xs: seq<Block>, n: seq<Byte>, ys: seq<Block>, b: Block)
    requires InMemory(xs, |m|) && InMemory(ys, |n|) && SamePayloads(m, n, xs, ys)
    requires Adds(xs, ys, b)
    ensures b.Start() !in Contents(m, xs)
    ensures b.Start() in Contents(n, ys) && Contents(n, ys)[b.Start()] == Payload(n, b)
    ensures Contents(n, ys) - {b.Start()} == Contents(m, xs)
  {
    EntryOf(n, ys, b);
    KeysOf(m, xs);
    KeysOf(n, ys);
    var before, after := Contents(m, xs), Contents(n, ys);
    hide Contents, LivePtrs, Payload, SamePayloads;
    forall p | p in before ensures p in after && p != b.Start() && after[p] == before[p] {
      assert LiveAt(xs, p) in ys && LiveAt(xs, p) != b;
      SharedEntry(m, xs, n, ys, LiveAt(xs, p));
    }
    forall p | p in after && p != b.Start() ensures p in before {
      assert LiveAt(ys, p) in xs;
      EntryOf(m, xs, LiveAt(ys, p));
    }
    assert b.Start() !in before;
    MapsAgree(before, after, b.Start(), b.Start());
    assert before - {b.Start()} == before;
  }

  function Patch(bytes: seq<Byte>, i: nat, v: Byte): seq<Byte>
    requires i < |bytes|
  {
    bytes[i := v]
  }

  lemma OtherBytes(m: seq<Byte>, n: seq<Byte>, bs: seq<Block>, b: Block, c: Block, i: nat, v: Byte)
    requires InMemory(bs, |m|) && b in bs && c in bs && c != b && i < b.used && b.Start() + i < |m|
    requires c.End() <= b.addr || b.End() <= c.addr
    requires n == m[b.Start() + i := v]
    ensures |n| == |m| && Payload(n, c) == Payload(m, c)
  {
  }

  /** A store inside the bytes of block `b` changes that entry only. */
  lemma ContentsWritten(m: seq<Byte>, n: seq<Byte>, bs: seq<Block>, b: Block, i: nat, v: Byte)
    requires InMemory(bs, |m|) && b in bs && i < b.used
    requires forall c :: c in bs && c != b ==> c.End() <= b.addr || b.End() <= c.addr
    requires b.Start() + i < |m| && n == m[b.Start() + i := v]
    ensures b.Start() in Contents(m, bs)
    ensures i < |Contents(m, bs)[b.Start()]|
    ensures Contents(n, bs) == Contents(m, bs)[b.Start() := Patch(Contents(m, bs)[b.Start()], i, v)]
  {
    EntryOf(m, bs, b);
    EntryOf(n, bs, b);
    KeysOf(m, bs);
    KeysOf(n, bs);
    assert Payload(n, b) == Patch(Payload(m, b), i, v);
    hide Contents, LivePtrs, Payload, InMemory, Patch;
    forall p | p in Contents(m, bs) && p != b.Start()
      ensures p in Contents(n, bs) && Contents(n, bs)[p] == Contents(m, bs)[p]
    {
      var c := LiveAt(bs, p);
      EntryOf(m, bs, c);
      EntryOf(n, bs, c);
      OtherBytes(m, n, bs, b, c, i, v);
    }
    OneEntryChanged(Contents(m, bs), Contents(n, bs), b.Start());
  }

  lemma OneEntryChanged<K, V>(f: map<K, V>, g: map<K, V>, k: K)
    requires f.Keys == g.Keys && k in f && forall p :: p in f && p != k ==> g[p] == f[p]
    ensures g == f[k := g[k]]
  {
  }

  lemma PrefixKept(m: seq<Byte>, p: nat, used: nat, bytes: seq<Byte>, n: nat)
    requires p + used <= |m| && n <= used && n <= |bytes|
    requires p + |bytes| <= |m| && m[p..p + |bytes|] == bytes
    ensures m[p..p + used][..n] == bytes[..n]
  {
    assert m[p..p + used][..n] == m[p..p + |bytes|][..n];
  }

  function Min(a: nat, b: nat): nat { if a < b then a else b }

  /** Of the first `size` bytes, all that were there before are still there. */
  ghost predicate Keeps(before: seq<Byte>, after: seq<Byte>, size: nat) {
    Min(|before|, size) <= |after| && after[..Min(|before|, size)] == before[..Min(|before|, size)]
  }

  /** One used block replaced by another that starts with its bytes. */
  lemma ContentsMoved(m: seq<Byte>, xs: seq<Block>, n: seq<Byte>, ys: seq<Block>, b: Block, c: Block, size: nat)
    requires InMemory(xs, |m|) && InMemory(ys, |n|) && SamePayloads(m, n, xs, ys)
    requires !b.Free() && Replaces(xs, ys, b, c) && size <= c.used
    requires c.Start() + b.used <= |n| && n[c.Start()..c.Start() + b.used] == Payload(m, b)
    ensures b.Start() in Contents(m, xs) && c.Start() in Contents(n, ys)
    ensures Contents(n, ys) - {c.Start()} == Contents(m, xs) - {b.Start()}
    ensures size <= |Contents(n, ys)[c.Start()]|
    ensures Keeps(Contents(m, xs)[b.Start()], Contents(n, ys)[c.Start()], size)
  {
    ContentsReplaced(m, xs, n, ys, b, c);
    assert c.Start() + c.used <= |n|;
    hide Contents, LivePtrs, InMemory, Replaces, SamePayloads;
    PrefixKept(n, c.Start(), c.used, Payload(m, b), Min(b.used, size));
  }

  // ------------------------------------------------ calls as steps of the map

  ghost predicate Added(before: map<nat, seq<Byte>>, after: map<nat, seq<Byte>>, p: nat, n: nat) {
    p !in before && p in after && |after[p]| == n && after - {p} == before
  }

  /** The entry at `q` is the live region an address `a` can lie in. */
  ghost predicate Nearest(m: map<nat, seq<Byte>>, a: nat, q: nat) {
    q in m && q <= a && forall r :: r in m && r <= a ==> r <= q
  }

  /** free of `a`: a live pointer goes; an address inside a live block takes that
      block with it; any other address changes nothing. */
  ghost predicate Freed(before: map<nat, seq<Byte>>, after: map<nat, seq<Byte>>, a: nat) {
    && (a in before ==> after == before - {a})
    && (after == before || exists q :: Nearest(before, a, q) && after == before - {q})
  }

  ghost predicate Moved(before: map<nat, seq<Byte>>, after: map<nat, seq<Byte>>, ptr: nat, p: nat, size: nat) {
    && ptr in before && p in after
    && after - {p} == before - {ptr}
    && size <= |after[p]| && Keeps(before[ptr], after[p], size)
  }

  /** What a call that answers `p` does to the client's bytes. */
  ghost predicate MapStep(c: Call, before: map<nat, seq<Byte>>, after: map<nat, seq<Byte>>, p: nat) {
    match c
    case MallocCall(len, _) =>
      if p == 0 then after == before else Added(before, after, p, Request(len))
    case FreeCall(a) =>
      Freed(before, after, a)
    case ReallocCall(ptr, size, _) =>
      if size == 0 then p == 0 && Freed(before, after, ptr)
      else if p == 0 then after == before
      else if ptr == 0 then Added(before, after, p, Request(size))
      else Moved(before, after, ptr, p, size)
    case WriteCall(ptr, i, v) =>
      ptr in before && i < |before[ptr]| && after == before[ptr := Patch(before[ptr], i, v)]
  }

  /** The maps and answers of a whole run. */
  ghost predicate IsTrace(calls: seq<Call>, maps: seq<map<nat, seq<Byte>>>, ps: seq<nat>) {
    && |maps| == |calls| + 1 && |ps| == |calls|
    && forall i :: 0 <= i < |calls| ==> MapStep(calls[i], maps[i], maps[i + 1], ps[i])
  }

  lemma TraceSnoc(calls: seq<Call>, maps: seq<map<nat, seq<Byte>>>, ps: seq<nat>,
                  c: Call, after: map<nat, seq<Byte>>, p: nat)
    requires IsTrace(calls, maps, ps) && MapStep(c, maps[|calls|], after, p)
    ensures IsTrace(calls + [c], maps + [after], ps + [p])
  {
    hide MapStep;
  }

  /** The call is not about the live region at `q`. */
  ghost predicate Spares(m: map<nat, seq<Byte>>, c: Call, q: nat) {
    match c
    case MallocCall(_, _) => true
    case FreeCall(a) => !Nearest(m, a, q)
    case ReallocCall(ptr, size, _) => ptr != q && (size == 0 ==> !Nearest(m, ptr, q))
    case WriteCall(ptr, _, _) => ptr != q
  }

  lemma StepKeeps(c: Call, before: map<nat, seq<Byte>>, after: map<nat, seq<Byte>>, p: nat, q: nat)
    requires MapStep(c, before, after, p) && q in before && Spares(before, c, q)
    ensures q in after && after[q] == before[q]
  {
    match c
    case MallocCall(len, _) =>
      assert p != 0 ==> q in after - {p};
    case FreeCall(a) =>
    case ReallocCall(ptr, size, _) =>
      assert size != 0 && p != 0 && ptr != 0 ==> q in before - {ptr};
      assert size != 0 && p != 0 ==> q in after - {p};
    case WriteCall(ptr, i, v) =>
  }

  /** Over a whole run a region that no call is about keeps every byte, at
      whatever moment it came into being. */
  lemma {:induction false} TraceKeeps(calls: seq<Call>, maps: seq<map<nat, seq<Byte>>>, ps: seq<nat>,
                                      q: nat, i: nat, j: nat)
    requires IsTrace(calls, maps, ps) && i <= j <= |calls| && q in maps[i]
    requires forall k :: i <= k < j ==> Spares(maps[k], calls[k], q)
    ensures q in maps[j] && maps[j][q] == maps[i][q]
    decreases j
  {
    hide MapStep, Spares;
    if i == j {
    } else {
      TraceKeeps(calls, maps, ps, q, i, j - 1);
      StepKeeps(calls[j - 1], maps[j - 1], maps[j], ps[j - 1], q);
    }
  }
}
