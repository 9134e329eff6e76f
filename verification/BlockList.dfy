/** The heap as an address-ordered list of blocks: what each allocator call
    does to the list, and what every such list keeps. */
module BlockList {
  import opened Machine

  const HEADER: nat := 24
  const MINBLOCK: nat := 2 * HEADER

  /** `addr` is the address of the header; the payload of `size` bytes follows
      it. A block is free when `used` is 0. */
  datatype Block = Block(addr: nat, size: nat, used: nat) {
    function Start(): nat { addr + HEADER }
    function End(): nat { addr + HEADER + size }
    predicate Free() { used == 0 }
    predicate Good() { 0 < size && size % 4 == 0 && used <= size }
    predicate Contains(a: nat) { Start() <= a < End() }
  }

  ghost predicate Tiles(bs: seq<Block>, lo: nat, hi: nat) {
    && |bs| > 0
    && bs[0].addr == lo
    && bs[|bs| - 1].End() == hi
    && (forall i :: 0 <= i < |bs| ==> bs[i].Good())
    && (forall i, j :: 0 <= i && j == i + 1 && j < |bs| ==> bs[j].addr == bs[i].End())
  }

  /** No two neighbours are both free. */
  ghost predicate Canonical(bs: seq<Block>) {
    forall i, j :: 0 <= i && j == i + 1 && j < |bs| ==> !(bs[i].Free() && bs[j].Free())
  }

  ghost predicate SameUsed(xs: seq<Block>, ys: seq<Block>) {
    forall b: Block :: !b.Free() ==> (b in xs <==> b in ys)
  }

  lemma {:induction false} Ordered(bs: seq<Block>, lo: nat, hi: nat, i: nat, j: nat)
    requires Tiles(bs, lo, hi) && i < j < |bs|
    ensures bs[i].End() <= bs[j].addr
    decreases j
  {
    if i == j - 1 {
    } else {
      Ordered(bs, lo, hi, i, j - 1);
    }
  }

  lemma AllOrdered(bs: seq<Block>, lo: nat, hi: nat)
    requires Tiles(bs, lo, hi)
    ensures forall i, j :: 0 <= i < j < |bs| ==> bs[i].End() <= bs[j].addr
    ensures forall i :: 0 <= i < |bs| ==> lo <= bs[i].addr && bs[i].End() <= hi
  {
    forall i, j | 0 <= i < j < |bs| ensures bs[i].End() <= bs[j].addr {
      Ordered(bs, lo, hi, i, j);
    }
  }

  // ---------------------------------------------------------------- coalescing

  function Fuse(first: Block, second: Block): Block {
    Block(first.addr, first.size + second.size + HEADER, 0)
  }

  /** Blocks `k` and `k + 1` replaced by `b`. */
  function Joined(bs: seq<Block>, k: nat, b: Block): seq<Block>
    requires k + 1 < |bs|
  {
    bs[..k] + [b] + bs[k + 2..]
  }

  function FuseAt(bs: seq<Block>, k: nat): seq<Block>
    requires k + 1 < |bs|
  {
    Joined(bs, k, Fuse(bs[k], bs[k + 1]))
  }

  function Coalesce(bs: seq<Block>): (cs: seq<Block>)
    ensures |bs| > 0 ==> |cs| > 0
    decreases |bs|
  {
    if |bs| <= 1 then bs
    else if bs[0].Free() && bs[1].Free() then Coalesce([Fuse(bs[0], bs[1])] + bs[2..])
    else [bs[0]] + Coalesce(bs[1..])
  }

  /** The list when the sweep has reached position `k`, with the rest still to
      be swept. */
  ghost function Swept(bs: seq<Block>, k: nat): seq<Block>
    requires k <= |bs|
  {
    bs[..k] + Coalesce(bs[k..])
  }

  lemma SweptEnds(bs: seq<Block>)
    ensures Swept(bs, 0) == Coalesce(bs) && Swept(bs, |bs|) == bs
  {
    assert bs[0..] == bs && bs[|bs|..] == [];
  }

  lemma FuseSweeps(bs: seq<Block>, k: nat)
    requires k + 1 < |bs| && bs[k].Free() && bs[k + 1].Free()
    ensures Swept(bs, k) == Swept(FuseAt(bs, k), k)
  {
    var rest, fs := bs[k..], FuseAt(bs, k);
    assert fs[..k] == bs[..k];
    assert fs[k..] == [Fuse(rest[0], rest[1])] + rest[2..];
  }

  lemma MoveSweeps(bs: seq<Block>, k: nat)
    requires k < |bs| && (k + 1 < |bs| ==> !(bs[k].Free() && bs[k + 1].Free()))
    ensures Swept(bs, k) == Swept(bs, k + 1)
  {
    var rest := bs[k..];
    assert rest[1..] == bs[k + 1..];
    assert bs[..k + 1] == bs[..k] + [bs[k]];
    if k + 1 == |bs| {
      assert rest == [bs[k]] + [];
    }
  }

  /** One step of the sweep at position `k`: fuse there, or move past it. */
  lemma SweptStep(bs: seq<Block>, lo: nat, hi: nat, k: nat)
    requires Tiles(bs, lo, hi) && k < |bs|
    ensures if k + 1 < |bs| && bs[k].Free() && bs[k + 1].Free()
            then |FuseAt(bs, k)| == |bs| - 1 && Swept(bs, k) == Swept(FuseAt(bs, k), k)
                 && FuseAt(bs, k)[k].addr == bs[k].addr && SameUsed(bs, FuseAt(bs, k))
            else Swept(bs, k) == Swept(bs, k + 1)
  {
    hide Swept;
    if k + 1 < |bs| && bs[k].Free() && bs[k + 1].Free() {
      FuseSweeps(bs, k);
      FuseTiles(bs, lo, hi, k);
    } else {
      MoveSweeps(bs, k);
    }
  }

  lemma JoinedIndex(bs: seq<Block>, k: nat, b: Block)
    requires k + 1 < |bs|
    ensures var js := Joined(bs, k, b);
            && |js| == |bs| - 1 && js[k] == b
            && (forall i :: 0 <= i < k ==> js[i] == bs[i])
            && (forall i :: k < i < |js| ==> js[i] == bs[i + 1])
  {
  }

  lemma OthersApart(bs: seq<Block>, lo: nat, hi: nat, c: Block)
    requires Tiles(bs, lo, hi) && c in bs
    ensures c.End() <= hi && forall d :: d in bs && d != c ==> d.End() <= c.addr || c.End() <= d.addr
  {
    AllOrdered(bs, lo, hi);
  }

  lemma HeadBounds(bs: seq<Block>, lo: nat, hi: nat)
    requires Tiles(bs, lo, hi)
    ensures |bs| > 0 && bs[0].addr == lo
    ensures forall i :: 0 <= i < |bs| ==> lo <= bs[i].addr
  {
    AllOrdered(bs, lo, hi);
  }

  /** Addresses of a block and its neighbours stay inside the heap. */
  lemma FuseBounds(bs: seq<Block>, lo: nat, hi: nat, k: nat)
    requires Tiles(bs, lo, hi) && k < |bs|
    ensures lo <= bs[k].addr && bs[k].Good() && bs[k].End() <= hi
    ensures k + 1 == |bs| ==> bs[k].End() == hi
    ensures k + 1 < |bs| ==> bs[k].End() == bs[k + 1].addr && bs[k + 1].End() <= hi
  {
    AllOrdered(bs, lo, hi);
  }

  lemma FuseTiles(bs: seq<Block>, lo: nat, hi: nat, k: nat)
    requires Tiles(bs, lo, hi) && k + 1 < |bs| && bs[k].Free() && bs[k + 1].Free()
    ensures Tiles(FuseAt(bs, k), lo, hi) && SameUsed(bs, FuseAt(bs, k))
  {
    var fs := FuseAt(bs, k);
    forall b: Block | !b.Free() ensures b in bs <==> b in fs {
      assert bs == bs[..k] + [bs[k], bs[k + 1]] + bs[k + 2..];
    }
    assert fs[|fs| - 1].End() == hi;
  }

  lemma PutInFront(b: Block, cs: seq<Block>, hi: nat)
    requires b.Good() && Tiles(cs, b.End(), hi)
    ensures Tiles([b] + cs, b.addr, hi)
    ensures Canonical(cs) && !(b.Free() && cs[0].Free()) ==> Canonical([b] + cs)
  {
  }

  lemma SameUsedInFront(b: Block, xs: seq<Block>, ys: seq<Block>)
    requires SameUsed(xs, ys)
    ensures SameUsed([b] + xs, [b] + ys)
  {
  }

  /** The sweep of garbage_collect leaves the same used blocks tiling the same
      region, and no two free neighbours. */
  lemma {:induction false} CoalesceCorrect(bs: seq<Block>, lo: nat, hi: nat)
    requires Tiles(bs, lo, hi)
    ensures Tiles(Coalesce(bs), lo, hi)
    ensures Canonical(Coalesce(bs))
    ensures SameUsed(bs, Coalesce(bs))
    ensures !bs[0].Free() ==> Coalesce(bs)[0] == bs[0]
    decreases |bs|
  {
    if |bs| <= 1 {
    } else {
      if bs[0].Free() && bs[1].Free() {
        var fs := FuseAt(bs, 0);
        assert fs == [Fuse(bs[0], bs[1])] + bs[2..];
        FuseTiles(bs, lo, hi, 0);
        CoalesceCorrect(fs, lo, hi);
      } else {
        TailOf(bs, lo, hi);
        CoalesceCorrect(bs[1..], bs[0].End(), hi);
        PutInFront(bs[0], Coalesce(bs[1..]), hi);
        SameUsedInFront(bs[0], bs[1..], Coalesce(bs[1..]));
        assert bs == [bs[0]] + bs[1..];
      }
    }
  }

  lemma TailOf(bs: seq<Block>, lo: nat, hi: nat)
    requires Tiles(bs, lo, hi) && |bs| > 1
    ensures Tiles(bs[1..], bs[0].End(), hi)
    ensures Canonical(bs) ==> Canonical(bs[1..])
    ensures bs[0] !in bs[1..]
  {
    AllOrdered(bs, lo, hi);
  }

  lemma SameTail(xs: seq<Block>, ys: seq<Block>)
    requires |xs| > 0 && |ys| > 0 && xs[0] == ys[0]
    requires xs[0] !in xs[1..] && ys[0] !in ys[1..] && SameUsed(xs, ys)
    ensures SameUsed(xs[1..], ys[1..])
  {
    forall b: Block | !b.Free() ensures b in xs[1..] <==> b in ys[1..] {
      assert b in xs <==> b == xs[0] || b in xs[1..];
      assert b in ys <==> b == ys[0] || b in ys[1..];
    }
  }

  /** A list without free neighbours is determined by its used blocks and the
      bounds of the heap. */
  lemma {:induction false} CanonicalUnique(xs: seq<Block>, ys: seq<Block>, lo: nat, hi: nat)
    requires Tiles(xs, lo, hi) && Tiles(ys, lo, hi)
    requires Canonical(xs) && Canonical(ys) && SameUsed(xs, ys)
    ensures xs == ys
    decreases |xs|
  {
    SameHead(xs, ys, lo, hi);
    if |xs| > 1 && |ys| > 1 {
      TailOf(xs, lo, hi);
      TailOf(ys, lo, hi);
      SameTail(xs, ys);
      CanonicalUnique(xs[1..], ys[1..], xs[0].End(), hi);
      assert xs == [xs[0]] + xs[1..] && ys == [ys[0]] + ys[1..];
    } else if |xs| > 1 {
      AllOrdered(xs, lo, hi);
    } else if |ys| > 1 {
      AllOrdered(ys, lo, hi);
    }
  }

  lemma SameHead(xs: seq<Block>, ys: seq<Block>, lo: nat, hi: nat)
    requires Tiles(xs, lo, hi) && Tiles(ys, lo, hi)
    requires Canonical(xs) && Canonical(ys) && SameUsed(xs, ys)
    ensures xs[0] == ys[0]
  {
    AllOrdered(xs, lo, hi);
    AllOrdered(ys, lo, hi);
    assert xs[0] in xs && ys[0] in ys;
    assert (xs[0].Free() || xs[0] in ys) && (ys[0].Free() || ys[0] in xs);
    if xs[0].Free() && ys[0].Free() {
      HeadSize(xs, ys, lo, hi);
      HeadSize(ys, xs, lo, hi);
    }
  }

  lemma HeadSize(xs: seq<Block>, ys: seq<Block>, lo: nat, hi: nat)
    requires Tiles(xs, lo, hi) && Tiles(ys, lo, hi)
    requires Canonical(xs) && SameUsed(xs, ys)
    requires xs[0].Free() && ys[0].Free()
    ensures ys[0].End() <= xs[0].End()
  {
    AllOrdered(xs, lo, hi);
    AllOrdered(ys, lo, hi);
    if |xs| > 1 {
      assert xs[1] in xs;
      assert xs[1] in ys;
    }
  }
}
