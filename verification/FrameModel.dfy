/** Physical frames and the Region 0 page table as values, and what every
    change of the kernel break keeps. */
module FrameModel {
  import opened Machine

  const MAX_PHYSICAL_FRAMES: nat := 4096
  const KSTACK_FIRST_PAGE: nat := 126
  const KSTACK_LIMIT_PAGE: nat := 128

  const PROT_NONE: nat := 0
  const PROT_READ: nat := 1
  const PROT_WRITE: nat := 2
  const PROT_EXEC: nat := 4

  datatype Pte = Pte(valid: bool, prot: nat, pfn: nat)

  const CLEAR: Pte := Pte(false, PROT_NONE, 0)

  /** `used` has one entry per physical frame, `pt` one per virtual page. */
  datatype Frames = Frames(used: seq<bool>, pt: seq<Pte>)

  function FirstFree(used: seq<bool>): (k: nat)
    ensures k <= |used|
    ensures k < |used| ==> !used[k]
    ensures forall i :: 0 <= i < k ==> used[i]
  {
    if used == [] || !used[0] then 0 else 1 + FirstFree(used[1..])
  }

  function HeapPage(pfn: nat): Pte { Pte(true, PROT_READ + PROT_WRITE, pfn) }

  /** Map pages `lo` to `hi`, one free frame each, until frames run out. */
  function Grow(s: Frames, lo: nat, hi: nat): (r: (Frames, bool))
    requires lo <= hi <= |s.pt|
    ensures |r.0.used| == |s.used| && |r.0.pt| == |s.pt|
    decreases hi - lo
  {
    if lo == hi then (s, true)
    else
      var k := FirstFree(s.used);
      if k == |s.used| then (s, false)
      else Grow(Frames(s.used[k := true], s.pt[lo := HeapPage(k)]), lo + 1, hi)
  }

  /** Unmap pages `lo` to `hi` and free the frames they had. */
  function Shrink(s: Frames, lo: nat, hi: nat): (r: Frames)
    requires lo <= hi <= |s.pt|
    ensures |r.used| == |s.used| && |r.pt| == |s.pt|
    decreases hi - lo
  {
    if lo == hi then s
    else
      var e := s.pt[lo];
      var used := if e.valid && e.pfn < |s.used| then s.used[e.pfn := false] else s.used;
      Shrink(Frames(used, s.pt[lo := CLEAR]), lo + 1, hi)
  }

  lemma FirstFreeIs(used: seq<bool>, i: nat)
    requires i <= |used| && (i < |used| ==> !used[i]) && forall j :: 0 <= j < i ==> used[j]
    ensures FirstFree(used) == i
  {
  }

  // ------------------------------------------------------------------- safety

  /** Every mapped frame exists and is marked used; no two pages share one; the
      frames in `held` were handed out and are in no page. */
  ghost predicate Safe(s: Frames, held: set<nat>) {
    && (forall v :: 0 <= v < |s.pt| && s.pt[v].valid ==>
          s.pt[v].pfn < |s.used| && s.used[s.pt[v].pfn] && s.pt[v].pfn !in held)
    && (forall v, w :: 0 <= v < w < |s.pt| && s.pt[v].valid && s.pt[w].valid ==> s.pt[v].pfn != s.pt[w].pfn)
    && (forall f :: f in held ==> f < |s.used| && s.used[f])
  }

  /** A frame AllocFrame returns is in no page and in nobody's hands. */
  lemma AllocIsFresh(s: Frames, held: set<nat>)
    requires Safe(s, held) && FirstFree(s.used) < |s.used|
    ensures var k := FirstFree(s.used);
            && k !in held
            && (forall v :: 0 <= v < |s.pt| && s.pt[v].valid ==> s.pt[v].pfn != k)
            && Safe(s.(used := s.used[k := true]), held + {k})
  {
  }

  lemma GrowStepSafe(s: Frames, held: set<nat>, v: nat)
    requires Safe(s, held) && FirstFree(s.used) < |s.used| && v < |s.pt|
    ensures var k := FirstFree(s.used);
            Safe(Frames(s.used[k := true], s.pt[v := HeapPage(k)]), held)
  {
  }

  lemma ShrinkStepSafe(s: Frames, held: set<nat>, v: nat)
    requires Safe(s, held) && v < |s.pt|
    ensures var e := s.pt[v];
            var used := if e.valid && e.pfn < |s.used| then s.used[e.pfn := false] else s.used;
            Safe(Frames(used, s.pt[v := CLEAR]), held)
  {
  }

  lemma {:induction false} GrowSafe(s: Frames, held: set<nat>, lo: nat, hi: nat)
    requires Safe(s, held) && lo <= hi <= |s.pt|
    ensures Safe(Grow(s, lo, hi).0, held)
    decreases hi - lo
  {
    hide Safe;
    var k := FirstFree(s.used);
    if lo == hi || k == |s.used| {
    } else {
      GrowStepSafe(s, held, lo);
      GrowSafe(Frames(s.used[k := true], s.pt[lo := HeapPage(k)]), held, lo + 1, hi);
    }
  }

  lemma {:induction false} ShrinkSafe(s: Frames, held: set<nat>, lo: nat, hi: nat)
    requires Safe(s, held) && lo <= hi <= |s.pt|
    ensures Safe(Shrink(s, lo, hi), held)
    decreases hi - lo
  {
    hide Safe;
    if lo == hi {
    } else {
      var e := s.pt[lo];
      var used := if e.valid && e.pfn < |s.used| then s.used[e.pfn := false] else s.used;
      ShrinkStepSafe(s, held, lo);
      ShrinkSafe(Frames(used, s.pt[lo := CLEAR]), held, lo + 1, hi);
    }
  }

  // --------------------------------------------------------------- accounting

  function FreeCount(used: seq<bool>): nat {
    if used == [] then 0 else FreeCount(used[..|used| - 1]) + if used[|used| - 1] then 0 else 1
  }

  lemma {:induction false} FreeCountUpdate(used: seq<bool>, k: nat, b: bool)
    requires k < |used|
    ensures FreeCount(used[k := b]) ==
            FreeCount(used) + (if b then 0 else 1) - (if used[k] then 0 else 1)
  {
    var n := |used| - 1;
    if k == n {
      assert used[k := b][..n] == used[..n];
    } else {
      assert used[k := b][..n] == used[..n][k := b];
      FreeCountUpdate(used[..n], k, b);
    }
  }

  lemma {:induction false} NoneFree(used: seq<bool>)
    requires FirstFree(used) == |used|
    ensures FreeCount(used) == 0
  {
    AllUsedCount(used);
  }

  lemma {:induction false} AllUsedCount(used: seq<bool>)
    requires forall i :: 0 <= i < |used| ==> used[i]
    ensures FreeCount(used) == 0
  {
    if used == [] {
    } else {
      AllUsedCount(used[..|used| - 1]);
    }
  }

  /** A grow succeeds exactly when there are enough free frames. It takes one
      per page; a failed one takes all that are left. */
  lemma {:induction false} GrowAccount(s: Frames, lo: nat, hi: nat)
    requires lo <= hi <= |s.pt|
    ensures var (t, ok) := Grow(s, lo, hi);
            && |t.used| == |s.used| && |t.pt| == |s.pt|
            && (ok <==> hi - lo <= FreeCount(s.used))
            && FreeCount(t.used) == (if ok then FreeCount(s.used) - (hi - lo) else 0)
    decreases hi - lo
  {
    var k := FirstFree(s.used);
    if lo == hi {
    } else {
      if k < |s.used| {
        FreeCountUpdate(s.used, k, true);
        GrowAccount(Frames(s.used[k := true], s.pt[lo := HeapPage(k)]), lo + 1, hi);
      } else {
        NoneFree(s.used);
      }
    }
  }

  /** Pages that can be read and written and not executed. */
  ghost predicate Mapped(s: Frames, lo: nat, hi: nat) {
    hi <= |s.pt| && forall v :: lo <= v < hi ==> s.pt[v].valid && s.pt[v].prot == 3
  }

  /** A shrink of mapped pages gives back one frame per page. */
  lemma {:induction false} ShrinkAccount(s: Frames, held: set<nat>, lo: nat, hi: nat)
    requires Safe(s, held) && lo <= hi && Mapped(s, lo, hi)
    ensures var t := Shrink(s, lo, hi);
            && |t.used| == |s.used| && |t.pt| == |s.pt|
            && FreeCount(t.used) == FreeCount(s.used) + (hi - lo)
    decreases hi - lo
  {
    if lo == hi {
    } else {
      var pfn := s.pt[lo].pfn;
      FreeCountUpdate(s.used, pfn, false);
      ShrinkStepSafe(s, held, lo);
      ShrinkAccount(Frames(s.used[pfn := false], s.pt[lo := CLEAR]), held, lo + 1, hi);
    }
  }

  // ------------------------------------------------------ pages and frames

  /** Where a grow stops. */
  function GrowEnd(s: Frames, lo: nat, hi: nat): (e: nat)
    requires lo <= hi <= |s.pt|
    ensures lo <= e <= hi
    decreases hi - lo
  {
    var k := FirstFree(s.used);
    if lo == hi || k == |s.used| then lo
    else GrowEnd(Frames(s.used[k := true], s.pt[lo := HeapPage(k)]), lo + 1, hi)
  }

  /** How far the free frames reach: one page each, and no further than asked. */
  function Reach(s: Frames, lo: nat, hi: nat): (e: nat)
    requires lo <= hi
    ensures lo <= e <= hi
  {
    if hi - lo <= FreeCount(s.used) then hi else lo + FreeCount(s.used)
  }

  lemma {:induction false} GrowEndIsReach(s: Frames, lo: nat, hi: nat)
    requires lo <= hi <= |s.pt|
    ensures GrowEnd(s, lo, hi) == Reach(s, lo, hi)
    decreases hi - lo
  {
    var k := FirstFree(s.used);
    if lo == hi {
    } else if k == |s.used| {
      NoneFree(s.used);
    } else {
      FreeCountUpdate(s.used, k, true);
      GrowEndIsReach(Frames(s.used[k := true], s.pt[lo := HeapPage(k)]), lo + 1, hi);
    }
  }

  /** Frame `f` is in one of the pages `lo` to `hi`. */
  ghost predicate InPages(s: Frames, lo: nat, hi: nat, f: nat) {
    exists v :: lo <= v < hi && v < |s.pt| && s.pt[v].valid && s.pt[v].pfn == f
  }

  /** A grow maps the pages up to its end, to frames that were free, and leaves
      every other page and frame alone. */
  lemma {:induction false} GrowEffect(s: Frames, lo: nat, hi: nat)
    requires lo <= hi <= |s.pt|
    ensures var (t, ok) := Grow(s, lo, hi);
            var e := GrowEnd(s, lo, hi);
            && |t.pt| == |s.pt| && |t.used| == |s.used| && (ok <==> e == hi)
            && (forall v :: 0 <= v < |s.pt| && !(lo <= v < e) ==> t.pt[v] == s.pt[v])
            && Mapped(t, lo, e)
            && (forall v :: lo <= v < e ==> t.pt[v].pfn < |s.used| && !s.used[t.pt[v].pfn])
            && (forall f :: 0 <= f < |s.used| ==> (t.used[f] <==> s.used[f] || InPages(t, lo, e, f)))
    decreases hi - lo
  {
    hide FirstFree;
    var k := FirstFree(s.used);
    if lo == hi || k == |s.used| {
    } else {
      var u := Frames(s.used[k := true], s.pt[lo := HeapPage(k)]);
      GrowEffect(u, lo + 1, hi);
      var t, e := Grow(s, lo, hi).0, GrowEnd(s, lo, hi);
      assert t.pt[lo] == u.pt[lo];
      forall f | 0 <= f < |s.used| ensures t.used[f] <==> s.used[f] || InPages(t, lo, e, f) {
        if InPages(t, lo, e, f) && f != k {
          assert InPages(t, lo + 1, e, f);
        }
      }
    }
  }

  lemma FirstOfPages(s: Frames, u: Frames, lo: nat, hi: nat, f: nat)
    requires lo < hi <= |s.pt| && u.pt == s.pt[lo := CLEAR]
    ensures InPages(s, lo, hi, f) <==> (s.pt[lo].valid && s.pt[lo].pfn == f) || InPages(u, lo + 1, hi, f)
  {
    if v :| lo + 1 <= v < hi && s.pt[v].valid && s.pt[v].pfn == f {
      assert u.pt[v] == s.pt[v];
    }
    if v :| lo + 1 <= v < hi && u.pt[v].valid && u.pt[v].pfn == f {
      assert u.pt[v] == s.pt[v];
    }
  }

  /** A shrink clears its pages and frees exactly their frames. */
  lemma {:induction false} ShrinkEffect(s: Frames, held: set<nat>, lo: nat, hi: nat)
    requires Safe(s, held) && lo <= hi <= |s.pt|
    ensures var t := Shrink(s, lo, hi);
            && |t.pt| == |s.pt| && |t.used| == |s.used|
            && (forall v :: 0 <= v < |s.pt| ==> t.pt[v] == (if lo <= v < hi then CLEAR else s.pt[v]))
            && (forall f :: 0 <= f < |s.used| ==> (t.used[f] <==> s.used[f] && !InPages(s, lo, hi, f)))
    decreases hi - lo
  {
    if lo == hi {
    } else {
      var e := s.pt[lo];
      var used := if e.valid && e.pfn < |s.used| then s.used[e.pfn := false] else s.used;
      var u := Frames(used, s.pt[lo := CLEAR]);
      ShrinkStepSafe(s, held, lo);
      hide Safe, InPages;
      ShrinkEffect(u, held, lo + 1, hi);
      var t := Shrink(s, lo, hi);
      forall f | 0 <= f < |s.used| ensures t.used[f] <==> s.used[f] && !InPages(s, lo, hi, f) {
        FirstOfPages(s, u, lo, hi, f);
      }
    }
  }

  /** A successful grow and the shrink back to the old break restore the bitmap
      exactly, and the page table exactly when the pages were clear before. */
  lemma GrowShrinkRestores(s: Frames, held: set<nat>, lo: nat, hi: nat)
    requires Safe(s, held) && lo <= hi <= |s.pt| && Grow(s, lo, hi).1
    ensures var t := Shrink(Grow(s, lo, hi).0, lo, hi);
            && t.used == s.used
            && (t.pt == s.pt <==> forall v :: lo <= v < hi ==> s.pt[v] == CLEAR)
  {
    var u := Grow(s, lo, hi).0;
    GrowSafe(s, held, lo, hi);
    GrowEffect(s, lo, hi);
    ShrinkEffect(u, held, lo, hi);
    var t := Shrink(u, lo, hi);
    assert forall v :: lo <= v < hi ==> t.pt[v] == CLEAR;
  }

  // ---------------------------------------------------------------- leaks

  /** A frame nobody can reach any more: used, in no page, in nobody's hands. */
  ghost predicate Leaked(s: Frames, held: set<nat>, f: nat) {
    f < |s.used| && s.used[f] && f !in held && !InPages(s, 0, |s.pt|, f)
  }

  /** A grow leaks exactly the frames of the mapped pages it writes over: those
      it is asked for and has free frames to reach. */
  lemma GrowLeaks(s: Frames, held: set<nat>, lo: nat, hi: nat, f: nat)
    requires Safe(s, held) && lo <= hi <= |s.pt|
    ensures Leaked(Grow(s, lo, hi).0, held, f) <==>
            Leaked(s, held, f) || InPages(s, lo, Reach(s, lo, hi), f)
  {
    GrowEndIsReach(s, lo, hi);
    var t, e := Grow(s, lo, hi).0, GrowEnd(s, lo, hi);
    GrowEffect(s, lo, hi);
    if InPages(s, 0, |s.pt|, f) && !InPages(s, lo, e, f) {
      var v :| 0 <= v < |s.pt| && s.pt[v].valid && s.pt[v].pfn == f;
      assert t.pt[v] == s.pt[v];
    }
    if InPages(t, 0, |t.pt|, f) {
      var v :| 0 <= v < |t.pt| && t.pt[v].valid && t.pt[v].pfn == f;
      if !(lo <= v < e) { assert s.pt[v].pfn == f; }
    }
  }

  lemma ShrinkLeaksNothing(s: Frames, held: set<nat>, lo: nat, hi: nat, f: nat)
    requires Safe(s, held) && lo <= hi <= |s.pt|
    ensures Leaked(Shrink(s, lo, hi), held, f) <==> Leaked(s, held, f)
  {
    var t := Shrink(s, lo, hi);
    ShrinkEffect(s, held, lo, hi);
    if InPages(t, 0, |t.pt|, f) {
      var v :| 0 <= v < |t.pt| && t.pt[v].valid && t.pt[v].pfn == f;
      assert s.pt[v].pfn == f && s.pt[v].valid;
    }
    if InPages(s, 0, |s.pt|, f) && !InPages(s, lo, hi, f) {
      var v :| 0 <= v < |s.pt| && s.pt[v].valid && s.pt[v].pfn == f;
      assert t.pt[v].pfn == f && t.pt[v].valid;
    }
  }
}
