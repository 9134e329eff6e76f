/** The frames and the Region 0 table that boot builds: page N on frame N. */
module FrameBoot {
  import opened Machine
  import opened FrameModel
  import opened FrameRuns

  predicate IsStackPage(v: int) { KSTACK_FIRST_PAGE <= v < KSTACK_LIMIT_PAGE }

  /** The bitmap of InitPhysicalMemory. */
  function BootUsed(orig: nat, total: nat): seq<bool> {
    seq(total, v => v < orig || IsStackPage(v))
  }

  function BootEntry(v: nat, text: nat, data: nat, orig: nat): Pte {
    if text <= v < data then Pte(true, PROT_READ + PROT_EXEC, v)
    else if data <= v < orig || IsStackPage(v) then HeapPage(v)
    else CLEAR
  }

  /** The table of BuildRegion0PageTable. */
  function BootTable(text: nat, data: nat, orig: nat): seq<Pte> {
    seq(MAX_PT_LEN, (v: int) => if v < 0 then CLEAR else BootEntry(v, text, data, orig))
  }

  /** SyncKernelBrkBeforeVM: pages `lo` to `hi` on the frames of the same number. */
  function Sync(s: Frames, lo: nat, hi: nat): (t: Frames)
    requires lo <= hi <= |s.pt| && hi <= |s.used|
    ensures |t.pt| == |s.pt| && |t.used| == |s.used|
    ensures forall v :: 0 <= v < |s.pt| ==> t.pt[v] == if lo <= v < hi then HeapPage(v) else s.pt[v]
    ensures forall f :: 0 <= f < |s.used| ==> t.used[f] == (s.used[f] || lo <= f < hi)
    decreases hi - lo
  {
    if lo == hi then s
    else Sync(Frames(s.used[lo := true], s.pt[lo := HeapPage(lo)]), lo + 1, hi)
  }

  lemma SyncStep(s: Frames, lo: nat, hi: nat)
    requires lo <= hi <= |s.pt| && hi <= |s.used|
    ensures Sync(s, lo, hi) ==
            if lo == hi then s else Sync(Frames(s.used[lo := true], s.pt[lo := HeapPage(lo)]), lo + 1, hi)
  {
  }

  /** If AllocFrame ran before the sync, the result is safe exactly when none of
      the frames it gave away lies where the early kernel heap is. */
  lemma SyncSafeIff(s: Frames, held: set<nat>, lo: nat, hi: nat)
    requires Safe(s, held) && lo <= hi <= |s.pt| && hi <= |s.used|
    requires forall v :: lo <= v < hi ==> s.pt[v] == CLEAR
    requires forall v :: 0 <= v < |s.pt| && s.pt[v].valid ==> s.pt[v].pfn == v
    ensures Safe(Sync(s, lo, hi), held) <==> forall f :: f in held ==> !(lo <= f < hi)
  {
    var t := Sync(s, lo, hi);
    if f :| f in held && lo <= f < hi {
      assert t.pt[f] == HeapPage(f);
    }
  }

  /** The frames below the kernel text belong to the machine, not to a page. */
  ghost function Reserved(text: nat): (r: set<nat>)
    ensures forall f :: f in r <==> 0 <= f < text
  {
    if text == 0 then {} else Reserved(text - 1) + {text - 1}
  }

  ghost function Booted(text: nat, data: nat, orig: nat, total: nat, requested: nat): Kernel
    requires orig <= requested < KSTACK_FIRST_PAGE && KSTACK_LIMIT_PAGE <= total
  {
    Kernel(Sync(Frames(BootUsed(orig, total), BootTable(text, data, orig)), orig, requested),
           requested, Reserved(text))
  }

  lemma BootedPages(text: nat, data: nat, orig: nat, total: nat, requested: nat)
    requires text <= data <= orig <= requested < KSTACK_FIRST_PAGE && KSTACK_LIMIT_PAGE <= total
    ensures var s := Booted(text, data, orig, total, requested).s;
            && |s.pt| == MAX_PT_LEN && |s.used| == total
            && (forall v :: 0 <= v < MAX_PT_LEN ==>
                  if text <= v < requested || IsStackPage(v) then s.pt[v].valid && s.pt[v].pfn == v
                  else s.pt[v] == CLEAR)
            && (forall f :: 0 <= f < total ==> s.used[f] == (f < requested || IsStackPage(f)))
  {
  }

  /** Text can be read and executed and not written; all other pages that are
      mapped can be read and written and not executed. */
  lemma BootedProtections(text: nat, data: nat, orig: nat, total: nat, requested: nat, v: nat)
    requires text <= data <= orig <= requested < KSTACK_FIRST_PAGE && KSTACK_LIMIT_PAGE <= total
    requires v < MAX_PT_LEN
    ensures var s := Booted(text, data, orig, total, requested).s;
            if text <= v < data then s.pt[v] == Pte(true, 1 + 4, v)
            else if data <= v < requested || 126 <= v < 128 then s.pt[v] == Pte(true, 1 + 2, v)
            else s.pt[v] == Pte(false, 0, 0)
  {
  }

  lemma BootedSafe(text: nat, data: nat, orig: nat, total: nat, requested: nat)
    requires text <= data <= orig <= requested < KSTACK_FIRST_PAGE && KSTACK_LIMIT_PAGE <= total
    ensures var k := Booted(text, data, orig, total, requested); Safe(k.s, k.held)
  {
    BootedPages(text, data, orig, total, requested);
    hide Booted;
    HeldAtBoot(text, data, orig, total, requested);
  }

  lemma HeldAtBoot(text: nat, data: nat, orig: nat, total: nat, requested: nat)
    requires text <= data <= orig <= requested < KSTACK_FIRST_PAGE && KSTACK_LIMIT_PAGE <= total
    ensures var k := Booted(text, data, orig, total, requested);
            k.brk == requested && forall f: nat :: f in k.held <==> f < text
  {
  }

  /** The machine boot hands over: sound, nothing leaked, clear above the break,
      so that every law about runs applies to it. */
  lemma BootIsSound(text: nat, data: nat, orig: nat, total: nat, requested: nat)
    requires text <= data <= orig <= requested < KSTACK_FIRST_PAGE && KSTACK_LIMIT_PAGE <= total
    ensures var k := Booted(text, data, orig, total, requested);
            && Sound(k, orig) && NoLeaks(k) && ClearAbove(k) && OutOfReach(k)
  {
    var k := Booted(text, data, orig, total, requested);
    BootedPages(text, data, orig, total, requested);
    BootedSafe(text, data, orig, total, requested);
    HeldAtBoot(text, data, orig, total, requested);
    hide Booted, Safe;
    forall f: nat ensures !Leaked(k.s, k.held, f) {
      if f < total && k.s.used[f] && f !in k.held {
        assert k.s.pt[f].valid && k.s.pt[f].pfn == f;
      }
    }
  }
}
