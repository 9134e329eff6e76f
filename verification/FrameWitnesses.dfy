/** Runs from a booted kernel that show what the laws about runs cannot promise. */
module FrameWitnesses {
  import opened Machine
  import opened FrameModel
  import opened FrameRuns
  import opened FrameBoot

  const ORIG: nat := 123

  /** The smallest machine: one region of memory, frames 123 to 125 free. */
  ghost function Small(): Kernel { Booted(0, 0, ORIG, 128, ORIG) }

  /** The free frames are those of `free`. */
  ghost predicate FreeAre(s: Frames, free: set<nat>) {
    forall f :: 0 <= f < |s.used| ==> (s.used[f] <==> f !in free)
  }

  lemma SmallIsSound()
    ensures Sound(Small(), ORIG) && NoLeaks(Small())
    ensures var k := Small();
            && |k.s.pt| == MAX_PT_LEN && |k.s.used| == 128 && k.brk == ORIG && k.held == {}
            && FreeAre(k.s, {123, 124, 125})
            && k.s.pt[126].valid && k.s.pt[126].pfn == 126
            && (forall v :: 0 <= v < MAX_PT_LEN && k.s.pt[v].valid ==> k.s.pt[v].pfn == v && !(123 <= v < 126))
  {
    BootIsSound(0, 0, ORIG, 128, ORIG);
    BootedPages(0, 0, ORIG, 128, ORIG);
    HeldAtBoot(0, 0, ORIG, 128, ORIG);
    hide Booted, Sound, NoLeaks;
    assert Small().held == {};
  }

  /** FreeFrame of a frame of the kernel stack leaves the stack on a frame that
      is marked free. */
  lemma ReleaseOfMappedFrame()
    ensures Sound(Small(), ORIG) && !Sound(Step(Small(), Release(126), ORIG), ORIG)
  {
    SmallIsSound();
    assert InPages(Small().s, 0, |Small().s.pt|, 126);
    hide Small, Sound;
    ReleaseSoundIff(Small(), 126, ORIG);
  }

  lemma AllocStep(k: Kernel, free: set<nat>, f: nat)
    requires |k.s.pt| == MAX_PT_LEN && k.brk < KSTACK_FIRST_PAGE && FreeAre(k.s, free)
    requires f in free && f < |k.s.used| && forall g :: g in free ==> f <= g
    ensures Step(k, Alloc, ORIG) == Kernel(k.s.(used := k.s.used[f := true]), k.brk, k.held + {f})
    ensures FreeAre(Step(k, Alloc, ORIG).s, free - {f})
  {
    FirstFreeIs(k.s.used, f);
  }

  lemma GrowOne(s: Frames, lo: nat, hi: nat, free: set<nat>, f: nat)
    requires lo < hi <= |s.pt| && FreeAre(s, free)
    requires f in free && f < |s.used| && forall g :: g in free ==> f <= g
    ensures var t := Frames(s.used[f := true], s.pt[lo := HeapPage(f)]);
            Grow(s, lo, hi) == Grow(t, lo + 1, hi) && FreeAre(t, free - {f})
  {
    FirstFreeIs(s.used, f);
  }

  lemma GrowNone(s: Frames, lo: nat, hi: nat)
    requires lo <= hi <= |s.pt| && FreeAre(s, {})
    ensures Grow(s, lo, hi) == (s, lo == hi)
  {
    FirstFreeIs(s.used, |s.used|);
  }

  /** A grow by two pages with one free frame maps one page and fails. */
  lemma FailedGrow(k: Kernel)
    requires |k.s.pt| == MAX_PT_LEN && k.brk == 123 && |k.s.used| == 128 && FreeAre(k.s, {125})
    ensures Step(k, SetBrk(125), ORIG) ==
            Kernel(Frames(k.s.used[125 := true], k.s.pt[123 := HeapPage(125)]), 123, k.held)
    ensures FreeAre(Step(k, SetBrk(125), ORIG).s, {})
  {
    GrowOne(k.s, 123, 125, {125}, 125);
    assert {125} - {125} == {};
    GrowNone(Frames(k.s.used[125 := true], k.s.pt[123 := HeapPage(125)]), 124, 125);
    hide Grow;
  }

  /** The grow that writes over page 123. */
  lemma LastGrow(k: Kernel)
    requires |k.s.pt| == MAX_PT_LEN && k.brk == 123 && |k.s.used| == 128 && FreeAre(k.s, {123})
    requires k.s.pt[123] == HeapPage(125)
    ensures FindsMapped(k, SetBrk(124), ORIG)
    ensures Step(k, SetBrk(124), ORIG) ==
            Kernel(Frames(k.s.used[123 := true], k.s.pt[123 := HeapPage(123)]), 124, k.held)
  {
    GrowOne(k.s, 123, 124, {123}, 123);
    GrowAccount(k.s, 123, 124);
    assert Reach(k.s, 123, 124) == 124;
    assert k.s.pt[123].valid;
  }

  lemma RunCons(k: Kernel, op: Op, rest: seq<Op>)
    requires |k.s.pt| == MAX_PT_LEN && k.brk < KSTACK_FIRST_PAGE
    ensures var ops, l := [op] + rest, Step(k, op, ORIG);
            && Run(k, ops, ORIG) == Run(l, rest, ORIG)
            && (LegalRun(k, ops, ORIG) <==> Legal(k, op) && LegalRun(l, rest, ORIG))
            && (SomeGrowFindsMapped(k, ops, ORIG) <==>
                FindsMapped(k, op, ORIG) || SomeGrowFindsMapped(l, rest, ORIG))
  {
    hide Step, Legal, FindsMapped;
    assert ([op] + rest)[1..] == rest;
  }

  lemma RunNone(k: Kernel)
    requires |k.s.pt| == MAX_PT_LEN && k.brk < KSTACK_FIRST_PAGE
    ensures Run(k, [], ORIG) == k && LegalRun(k, [], ORIG) && !SomeGrowFindsMapped(k, [], ORIG)
  {
  }

  lemma ReleaseStep(k: Kernel)
    requires |k.s.pt| == MAX_PT_LEN && k.brk < KSTACK_FIRST_PAGE
    requires |k.s.used| == 128 && FreeAre(k.s, {})
    ensures Step(k, Release(123), ORIG) == Kernel(k.s.(used := k.s.used[123 := false]), k.brk, k.held - {123})
    ensures FreeAre(Step(k, Release(123), ORIG).s, {123})
  {
  }

  /** Two frames handed out, a grow that fails, one frame given back. */
  lemma FirstFour(k: Kernel) returns (k1: Kernel, k2: Kernel, k3: Kernel, k4: Kernel)
    requires |k.s.pt| == MAX_PT_LEN && |k.s.used| == 128 && k.brk == 123 && k.held == {}
    requires FreeAre(k.s, {123, 124, 125})
    ensures forall j :: j in {k1, k2, k3, k4} ==> |j.s.pt| == MAX_PT_LEN && j.brk == 123
    ensures k1 == Step(k, Alloc, ORIG) && k2 == Step(k1, Alloc, ORIG) && k3 == Step(k2, SetBrk(125), ORIG)
    ensures 123 in k3.held && k4 == Step(k3, Release(123), ORIG)
    ensures FreeAre(k4.s, {123}) && |k4.s.used| == 128 && k4.s.used[125] && k4.held == {124}
    ensures k4.s.pt == k.s.pt[123 := HeapPage(125)]
  {
    hide FreeAre, Step, Grow;
    k1 := Step(k, Alloc, ORIG);
    AllocStep(k, {123, 124, 125}, 123);
    assert {123, 124, 125} - {123} == {124, 125};
    k2 := Step(k1, Alloc, ORIG);
    AllocStep(k1, {124, 125}, 124);
    assert {124, 125} - {124} == {125};
    k3 := Step(k2, SetBrk(125), ORIG);
    FailedGrow(k2);
    k4 := Step(k3, Release(123), ORIG);
    ReleaseStep(k3);
    assert {123, 124} - {123} == {124};
  }

  /** Two frames handed out, a grow that fails, one frame given back, and the
      grow that now succeeds: it writes over page 123, and frame 125 is lost. */
  lemma LeakAfterFailedGrow()
    ensures Sound(Small(), ORIG) && NoLeaks(Small())
    ensures var ops := [Alloc, Alloc, SetBrk(125), Release(123), SetBrk(124)];
            var l := Run(Small(), ops, ORIG);
            LegalRun(Small(), ops, ORIG) && SomeGrowFindsMapped(Small(), ops, ORIG) && Leaked(l.s, l.held, 125)
  {
    SmallIsSound();
    hide Small, Sound, NoLeaks, FreeAre, Step, Leaked, FindsMapped, Run, LegalRun, SomeGrowFindsMapped;
    var k := Small();
    var k1, k2, k3, k4 := FirstFour(k);
    LastGrow(k4);
    var l := Step(k4, SetBrk(124), ORIG);
    Lost(l.s, l.held);
    RunNone(l);
    var o1, o2, o3, o4 := [SetBrk(124)], [Release(123), SetBrk(124)], [SetBrk(125), Release(123), SetBrk(124)],
                          [Alloc, SetBrk(125), Release(123), SetBrk(124)];
    assert o1 == [SetBrk(124)] + [] && o2 == [Release(123)] + o1 && o3 == [SetBrk(125)] + o2 && o4 == [Alloc] + o3;
    assert [Alloc, Alloc, SetBrk(125), Release(123), SetBrk(124)] == [Alloc] + o4;
    RunCons(k4, SetBrk(124), []);
    RunCons(k3, Release(123), o1);
    RunCons(k2, SetBrk(125), o2);
    RunCons(k1, Alloc, o3);
    RunCons(k, Alloc, o4);
  }

  lemma Lost(s: Frames, held: set<nat>)
    requires |s.pt| == MAX_PT_LEN && |s.used| == 128 && s.used[125] && 125 !in held
    requires s.pt[123] == HeapPage(123)
    requires forall v :: 0 <= v < MAX_PT_LEN && s.pt[v].valid && v != 123 ==> s.pt[v].pfn == v && !(123 <= v < 126)
    ensures Leaked(s, held, 125)
  {
  }
}
