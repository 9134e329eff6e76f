/** Whole runs of the running kernel: frames handed out and taken back, and the
    kernel break moved, in any order, with failed grows and retries. */
module FrameRuns {
  import opened Machine
  import opened FrameModel

  /** `held` are the frames AllocFrame gave away and FreeFrame has not seen. */
  datatype Kernel = Kernel(s: Frames, brk: nat, held: set<nat>)

  datatype Op = Alloc | Release(f: nat) | SetBrk(page: nat)

  predicate InRange(page: nat, orig: nat) { orig <= page < KSTACK_FIRST_PAGE }

  /** A request above the break and in range. */
  predicate Grows(k: Kernel, op: Op, orig: nat) {
    op.SetBrk? && InRange(op.page, orig) && op.page > k.brk
  }

  predicate GrowFails(k: Kernel, page: nat)
    requires k.brk <= page <= |k.s.pt|
  {
    !Grow(k.s, k.brk, page).1
  }

  function Step(k: Kernel, op: Op, orig: nat): (l: Kernel)
    requires |k.s.pt| == MAX_PT_LEN && k.brk < KSTACK_FIRST_PAGE
    ensures |l.s.pt| == MAX_PT_LEN && l.brk < KSTACK_FIRST_PAGE
  {
    match op
    case Alloc =>
      var f := FirstFree(k.s.used);
      if f == |k.s.used| then k else Kernel(k.s.(used := k.s.used[f := true]), k.brk, k.held + {f})
    case Release(f) =>
      if f < |k.s.used| then Kernel(k.s.(used := k.s.used[f := false]), k.brk, k.held - {f}) else k
    case SetBrk(page) =>
      if !InRange(page, orig) then k
      else if page > k.brk then
        var (t, ok) := Grow(k.s, k.brk, page);
        Kernel(t, if ok then page else k.brk, k.held)
      else Kernel(Shrink(k.s, page, k.brk), page, k.held)
  }

  /** What holds after every step. */
  ghost predicate Sound(k: Kernel, orig: nat) {
    && |k.s.pt| == MAX_PT_LEN
    && orig <= k.brk < KSTACK_FIRST_PAGE
    && Safe(k.s, k.held)
    && Mapped(k.s, orig, k.brk)
  }

  /** Only a frame that was handed out is freed. */
  predicate Legal(k: Kernel, op: Op) { op.Release? ==> op.f in k.held }

  /** No frame of a page is freed. */
  ghost predicate Harmless(k: Kernel, op: Op) {
    op.Release? ==> !InPages(k.s, 0, |k.s.pt|, op.f)
  }

  lemma LegalIsHarmless(k: Kernel, op: Op, orig: nat)
    requires Sound(k, orig) && Legal(k, op)
    ensures Harmless(k, op)
  {
  }

  lemma GrowSound(k: Kernel, page: nat, orig: nat)
    requires Sound(k, orig) && k.brk < page < KSTACK_FIRST_PAGE
    ensures Sound(Step(k, SetBrk(page), orig), orig)
    ensures forall v :: 0 <= v < MAX_PT_LEN && !(orig <= v < KSTACK_FIRST_PAGE) ==>
              Step(k, SetBrk(page), orig).s.pt[v] == k.s.pt[v]
  {
    GrowSafe(k.s, k.held, k.brk, page);
    GrowEffect(k.s, k.brk, page);
    hide Safe, Grow, GrowEnd, InPages;
  }

  lemma ShrinkSound(k: Kernel, page: nat, orig: nat)
    requires Sound(k, orig) && orig <= page <= k.brk
    ensures Sound(Step(k, SetBrk(page), orig), orig)
    ensures forall v :: 0 <= v < MAX_PT_LEN && !(orig <= v < KSTACK_FIRST_PAGE) ==>
              Step(k, SetBrk(page), orig).s.pt[v] == k.s.pt[v]
  {
    ShrinkSafe(k.s, k.held, page, k.brk);
    ShrinkEffect(k.s, k.held, page, k.brk);
    hide Safe, Shrink, InPages;
  }

  lemma ReleaseSafe(s: Frames, held: set<nat>, f: nat)
    requires Safe(s, held) && f < |s.used| && !InPages(s, 0, |s.pt|, f)
    ensures Safe(s.(used := s.used[f := false]), held - {f})
  {
  }

  /** FreeFrame checks nothing, and keeps the kernel sound exactly when the
      frame is in no page. */
  lemma ReleaseSoundIff(k: Kernel, f: nat, orig: nat)
    requires Sound(k, orig) && f < |k.s.used|
    ensures Sound(Step(k, Release(f), orig), orig) <==> !InPages(k.s, 0, |k.s.pt|, f)
  {
    var l := Step(k, Release(f), orig);
    if v :| 0 <= v < |k.s.pt| && k.s.pt[v].valid && k.s.pt[v].pfn == f {
      assert l.s.pt[v].valid && !l.s.used[l.s.pt[v].pfn];
    } else {
      ReleaseSafe(k.s, k.held, f);
    }
  }

  lemma StepSound(k: Kernel, op: Op, orig: nat)
    requires Sound(k, orig) && Harmless(k, op)
    ensures Sound(Step(k, op, orig), orig)
    ensures forall v :: 0 <= v < MAX_PT_LEN && !(orig <= v < KSTACK_FIRST_PAGE) ==>
              Step(k, op, orig).s.pt[v] == k.s.pt[v]
  {
    match op
    case Alloc =>
      if FirstFree(k.s.used) < |k.s.used| { AllocIsFresh(k.s, k.held); }
    case Release(f) =>
      if f < |k.s.used| { ReleaseSafe(k.s, k.held, f); }
    case SetBrk(page) =>
      hide Sound;
      SoundBounds(k, orig);
      if InRange(page, orig) {
        if page > k.brk {
          GrowSound(k, page, orig);
        } else {
          ShrinkSound(k, page, orig);
        }
      }
  }

  function Run(k: Kernel, ops: seq<Op>, orig: nat): (l: Kernel)
    requires |k.s.pt| == MAX_PT_LEN && k.brk < KSTACK_FIRST_PAGE
    decreases |ops|
  {
    if ops == [] then k else Run(Step(k, ops[0], orig), ops[1..], orig)
  }

  /** The first of the calls that are left, and the rest. */
  lemma RunNext(k: Kernel, ops: seq<Op>, i: nat, orig: nat)
    requires |k.s.pt| == MAX_PT_LEN && k.brk < KSTACK_FIRST_PAGE && i <= |ops|
    ensures ops[0..] == ops
    ensures Run(k, ops[i..], orig) == if i == |ops| then k else Run(Step(k, ops[i], orig), ops[i + 1..], orig)
  {
    hide Step;
    assert i < |ops| ==> ops[i..][0] == ops[i] && ops[i..][1..] == ops[i + 1..];
  }

  ghost predicate LegalRun(k: Kernel, ops: seq<Op>, orig: nat)
    requires |k.s.pt| == MAX_PT_LEN && k.brk < KSTACK_FIRST_PAGE
    decreases |ops|
  {
    ops == [] || (Legal(k, ops[0]) && LegalRun(Step(k, ops[0], orig), ops[1..], orig))
  }

  ghost predicate HarmlessRun(k: Kernel, ops: seq<Op>, orig: nat)
    requires |k.s.pt| == MAX_PT_LEN && k.brk < KSTACK_FIRST_PAGE
    decreases |ops|
  {
    ops == [] || (Harmless(k, ops[0]) && HarmlessRun(Step(k, ops[0], orig), ops[1..], orig))
  }

  /** Frame safety over all runs that free no frame of a page: no two pages
      share a frame, every mapped or held frame is marked used, held frames are
      in no page; the kernel heap is mapped from end to end; text, data and
      stack pages never change. */
  lemma {:induction false} RunSound(k: Kernel, ops: seq<Op>, orig: nat)
    requires Sound(k, orig) && HarmlessRun(k, ops, orig)
    ensures Sound(Run(k, ops, orig), orig)
    ensures forall v :: 0 <= v < MAX_PT_LEN && !(orig <= v < KSTACK_FIRST_PAGE) ==>
              Run(k, ops, orig).s.pt[v] == k.s.pt[v]
    decreases |ops|
  {
    hide Sound, Step, Harmless;
    SoundBounds(k, orig);
    if ops == [] {
    } else {
      StepSound(k, ops[0], orig);
      SoundBounds(Step(k, ops[0], orig), orig);
      RunSound(Step(k, ops[0], orig), ops[1..], orig);
      SoundBounds(Run(k, ops, orig), orig);
    }
  }

  lemma SoundBounds(k: Kernel, orig: nat)
    requires Sound(k, orig)
    ensures |k.s.pt| == MAX_PT_LEN && orig <= k.brk < KSTACK_FIRST_PAGE
  {
  }

  // -------------------------------------------------------------- accounting

  function Total(k: Kernel): nat { FreeCount(k.s.used) + k.brk + |k.held| }

  /** What a step takes out of the account: the free frames at a failed grow. */
  function Loss(k: Kernel, op: Op, orig: nat): nat
    requires |k.s.pt| == MAX_PT_LEN && k.brk < KSTACK_FIRST_PAGE
  {
    if Grows(k, op, orig) && GrowFails(k, op.page)
    then FreeCount(k.s.used) else 0
  }

  function RunLoss(k: Kernel, ops: seq<Op>, orig: nat): nat
    requires |k.s.pt| == MAX_PT_LEN && k.brk < KSTACK_FIRST_PAGE
    decreases |ops|
  {
    if ops == [] then 0 else Loss(k, ops[0], orig) + RunLoss(Step(k, ops[0], orig), ops[1..], orig)
  }

  lemma AllocAccount(k: Kernel, orig: nat)
    requires Sound(k, orig)
    ensures Total(Step(k, Alloc, orig)) == Total(k)
  {
    hide FreeCount;
    var f := FirstFree(k.s.used);
    if f < |k.s.used| {
      AllocIsFresh(k.s, k.held);
      FreeCountUpdate(k.s.used, f, true);
    }
  }

  /** What a step brings back: a used frame that nobody held. */
  function Gain(k: Kernel, op: Op): nat {
    if op.Release? && op.f < |k.s.used| && k.s.used[op.f] && op.f !in k.held then 1 else 0
  }

  function RunGain(k: Kernel, ops: seq<Op>, orig: nat): nat
    requires |k.s.pt| == MAX_PT_LEN && k.brk < KSTACK_FIRST_PAGE
    decreases |ops|
  {
    if ops == [] then 0 else Gain(k, ops[0]) + RunGain(Step(k, ops[0], orig), ops[1..], orig)
  }

  lemma ReleaseAccount(k: Kernel, f: nat, orig: nat)
    requires Sound(k, orig)
    ensures Total(Step(k, Release(f), orig)) == Total(k) + Gain(k, Release(f))
  {
    hide FreeCount;
    if f < |k.s.used| {
      FreeCountUpdate(k.s.used, f, false);
      if f in k.held {
        assert k.held == (k.held - {f}) + {f};
      } else {
        assert k.held - {f} == k.held;
      }
    }
  }

  lemma StepAccount(k: Kernel, op: Op, orig: nat)
    requires Sound(k, orig)
    ensures Total(Step(k, op, orig)) + Loss(k, op, orig) == Total(k) + Gain(k, op)
  {
    match op
    case Alloc =>
      AllocAccount(k, orig);
    case Release(f) =>
      ReleaseAccount(k, f, orig);
    case SetBrk(page) =>
      hide FreeCount, Grow, Shrink, Safe;
      if InRange(page, orig) {
        if page > k.brk {
          GrowAccount(k.s, k.brk, page);
        } else {
          MappedPart(k.s, orig, page, k.brk);
          ShrinkAccount(k.s, k.held, page, k.brk);
        }
      }
  }

  lemma MappedPart(s: Frames, lo: nat, mid: nat, hi: nat)
    requires Mapped(s, lo, hi) && lo <= mid
    ensures Mapped(s, mid, hi)
  {
  }

  /** Free frames, break pages and held frames always add up to what they were,
      less the free frames that failed grows consumed, plus the frames that were
      freed though nobody held them. */
  lemma {:induction false} RunAccount(k: Kernel, ops: seq<Op>, orig: nat)
    requires Sound(k, orig) && HarmlessRun(k, ops, orig)
    ensures Total(Run(k, ops, orig)) + RunLoss(k, ops, orig) == Total(k) + RunGain(k, ops, orig)
    decreases |ops|
  {
    hide Sound, Step, Total, Loss, Gain, Harmless;
    SoundBounds(k, orig);
    if ops == [] {
    } else {
      StepAccount(k, ops[0], orig);
      StepSound(k, ops[0], orig);
      SoundBounds(Step(k, ops[0], orig), orig);
      RunAccount(Step(k, ops[0], orig), ops[1..], orig);
    }
  }

  // ------------------------------------------------------------------- leaks

  ghost predicate NoLeaks(k: Kernel) { forall f: nat :: !Leaked(k.s, k.held, f) }

  /** Before the call: a page that the grow is asked for and has free frames to
      reach is mapped, to frame `f`. */
  ghost predicate Overwrites(k: Kernel, op: Op, orig: nat, f: nat) {
    Grows(k, op, orig) && InPages(k.s, k.brk, Reach(k.s, k.brk, op.page), f)
  }

  /** One step loses a frame exactly by writing over its page, and finds a lost
      frame again exactly by FreeFrame of it. */
  lemma StepLeaks(k: Kernel, op: Op, orig: nat, f: nat)
    requires Sound(k, orig) && Harmless(k, op)
    ensures var l := Step(k, op, orig);
            Leaked(l.s, l.held, f) <==> (Leaked(k.s, k.held, f) && op != Release(f)) || Overwrites(k, op, orig, f)
  {
    var l := Step(k, op, orig);
    match op
    case Alloc =>
      SamePages(k.s, l.s, f);
    case Release(g) =>
      SamePages(k.s, l.s, f);
    case SetBrk(page) =>
      if InRange(page, orig) {
        if page > k.brk {
          GrowLeaks(k.s, k.held, k.brk, page, f);
        } else {
          ShrinkLeaksNothing(k.s, k.held, page, k.brk, f);
        }
      }
  }

  lemma SamePages(s: Frames, t: Frames, f: nat)
    requires s.pt == t.pt
    ensures InPages(s, 0, |s.pt|, f) <==> InPages(t, 0, |t.pt|, f)
  {
  }

  /** Some grow of the run writes over the page of `f`, and `f` is not freed
      after that. */
  ghost predicate Loses(k: Kernel, ops: seq<Op>, orig: nat, f: nat)
    requires |k.s.pt| == MAX_PT_LEN && k.brk < KSTACK_FIRST_PAGE
    decreases |ops|
  {
    ops != [] &&
    ((Overwrites(k, ops[0], orig, f) && Release(f) !in ops[1..]) || Loses(Step(k, ops[0], orig), ops[1..], orig, f))
  }

  /** Frames lost over a whole run, for every frame and every run that frees no
      frame of a page: exactly those lost before and those that a grow wrote
      over, and never freed since. */
  lemma {:induction false} RunLeaks(k: Kernel, ops: seq<Op>, orig: nat, f: nat)
    requires Sound(k, orig) && HarmlessRun(k, ops, orig)
    ensures var l := Run(k, ops, orig);
            Leaked(l.s, l.held, f) <==> (Leaked(k.s, k.held, f) && Release(f) !in ops) || Loses(k, ops, orig, f)
    decreases |ops|
  {
    hide Sound, Step, Leaked, Overwrites, Harmless;
    SoundBounds(k, orig);
    if ops == [] {
    } else {
      StepLeaks(k, ops[0], orig, f);
      StepSound(k, ops[0], orig);
      RunLeaks(Step(k, ops[0], orig), ops[1..], orig, f);
      assert ops == [ops[0]] + ops[1..];
    }
  }

  /** The grow finds a page mapped that it will write over. */
  ghost predicate FindsMapped(k: Kernel, op: Op, orig: nat)
    requires |k.s.pt| == MAX_PT_LEN
  {
    Grows(k, op, orig) && exists v :: k.brk <= v < Reach(k.s, k.brk, op.page) && k.s.pt[v].valid
  }

  ghost predicate SomeGrowFindsMapped(k: Kernel, ops: seq<Op>, orig: nat)
    requires |k.s.pt| == MAX_PT_LEN && k.brk < KSTACK_FIRST_PAGE
    decreases |ops|
  {
    ops != [] && (FindsMapped(k, ops[0], orig) || SomeGrowFindsMapped(Step(k, ops[0], orig), ops[1..], orig))
  }

  lemma FindsIsOverwrites(k: Kernel, op: Op, orig: nat)
    requires |k.s.pt| == MAX_PT_LEN
    ensures FindsMapped(k, op, orig) <==> exists f: nat :: Overwrites(k, op, orig, f)
  {
    if FindsMapped(k, op, orig) {
      var v :| k.brk <= v < Reach(k.s, k.brk, op.page) && k.s.pt[v].valid;
      assert Overwrites(k, op, orig, k.s.pt[v].pfn);
    }
  }

  /** A lost frame that nobody holds stays lost when only held frames are freed. */
  lemma {:induction false} LostStaysLost(k: Kernel, ops: seq<Op>, orig: nat, f: nat)
    requires Sound(k, orig) && LegalRun(k, ops, orig) && Leaked(k.s, k.held, f)
    ensures var l := Run(k, ops, orig); Leaked(l.s, l.held, f)
    decreases |ops|
  {
    if ops == [] {
    } else {
      var l := Step(k, ops[0], orig);
      LegalIsHarmless(k, ops[0], orig);
      StepLeaks(k, ops[0], orig, f);
      StepSound(k, ops[0], orig);
      assert ops[0] != Release(f);
      hide Step, Sound, Leaked;
      LostStaysLost(l, ops[1..], orig, f);
    }
  }

  /** The exact condition for runs that free only held frames: no frame is lost
      if and only if no grow of the run finds a page mapped that it will write
      over. */
  lemma {:induction false} NoLeaksIff(k: Kernel, ops: seq<Op>, orig: nat)
    requires Sound(k, orig) && LegalRun(k, ops, orig) && NoLeaks(k)
    ensures NoLeaks(Run(k, ops, orig)) <==> !SomeGrowFindsMapped(k, ops, orig)
    decreases |ops|
  {
    hide Sound, Step, Leaked, Overwrites, FindsMapped, Harmless;
    SoundBounds(k, orig);
    if ops == [] {
    } else {
      var l := Step(k, ops[0], orig);
      LegalIsHarmless(k, ops[0], orig);
      StepSound(k, ops[0], orig);
      FindsIsOverwrites(k, ops[0], orig);
      forall f: nat ensures Leaked(l.s, l.held, f) <==> Overwrites(k, ops[0], orig, f) {
        StepLeaks(k, ops[0], orig, f);
      }
      if FindsMapped(k, ops[0], orig) {
        var f: nat :| Overwrites(k, ops[0], orig, f);
        LostStaysLost(l, ops[1..], orig, f);
      } else {
        NoLeaksIff(l, ops[1..], orig);
      }
    }
  }

  /** Pages left mapped above the break by a failed grow are further away than
      there are free frames to reach them. */
  ghost predicate OutOfReach(k: Kernel) {
    forall v :: k.brk <= v < KSTACK_FIRST_PAGE && v < |k.s.pt| && k.s.pt[v].valid ==>
      FreeCount(k.s.used) <= v - k.brk
  }

  lemma StepOutOfReach(k: Kernel, op: Op, orig: nat)
    requires Sound(k, orig) && !op.Release? && OutOfReach(k)
    ensures OutOfReach(Step(k, op, orig)) && !FindsMapped(k, op, orig)
  {
    match op
    case Alloc =>
      var f := FirstFree(k.s.used);
      if f < |k.s.used| { FreeCountUpdate(k.s.used, f, true); }
    case SetBrk(page) =>
      if InRange(page, orig) {
        if page > k.brk {
          GrowEndIsReach(k.s, k.brk, page);
          GrowAccount(k.s, k.brk, page);
          GrowEffect(k.s, k.brk, page);
        } else {
          ShrinkAccount(k.s, k.held, page, k.brk);
          ShrinkEffect(k.s, k.held, page, k.brk);
        }
      }
  }

  /** Without FreeFrame no run loses track of a frame, failed grows included. */
  lemma {:induction false} RunLeaksNothing(k: Kernel, ops: seq<Op>, orig: nat)
    requires Sound(k, orig) && NoLeaks(k) && OutOfReach(k)
    requires forall op :: op in ops ==> !op.Release?
    ensures !SomeGrowFindsMapped(k, ops, orig) && NoLeaks(Run(k, ops, orig))
    decreases |ops|
  {
    hide Sound, Step, Leaked, OutOfReach, FindsMapped, Harmless;
    SoundBounds(k, orig);
    if ops == [] {
    } else {
      var l := Step(k, ops[0], orig);
      LegalIsHarmless(k, ops[0], orig);
      StepOutOfReach(k, ops[0], orig);
      StepSound(k, ops[0], orig);
      FindsIsOverwrites(k, ops[0], orig);
      forall f: nat ensures !Leaked(l.s, l.held, f) {
        StepLeaks(k, ops[0], orig, f);
      }
      RunLeaksNothing(l, ops[1..], orig);
    }
  }

  /** Pages above the break are clear, as after boot. */
  ghost predicate ClearAbove(k: Kernel) {
    forall v :: k.brk <= v < KSTACK_FIRST_PAGE && v < |k.s.pt| ==> k.s.pt[v] == CLEAR
  }

  ghost predicate NoFailedGrow(k: Kernel, ops: seq<Op>, orig: nat)
    requires |k.s.pt| == MAX_PT_LEN && k.brk < KSTACK_FIRST_PAGE
    decreases |ops|
  {
    ops == [] ||
    (!(Grows(k, ops[0], orig) && GrowFails(k, ops[0].page))
     && NoFailedGrow(Step(k, ops[0], orig), ops[1..], orig))
  }

  lemma StepClearAbove(k: Kernel, op: Op, orig: nat)
    requires Sound(k, orig) && ClearAbove(k) && (Grows(k, op, orig) ==> !GrowFails(k, op.page))
    ensures ClearAbove(Step(k, op, orig)) && !FindsMapped(k, op, orig)
  {
    match op
    case Alloc =>
    case Release(f) =>
    case SetBrk(page) =>
      if InRange(page, orig) {
        if page > k.brk {
          GrowEffect(k.s, k.brk, page);
        } else {
          ShrinkEffect(k.s, k.held, page, k.brk);
        }
      }
  }

  /** With FreeFrame no run without a failed grow loses track of a frame, and
      the pages above the break stay clear. */
  lemma {:induction false} CleanRun(k: Kernel, ops: seq<Op>, orig: nat)
    requires Sound(k, orig) && HarmlessRun(k, ops, orig) && NoLeaks(k) && ClearAbove(k)
    requires NoFailedGrow(k, ops, orig)
    ensures !SomeGrowFindsMapped(k, ops, orig)
    ensures NoLeaks(Run(k, ops, orig)) && ClearAbove(Run(k, ops, orig))
    decreases |ops|
  {
    hide Sound, Step, Leaked, ClearAbove, FindsMapped, Harmless;
    SoundBounds(k, orig);
    if ops == [] {
    } else {
      var l := Step(k, ops[0], orig);
      StepClearAbove(k, ops[0], orig);
      StepSound(k, ops[0], orig);
      FindsIsOverwrites(k, ops[0], orig);
      forall f: nat ensures !Leaked(l.s, l.held, f) {
        StepLeaks(k, ops[0], orig, f);
      }
      CleanRun(l, ops[1..], orig);
    }
  }
}
