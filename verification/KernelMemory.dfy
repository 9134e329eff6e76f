/** memory.c: the frame bitmap, the Region 0 page table and the kernel break as
    mutable state, each call proved against the model on values. */
module KernelMemory {
  import opened Machine
  import opened FrameModel
  import opened FrameRuns
  import opened FrameBoot

  const ERROR: int := -1
  const SUCCESS: int := 0

  class KernelFrames {
    // what the boot ROM reports
    const origBrkPage: nat
    const firstTextPage: nat
    const firstDataPage: nat

    const frameUsed: array<bool>
    var totalFrames: nat
    var vmEnabled: bool
    var region0: array?<Pte>
    var kernelBrkPage: nat
    var requestedBrkPage: nat

    ghost predicate Valid()
      reads this
    {
      && firstTextPage <= firstDataPage <= origBrkPage < KSTACK_FIRST_PAGE
      && frameUsed.Length == MAX_PHYSICAL_FRAMES
      && KSTACK_LIMIT_PAGE <= totalFrames <= MAX_PHYSICAL_FRAMES
      && (region0 != null ==> region0.Length == MAX_PT_LEN)
      && origBrkPage <= kernelBrkPage < KSTACK_FIRST_PAGE
      && origBrkPage <= requestedBrkPage < KSTACK_FIRST_PAGE
    }

    constructor (text: nat, data: nat, orig: nat)
      requires text <= data <= orig < KSTACK_FIRST_PAGE
      ensures firstTextPage == text && firstDataPage == data && origBrkPage == orig
      ensures frameUsed.Length == MAX_PHYSICAL_FRAMES && fresh(frameUsed)
      ensures !vmEnabled && region0 == null
    {
      firstTextPage, firstDataPage, origBrkPage := text, data, orig;
      frameUsed := new bool[MAX_PHYSICAL_FRAMES];
      totalFrames, vmEnabled, region0 := 0, false, null;
      kernelBrkPage, requestedBrkPage := 0, 0;
    }

    ghost function Used(): seq<bool>
      requires Valid()
      reads this, frameUsed
    {
      frameUsed[..totalFrames]
    }

    ghost function View(): Frames
      requires Valid() && region0 != null
      reads this, frameUsed, region0
    {
      Frames(Used(), region0[..])
    }

    method IsFrameFree(pfn: int) returns (free: bool)
      requires Valid()
      ensures free == (0 <= pfn < totalFrames && !frameUsed[pfn])
    {
      if pfn < 0 || pfn >= totalFrames {
        return false;
      }
      return !frameUsed[pfn];
    }

    method MarkFrameUsed(pfn: int)
      requires Valid()
      modifies frameUsed
      ensures Used() == if 0 <= pfn < totalFrames then old(Used())[pfn := true] else old(Used())
    {
      if pfn < 0 || pfn >= totalFrames {
        return;
      }
      frameUsed[pfn] := true;
    }

    method FreeFrame(pfn: int)
      requires Valid()
      modifies frameUsed
      ensures Used() == if 0 <= pfn < totalFrames then old(Used())[pfn := false] else old(Used())
    {
      if pfn < 0 || pfn >= totalFrames {
        return;
      }
      frameUsed[pfn] := false;
    }

    method AllocFrame() returns (pfn: int)
      requires Valid()
      modifies frameUsed
      ensures var k := FirstFree(old(Used()));
              if k == totalFrames then pfn == ERROR && Used() == old(Used())
              else pfn == k && Used() == old(Used())[k := true]
    {
      var i := 0;
      while i < totalFrames
        invariant 0 <= i <= totalFrames
        invariant forall j :: 0 <= j < i ==> frameUsed[j]
        modifies {}
      {
        var free := IsFrameFree(i);
        if free {
          break;
        }
        i := i + 1;
      }
      FirstFreeIs(Used(), i);
      if i == totalFrames {
        return ERROR;
      }
      MarkFrameUsed(i);
      return i;
    }

    method MapPage(pt: array<Pte>, vpn: int, pfn: int, prot: nat) returns (rc: int)
      requires Valid() && pt.Length == MAX_PT_LEN
      modifies pt
      ensures if 0 <= vpn < MAX_PT_LEN && 0 <= pfn < totalFrames
              then rc == SUCCESS && pt[..] == old(pt[..])[vpn := Pte(true, prot, pfn)]
              else rc == ERROR && pt[..] == old(pt[..])
    {
      if vpn < 0 || vpn >= MAX_PT_LEN {
        return ERROR;
      }
      if pfn < 0 || pfn >= totalFrames {
        return ERROR;
      }
      pt[vpn] := Pte(true, prot, pfn);
      return SUCCESS;
    }

    /** The first page boundary at or above an address. */
    static function AddrToVpn(addr: nat): (page: nat)
      ensures LeastPage(addr, page)
    {
      var q := UpToPage(addr) / PAGESIZE;
      assert UpToPage(addr) == q * 0x2000;
      q
    }

    static ghost predicate LeastPage(addr: nat, page: nat) { addr <= page * 0x2000 < addr + 0x2000 }

    /** Some set of frames handed out makes the kernel sound. */
    ghost predicate IsSound()
      requires Valid() && region0 != null
      reads this, frameUsed, region0
    {
      exists held :: Sound(Kernel(View(), kernelBrkPage, held), origBrkPage)
    }

    /** Every byte of the kernel heap below `addr` can be read and written. */
    ghost predicate HeapBelow(addr: nat)
      requires Valid() && region0 != null
      reads this, region0
    {
      forall a :: origBrkPage * 0x2000 <= a < addr ==>
        a / 0x2000 < MAX_PT_LEN && region0[a / 0x2000].valid && region0[a / 0x2000].prot == 1 + 2
    }

    /** The mapping loop. MapPage cannot fail here: the pages lie below the
        kernel stack. */
    method GrowHeap(newPage: nat) returns (ok: bool)
      requires Valid() && region0 != null && kernelBrkPage <= newPage < KSTACK_FIRST_PAGE
      modifies frameUsed, region0
      ensures (View(), ok) == Grow(old(View()), kernelBrkPage, newPage)
    {
      var vpn := kernelBrkPage;
      while vpn < newPage
        invariant kernelBrkPage <= vpn <= newPage
        invariant Grow(old(View()), kernelBrkPage, newPage) == Grow(View(), vpn, newPage)
      {
        ghost var s := View();
        var pfn := AllocFrame();
        if pfn == ERROR {
          return false;
        }
        var rc := MapPage(region0, vpn, pfn, PROT_READ + PROT_WRITE);
        assert rc == SUCCESS;  // so the branch that gives the frame back is dead
        vpn := vpn + 1;
      }
      return true;
    }

    method ShrinkHeap(newPage: nat)
      requires Valid() && region0 != null && newPage <= kernelBrkPage
      modifies frameUsed, region0
      ensures View() == Shrink(old(View()), newPage, kernelBrkPage)
    {
      var vpn := newPage;
      while vpn < kernelBrkPage
        invariant newPage <= vpn <= kernelBrkPage
        invariant Shrink(old(View()), newPage, kernelBrkPage) == Shrink(View(), vpn, kernelBrkPage)
      {
        if region0[vpn].valid {
          FreeFrame(region0[vpn].pfn);
        }
        region0[vpn] := CLEAR;
        vpn := vpn + 1;
      }
    }

    static lemma OnlyPage(addr: nat, page: nat)
      requires LeastPage(addr, page)
      ensures forall q: nat :: LeastPage(addr, q) ==> q == page
    {
    }

    lemma SoundHeap(held: set<nat>, addr: nat)
      requires Valid() && region0 != null && LeastPage(addr, kernelBrkPage)
      requires Sound(Kernel(View(), kernelBrkPage, held), origBrkPage)
      ensures HeapBelow(addr)
    {
      forall a | origBrkPage * 0x2000 <= a < addr
        ensures a / 0x2000 < MAX_PT_LEN && region0[a / 0x2000].valid && region0[a / 0x2000].prot == 1 + 2
      {
        var v := a / 0x2000;
        assert View().pt[v].valid && View().pt[v].prot == 3;
      }
    }

    /** Before VM is on the request is only recorded; afterwards the call is one
        SetBrk step of the model. */
    method SetKernelBrk(addr: nat) returns (rc: int)
      requires Valid()
      modifies this`kernelBrkPage, this`requestedBrkPage, frameUsed, region0
      ensures Valid() && (rc == SUCCESS || rc == ERROR)
      // the page asked for, and exactly when it is refused
      ensures forall page: nat :: LeastPage(addr, page) ==>
                && (rc == SUCCESS ==> requestedBrkPage == page && (vmEnabled ==> kernelBrkPage == page))
                && (rc == ERROR <==>
                    || page < origBrkPage || 126 <= page
                    || (vmEnabled && region0 == null)
                    || (vmEnabled && page > old(kernelBrkPage) && FreeCount(old(Used())) < page - old(kernelBrkPage)))
      // what the caller may use afterwards
      ensures vmEnabled && region0 != null && rc == SUCCESS && old(region0 != null && IsSound()) ==>
                IsSound() && HeapBelow(addr)
      ensures var page := AddrToVpn(addr);
              if !InRange(page, origBrkPage) || (vmEnabled && region0 == null) then
                rc == ERROR && kernelBrkPage == old(kernelBrkPage) && requestedBrkPage == old(requestedBrkPage)
                && Used() == old(Used()) && (region0 != null ==> region0[..] == old(region0[..]))
              else if !vmEnabled then
                rc == SUCCESS && requestedBrkPage == page && kernelBrkPage == old(kernelBrkPage)
                && Used() == old(Used()) && (region0 != null ==> region0[..] == old(region0[..]))
              else
                forall held ::
                  var k := Step(Kernel(old(View()), old(kernelBrkPage), held), SetBrk(page), origBrkPage);
                  && View() == k.s && kernelBrkPage == k.brk
                  && (rc == SUCCESS <==> kernelBrkPage == page)
                  && (rc == ERROR ==> requestedBrkPage == old(requestedBrkPage))
                  && (rc == SUCCESS ==> requestedBrkPage == page)
    {
      hide LeastPage, FreeCount, Grow, Sound;
      var newPage := AddrToVpn(addr);
      OnlyPage(addr, newPage);
      if newPage < origBrkPage {
        return ERROR;
      }
      if newPage >= KSTACK_FIRST_PAGE {
        return ERROR;
      }
      if !vmEnabled {
        requestedBrkPage := newPage;
        return SUCCESS;
      }
      if region0 == null {
        return ERROR;
      }
      ghost var before, brk := View(), kernelBrkPage;
      if newPage > kernelBrkPage {
        GrowAccount(before, kernelBrkPage, newPage);
        var ok := GrowHeap(newPage);
        if !ok {
          return ERROR;
        }
      }
      if newPage < kernelBrkPage {
        ShrinkHeap(newPage);
      }
      kernelBrkPage := newPage;
      requestedBrkPage := newPage;
      if held :| Sound(Kernel(before, brk, held), origBrkPage) {
        StepSound(Kernel(before, brk, held), SetBrk(newPage), origBrkPage);
        SoundHeap(held, addr);
      }
      return SUCCESS;
    }

    // -------------------------------------------------------------------- runs

    static lemma PageAddress(page: nat)
      ensures AddrToVpn(page * PAGESIZE) == page
    {
      assert page * 0x2000 / 0x2000 == page;
      UpToPageMono(page * PAGESIZE, page * PAGESIZE);
    }

    /** The kernel of the model, given the frames that were handed out. */
    ghost function Current(held: set<nat>): (k: Kernel)
      requires Valid() && region0 != null
      reads this, frameUsed, region0
      ensures |k.s.pt| == MAX_PT_LEN && k.brk < KSTACK_FIRST_PAGE
    {
      Kernel(View(), kernelBrkPage, held)
    }

    /** Any one call of the running kernel is one step of the model. */
    method Call(op: Op, ghost held: set<nat>) returns (ghost left: set<nat>)
      requires Valid() && vmEnabled && region0 != null
      modifies this`kernelBrkPage, this`requestedBrkPage, frameUsed, region0
      ensures Valid() && Current(left) == Step(old(Current(held)), op, origBrkPage)
    {
      left := held;
      match op
      case Alloc =>
        var pfn := AllocFrame();
        left := if pfn == ERROR then held else held + {pfn};
      case Release(f) =>
        FreeFrame(f);
        left := if f < totalFrames then held - {f} else held;
      case SetBrk(page) =>
        PageAddress(page);
        var rc := SetKernelBrk(page * PAGESIZE);
    }

    /** Any run of calls of the running kernel is the run of the model, so all
        laws about runs are laws about the bitmap and the table in memory. */
    method RunCalls(ops: seq<Op>, ghost held: set<nat>) returns (ghost left: set<nat>)
      requires Valid() && vmEnabled && region0 != null
      modifies this`kernelBrkPage, this`requestedBrkPage, frameUsed, region0
      ensures Valid() && Current(left) == Run(old(Current(held)), ops, origBrkPage)
      ensures old(Sound(Current(held), origBrkPage) && HarmlessRun(Current(held), ops, origBrkPage)) ==>
                Sound(Current(left), origBrkPage)
    {
      hide Run, Step, Sound, HarmlessRun;
      ghost var k := Current(held);
      var i := 0;
      left := held;
      RunNext(k, ops, 0, origBrkPage);
      while i < |ops|
        invariant 0 <= i <= |ops| && Valid()
        invariant Run(k, ops, origBrkPage) == Run(Current(left), ops[i..], origBrkPage)
      {
        RunNext(Current(left), ops, i, origBrkPage);
        left := Call(ops[i], left);
        i := i + 1;
      }
      RunNext(Current(left), ops, i, origBrkPage);
      if Sound(k, origBrkPage) && HarmlessRun(k, ops, origBrkPage) {
        RunSound(k, ops, origBrkPage);
      }
    }

    // -------------------------------------------------------------------- boot

    /** The hardware has at least the memory of one region. */
    method InitPhysicalMemory(pmemSize: nat)
      requires firstTextPage <= firstDataPage <= origBrkPage < KSTACK_FIRST_PAGE
      requires frameUsed.Length == MAX_PHYSICAL_FRAMES && region0 == null && VMEM_REGION_SIZE <= pmemSize
      modifies this`totalFrames, this`kernelBrkPage, this`requestedBrkPage, frameUsed
      ensures Valid() && kernelBrkPage == requestedBrkPage == origBrkPage
      ensures totalFrames == if pmemSize / 0x2000 > 4096 then 4096 else pmemSize / 0x2000
      ensures Used() == BootUsed(origBrkPage, totalFrames)
    {
      totalFrames := pmemSize / PAGESIZE;
      if totalFrames > MAX_PHYSICAL_FRAMES {
        totalFrames := MAX_PHYSICAL_FRAMES;
      }
      forall i | 0 <= i < frameUsed.Length {
        frameUsed[i] := false;
      }
      kernelBrkPage := origBrkPage;
      requestedBrkPage := origBrkPage;
      var pfn := 0;
      while pfn < origBrkPage && pfn < totalFrames
        invariant 0 <= pfn <= origBrkPage
        invariant forall i :: 0 <= i < totalFrames ==> Used()[i] == (i < pfn)
        modifies frameUsed
      {
        MarkFrameUsed(pfn);
        pfn := pfn + 1;
      }
      pfn := KSTACK_FIRST_PAGE;
      while pfn < KSTACK_LIMIT_PAGE
        invariant KSTACK_FIRST_PAGE <= pfn <= KSTACK_LIMIT_PAGE
        invariant forall i :: 0 <= i < totalFrames ==>
                    Used()[i] == (i < origBrkPage || KSTACK_FIRST_PAGE <= i < pfn)
        modifies frameUsed
      {
        MarkFrameUsed(pfn);
        pfn := pfn + 1;
      }
    }

    /** Pages `lo` to `hi` on the frames of the same number. */
    method MapIdentity(pt: array<Pte>, lo: nat, hi: nat, prot: nat)
      requires Valid() && pt.Length == MAX_PT_LEN && lo <= hi <= MAX_PT_LEN
      modifies pt
      ensures forall v :: 0 <= v < MAX_PT_LEN ==>
                pt[v] == if lo <= v < hi then Pte(true, prot, v) else old(pt[v])
    {
      var vpn := lo;
      while vpn < hi
        invariant lo <= vpn <= hi
        invariant forall v :: 0 <= v < MAX_PT_LEN ==>
                    pt[v] == if lo <= v < vpn then Pte(true, prot, v) else old(pt[v])
      {
        ghost var before := pt[..];
        var rc := MapPage(pt, vpn, vpn, prot);
        assert forall v :: 0 <= v < MAX_PT_LEN ==> pt[..][v] == if v == vpn then Pte(true, prot, v) else before[v];
        vpn := vpn + 1;
      }
    }

    method BuildRegion0PageTable() returns (pt: array<Pte>)
      requires Valid() && kernelBrkPage == origBrkPage
      modifies this`region0
      ensures Valid() && fresh(pt) && region0 == pt
      ensures pt[..] == BootTable(firstTextPage, firstDataPage, origBrkPage)
    {
      pt := new Pte[MAX_PT_LEN](_ => CLEAR);
      MapIdentity(pt, firstTextPage, firstDataPage, PROT_READ + PROT_EXEC);
      MapIdentity(pt, firstDataPage, kernelBrkPage, PROT_READ + PROT_WRITE);
      MapIdentity(pt, KSTACK_FIRST_PAGE, KSTACK_LIMIT_PAGE, PROT_READ + PROT_WRITE);
      region0 := pt;
    }

    method SyncKernelBrkBeforeVM(pt: array<Pte>)
      requires Valid() && pt.Length == MAX_PT_LEN && kernelBrkPage <= requestedBrkPage
      modifies this`region0, this`kernelBrkPage, frameUsed, pt
      ensures Valid() && region0 == pt && kernelBrkPage == requestedBrkPage
      ensures View() == Sync(Frames(old(Used()), old(pt[..])), old(kernelBrkPage), requestedBrkPage)
    {
      hide Sync;
      region0 := pt;
      var vpn := kernelBrkPage;
      while vpn < requestedBrkPage
        invariant kernelBrkPage <= vpn <= requestedBrkPage
        invariant Sync(Frames(old(Used()), old(pt[..])), kernelBrkPage, requestedBrkPage) ==
                  Sync(View(), vpn, requestedBrkPage)
        modifies frameUsed, pt
      {
        SyncStep(View(), vpn, requestedBrkPage);
        MarkFrameUsed(vpn);
        var rc := MapPage(pt, vpn, vpn, PROT_READ + PROT_WRITE);
        vpn := vpn + 1;
      }
      SyncStep(View(), vpn, vpn);
      kernelBrkPage := requestedBrkPage;
    }

    /** KernelStart's order of calls, with the heap requests malloc makes in
        between: the kernel that VM is turned on for is the booted one. */
    method Boot(pmemSize: nat, requests: seq<nat>)
      requires firstTextPage <= firstDataPage <= origBrkPage < KSTACK_FIRST_PAGE
      requires frameUsed.Length == MAX_PHYSICAL_FRAMES && region0 == null && !vmEnabled
      requires VMEM_REGION_SIZE <= pmemSize
      modifies this, frameUsed
      ensures Valid() && vmEnabled && region0 != null && fresh(region0)
      ensures Kernel(View(), kernelBrkPage, Reserved(firstTextPage)) ==
              Booted(firstTextPage, firstDataPage, origBrkPage, totalFrames, kernelBrkPage)
      ensures var k := Kernel(View(), kernelBrkPage, Reserved(firstTextPage));
              Sound(k, origBrkPage) && NoLeaks(k) && ClearAbove(k) && OutOfReach(k)
    {
      InitPhysicalMemory(pmemSize);
      ghost var used := Used();
      var pt := BuildRegion0PageTable();
      ghost var table := pt[..];
      var i := 0;
      while i < |requests|
        invariant 0 <= i <= |requests| && Valid() && !vmEnabled && region0 == pt && kernelBrkPage == origBrkPage
        invariant Used() == used && pt[..] == table
      {
        var rc := SetKernelBrk(requests[i]);
        i := i + 1;
      }
      SyncKernelBrkBeforeVM(pt);
      vmEnabled := true;
      BootIsSound(firstTextPage, firstDataPage, origBrkPage, totalFrames, kernelBrkPage);
    }
  }
}
