/** From the memory map of the boot loader to the heap of the first process: what each part of the
    memory manager leaves behind is what the next one builds on. */
module Boot {
  import opened FrameOwnership
  import HeapMemory
  import opened HeapPages
  import opened Options
  import opened Paging
  import opened ProcessMemory
  import opened StackPMM
  import opened VirtualMemory

  /** What StackPMM_init has pushed is a stack of frames as the memory manager needs it: the assertion
      of freeFrame leaves only aligned ones. */
  lemma StackIsFrames(rs: seq<Region>, lo: int, hi: int, capacity: int)
    requires !Clash(rs, lo, hi) && PushAll([], Usable(rs, lo, hi), capacity).Some?
    ensures FramesApart(PushAll([], Usable(rs, lo, hi), capacity).value)
  {
    DistinctUnlessClash(rs, lo, hi);
    UsableKept(rs, lo, hi);
    PushedAll(Usable(rs, lo, hi), capacity);
    hide Usable, Clash, Kept;
  }

  /** Where the frame stack behind the kernel ends. */
  function StackEnd(rs: seq<Region>, kernelEnd: nat): nat { (kernelEnd + TotalFrames(rs) * 4) % 0x1_0000_0000 }

  /** StackPMM_init and VirtualMemory_init, for a map from which no frame is pushed twice. There is no
      memory manager when the frame stack trips over an assertion or has less than two frames. */
  method StartMemory(rs: seq<Region>, loadAddr: nat, kernelEnd: nat, m: Phys) returns (vmm: VMM?)
    requires !Clash(rs, loadAddr, StackEnd(rs, kernelEnd))
    ensures var hi := StackEnd(rs, kernelEnd);
            var stack := PushAll([], Usable(rs, loadAddr, hi), TotalFrames(rs));
            if stack.None? || |stack.value| < 2 then vmm == null
            else && vmm != null && fresh(vmm) && vmm.Inv() && vmm.WindowsClosed()
                 && Owned(vmm.mem, vmm.dirs, vmm.cr3, vmm.frames) && vmm.dirs == {vmm.cr3}
                 && vmm.frames + [stack.value[|stack.value| - 2], vmm.cr3] == Usable(rs, loadAddr, hi)
                 && TablesOf(vmm.mem, vmm.cr3) == {0} && WindowDemand(vmm.mem, vmm.cr3) == 1
  {
    hide *;
    var stack := Init(rs, loadAddr, kernelEnd);
    ghost var hi := StackEnd(rs, kernelEnd);
    EndIs(rs, kernelEnd);
    PushedAll(Usable(rs, loadAddr, hi), TotalFrames(rs));
    if stack.None? || |stack.value| < 2 {
      return null;
    }
    StackIsFrames(rs, loadAddr, hi, TotalFrames(rs));
    vmm := new VMM(m, stack.value);
    FirstTable(vmm.mem, vmm.cr3);
  }

  lemma FirstTable(m: Phys, d: int)
    requires forall j | 0 <= j < SELF :: TableOf(m, d, j).Some? <==> j == 0
    ensures TablesOf(m, d) == {0} && WindowDemand(m, d) == 1
  {
    hide TableOf;
    assert TableOf(m, d, 0).Some? && TableOf(m, d, 3).None?;
    assert forall i :: i in TablesOf(m, d) <==> i == 0;
  }

  lemma EndIs(rs: seq<Region>, kernelEnd: nat)
    ensures StackEnd(rs, kernelEnd) == (kernelEnd + TotalFrames(rs) * 4) % 0x1_0000_0000
  {
  }

  lemma PushedAll(s: seq<int>, capacity: int)
    ensures PushAll([], s, capacity).Some? ==> PushAll([], s, capacity).value == s
  {
    assert [] + s == s;
  }

  /** VirtualMemory_switchPageDir to a new process: its heap is in order. */
  method Enter(vmm: VMM, p: Process, ghost kernelDir: int, ghost m0: Phys, ghost dirs0: set<int>, ghost free0: seq<int>)
    requires vmm.Inv() && Owned(vmm.mem, vmm.dirs, kernelDir, vmm.frames)
    requires p.pageDir in vmm.dirs && p.pageDir != kernelDir && p.userHeapTop == USER_HEAP_BASE_VADDR
    requires StartsIn(m0, vmm.mem, dirs0, free0, kernelDir, p.pageDir)
    requires Touchable(vmm.mem, p.pageDir, p.userHeapTop)
    modifies vmm`cr3, vmm`tlb
    ensures p.Valid(vmm, kernelDir)
  {
    hide *;
    NothingAtFirst(m0, vmm.mem, dirs0, free0, kernelDir, p.pageDir);
    vmm.SwitchPageDir(p.pageDir);
  }

  lemma NothingAtFirst(m0: Phys, m: Phys, dirs: set<int>, free: seq<int>, k: int, d: int)
    requires StartsIn(m0, m, dirs, free, k, d) && d != k
    ensures HeapRange(k, d, USER_HEAP_BASE_VADDR, USER_HEAP_TOP_VADDR)
    ensures Walk(m, d, WINDOW0) == None && Walk(m, d, WINDOW1) == None
    ensures USER_HEAP_BASE_VADDR <= USER_HEAP_TOP_VADDR && USER_HEAP_BASE_VADDR % 0x1000 == 0
    ensures HeapMapped(m, d, USER_HEAP_BASE_VADDR, USER_HEAP_BASE_VADDR)
  {
    Windows();
    StackPage(k, d);
  }

  /** The pages of d between two addresses are mapped and read as zeros. */
  ghost predicate Zeros(m: Phys, d: int, lo: int, hi: int) {
    forall q, i | Normal(q) && lo <= Address(q) < hi :: Walk(m, d, q).Some? && Get(m, Walk(m, d, q).value, i) == ABSENT
  }

  /** The frames behind a first process with a heap of so many pages: a directory and a page table for
      the kernel, one for the windows, a directory and a page table and a stack for the process, and
      what its heap takes. */
  function FirstDemand(pages: nat): nat { 6 + HeapMemory.FrameDemand({0, 1022}, USER_HEAP_BASE_VADDR, pages) }

  /** The memory map, the memory manager, a first process and its first heap pages: every step finds
      what it needs, and exactly with frames enough the process gets a heap, of zeros. */
  method FirstHeap(rs: seq<Region>, loadAddr: nat, kernelEnd: nat, m: Phys, size: int) returns (vmm: VMM?, p: Process?,
        r: Outcome)
    requires !Clash(rs, loadAddr, StackEnd(rs, kernelEnd))
    requires 0 <= size < USER_HEAP_TOP_VADDR - USER_HEAP_BASE_VADDR && size % 0x1000 == 0 && size < 0x8000_0000
    ensures r.At? ==>
              && vmm != null && p != null && p.userHeapTop == USER_HEAP_BASE_VADDR + size
              && (exists k :: p.Valid(vmm, k))
              && Zeros(vmm.mem, p.pageDir, USER_HEAP_BASE_VADDR, p.userHeapTop)
    ensures var usable := Usable(rs, loadAddr, StackEnd(rs, kernelEnd));
            r.At? <==> PushAll([], usable, TotalFrames(rs)).Some? && |usable| >= FirstDemand(size / 0x1000)
  {
    hide *;
    UserBounds();
    PushedAll(Usable(rs, loadAddr, StackEnd(rs, kernelEnd)), TotalFrames(rs));
    DemandAtFirst(size);
    r, p := Panic, null;
    vmm := StartMemory(rs, loadAddr, kernelEnd, m);
    if vmm == null {
      return;
    }
    ghost var m0, dirs0, free0 := vmm.mem, vmm.dirs, vmm.frames;
    var kernelDir := vmm.cr3;
    p := NewProcess(vmm, kernelDir);
    if p == null {
      return;
    }
    TablesAtFirst();
    Enter(vmm, p, kernelDir, m0, dirs0, free0);
    ghost var m1, free1 := vmm.mem, vmm.frames;
    p.DemandIs(vmm, size);
    r := p.ExpandUser(vmm, size, kernelDir);
    if r.At? {
      HeapIsClean(m1, vmm.mem, vmm.dirs, free1, vmm.frames, p.pageDir, p.userHeapTop);
    }
  }

  lemma DemandAtFirst(size: int)
    requires 0 <= size < USER_HEAP_TOP_VADDR - USER_HEAP_BASE_VADDR
    ensures PagesUp(USER_HEAP_BASE_VADDR, size) == size / 0x1000
    ensures FirstDemand(size / 0x1000)
         == 6 + HeapMemory.FrameDemand({0, 1022}, USER_HEAP_BASE_VADDR, PagesUp(USER_HEAP_BASE_VADDR, size))
  {
  }

  lemma TablesAtFirst()
    ensures KernelTables({0}) + {1022} == {0, 1022}
  {
    assert forall i :: i in KernelTables({0}) <==> i == 0;
  }

  lemma HeapIsClean(m: Phys, m': Phys, dirs: set<int>, free: seq<int>, free': seq<int>, d: int, top: int)
    requires HeapMapped(m', d, USER_HEAP_BASE_VADDR, top) &&
              HeapClean(m, m', dirs, free, free', d, USER_HEAP_BASE_VADDR, top)
    ensures Zeros(m', d, USER_HEAP_BASE_VADDR, top)
  {
  }
}
