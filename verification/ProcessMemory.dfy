/** The memory of a process: its directory with the user stack, and its heap, which HeapMemory_expandUser
    grows and shrinks page by page. */
module ProcessMemory {
  import opened AccessModes
  import opened FrameOwnership
  import HeapMemory
  import opened HeapPages
  import opened Options
  import opened Paging
  import opened VirtualMemory

  const USER_STACK_BASE_VADDR := 0xFFBF_E000

  /** The result of growing or shrinking: an address, a kernel panic, or a loop that has left the heap. */
  datatype Outcome = At(address: int) | Panic | Overrun

  /** The assertion against heap overflow adds in 32 bits: it lets a sum pass that wraps, and then the
      loop goes over the user stack and the self-map up to the end of the address space. */
  lemma AssertionWraps(top: int, size: int)
    requires USER_HEAP_BASE_VADDR <= top <= USER_HEAP_TOP_VADDR && 0 <= size < 0x8000_0000
    ensures (top + size) % 0x1_0000_0000 < USER_HEAP_TOP_VADDR <==>
              top + size < USER_HEAP_TOP_VADDR || top + size >= 0x1_0000_0000
    ensures (0xF000_0000 + 0x2000_0000) % 0x1_0000_0000 < USER_HEAP_TOP_VADDR
    ensures PageOf(USER_HEAP_TOP_VADDR) == PageOf(USER_STACK_BASE_VADDR) == Page(1022, 0x3FE) &&
              PageOf(0xFFFF_F000) == Page(SELF, SELF)
  {
  }

  /** The assertion against underflow subtracts the negative size: it stops exactly the shrinking whose
      amount added to the heap top wraps, and no other, so it stops some that would stay in the heap. */
  lemma UnderflowAssertion(top: int, size: int)
    requires USER_HEAP_BASE_VADDR <= top <= USER_HEAP_TOP_VADDR && -0x8000_0000 <= size < 0
    ensures (top - size) % 0x1_0000_0000 >= USER_HEAP_BASE_VADDR <==> top - size < 0x1_0000_0000
    ensures (0xF000_0000 + 0x1000_0000) % 0x1_0000_0000 < USER_HEAP_BASE_VADDR <= 0xF000_0000 - 0x1000_0000
  {
    if top - size >= 0x1_0000_0000 {
      assert (top - size) % 0x1_0000_0000 == top - size - 0x1_0000_0000;
    }
  }

  /** The program can touch its stack and every page of its heap up to the top, and nothing of the bottom
      4 MB, of the kernel heap and of its page tables. */
  ghost predicate Touchable(m: Phys, d: int, top: int) {
    && UserPage(m, d, PageOf(USER_STACK_BASE_VADDR))
    && (forall q | Normal(q) && USER_HEAP_BASE_VADDR <= Address(q) < top :: UserPage(m, d, q))
    && (forall j | 512 <= j < SELF && TableOf(m, d, j).Some? :: Get(m, d, j).user)
    && (forall j | (j == 0 || 128 <= j < 256 || j == SELF) && TableOf(m, d, j).Some? :: !Get(m, d, j).user)
  }

  lemma KernelUntouched(m: Phys, d: int, top: int, q: Page)
    requires Touchable(m, d, top) && (q.pde == 0 || 128 <= q.pde < 256 || q.pde == SELF)
    ensures !UserPage(m, d, q)
  {
    EntryTable(m, d, q.pde);
  }

  lemma EntryPresent(m: Phys, d: int, q: Page)
    ensures TableOf(m, d, q.pde).Some? <==> Get(m, d, q.pde).present
    ensures EntryOf(m, d, q).Some? <==> TableOf(m, d, q.pde).Some?
  {
  }

  lemma PageStaysTouchable(m: Phys, m': Phys, dirs: set<int>, d: int, lo: int, hi: int, q: Page)
    requires UserPage(m, d, q) && HeapModes(m, m', dirs, lo, hi) && d in dirs
    requires Normal(q) && !(lo <= Address(q) < hi) && q != WINDOW0 && q != WINDOW1
    ensures UserPage(m', d, q)
  {
    WalkEntry(m, d, q);
    hide Walk, EntryOf, Address, Normal;
  }

  lemma StackAddress(k: int, d: int)
    ensures Address(PageOf(USER_STACK_BASE_VADDR)) == USER_HEAP_TOP_VADDR
  {
  }

  lemma HeapPageHigh(q: Page)
    requires Normal(q) && USER_HEAP_BASE_VADDR <= Address(q)
    ensures 512 <= q.pde < SELF && q != WINDOW0 && q != WINDOW1
  {
  }

  lemma TablesStayUser(m: Phys, m': Phys, dirs: set<int>, d: int, lo: int, hi: int)
    requires HeapModes(m, m', dirs, lo, hi) && d in dirs
    ensures forall j | TableOf(m, d, j).Some? :: Get(m', d, j) == Get(m, d, j)
  {
  }

  /** Growing by pages that programs can touch, or shrinking, keeps all that. */
  lemma GrownTouchable(m: Phys, m': Phys, dirs: set<int>, d: int, top: int, pages: nat)
    requires Touchable(m, d, top) && HeapModes(m, m', dirs, top, top + pages * 0x1000) && d in dirs && Wf(m, dirs)
    requires HeapMode(m, m', d, top, top + pages * 0x1000, true)
    requires TablesOf(m', d) == HeapMemory.TablesAfter(TablesOf(m, d), top, pages)
    requires USER_HEAP_BASE_VADDR <= top && top + pages * 0x1000 <= USER_HEAP_TOP_VADDR
    ensures Touchable(m', d, top + pages * 0x1000)
  {
    var top' := top + pages * 0x1000;
    StackAddress(0, d);
    StackPage(0, d);
    PageStaysTouchable(m, m', dirs, d, top, top', PageOf(USER_STACK_BASE_VADDR));
    TablesStayUser(m, m', dirs, d, top, top');
    assert TableOf(m, d, SELF).Some?;
    forall j | 512 <= j < SELF && TableOf(m', d, j).Some? ensures Get(m', d, j).user {
      hide TableOf, EntryOf, Address;
    }
    forall j | (j == 0 || 128 <= j < 256 || j == SELF) && TableOf(m', d, j).Some? ensures !Get(m', d, j).user {
      if j != SELF { NoNewKernelTable(m, m', d, top, pages, j); }
      hide TableOf, EntryOf, Address;
    }
    forall q | Normal(q) && USER_HEAP_BASE_VADDR <= Address(q) < top' ensures UserPage(m', d, q) {
      HeapPageHigh(q);
      if Address(q) < top {
        PageStaysTouchable(m, m', dirs, d, top, top', q);
      } else {
        EntryPresent(m', d, q);
      }
      hide TableOf, EntryOf, Address, Normal;
    }
    hide *;
    MakeTouchable(m', d, top');
  }

  lemma NoNewKernelTable(m: Phys, m': Phys, d: int, top: int, pages: nat, j: int)
    requires TablesOf(m', d) == HeapMemory.TablesAfter(TablesOf(m, d), top, pages)
    requires USER_HEAP_BASE_VADDR <= top && (j == 0 || 128 <= j < 256) && TableOf(m', d, j).Some?
    ensures TableOf(m, d, j).Some?
  {
    hide TableOf;
    assert j in TablesOf(m', d);
  }

  lemma ShrunkTouchable(m: Phys, m': Phys, dirs: set<int>, d: int, top': int, top: int)
    requires Touchable(m, d, top) && HeapModes(m, m', dirs, top', top) && d in dirs && Wf(m, dirs)
    requires TablesOf(m', d) <= TablesOf(m, d) + {HeapMemory.WINDOW_TABLE}
    requires USER_HEAP_BASE_VADDR <= top' <= top <= USER_HEAP_TOP_VADDR
    ensures Touchable(m', d, top')
  {
    StackAddress(0, d);
    StackPage(0, d);
    PageStaysTouchable(m, m', dirs, d, top', top, PageOf(USER_STACK_BASE_VADDR));
    TablesStayUser(m, m', dirs, d, top', top);
    assert TableOf(m, d, SELF).Some?;
    forall j | (512 <= j < SELF || j == 0 || 128 <= j < 256) && TableOf(m', d, j).Some?
      ensures Get(m', d, j) == Get(m, d, j) && TableOf(m, d, j).Some?
    {
      hide TableOf;
      assert j in TablesOf(m', d);
    }
    forall q | Normal(q) && USER_HEAP_BASE_VADDR <= Address(q) < top' ensures UserPage(m', d, q) {
      HeapPageHigh(q);
      PageStaysTouchable(m, m', dirs, d, top', top, q);
      hide TableOf, EntryOf, Address, Normal;
    }
    hide UserPage, TableOf, EntryOf, Address, Normal, PageOf;
    MakeTouchable(m', d, top');
  }

  lemma MakeTouchable(m: Phys, d: int, top: int)
    requires UserPage(m, d, PageOf(USER_STACK_BASE_VADDR))
    requires forall q | Normal(q) && USER_HEAP_BASE_VADDR <= Address(q) < top :: UserPage(m, d, q)
    requires forall j | 512 <= j < SELF && TableOf(m, d, j).Some? :: Get(m, d, j).user
    requires forall j | (j == 0 || 128 <= j < 256 || j == SELF) && TableOf(m, d, j).Some? :: !Get(m, d, j).user
    ensures Touchable(m, d, top)
  {
  }

  class Process {
    var pageDir: int
    var userHeapTop: int

    constructor (pageDir: int)
      ensures this.pageDir == pageDir && userHeapTop == USER_HEAP_BASE_VADDR
    {
      this.pageDir := pageDir;
      userHeapTop := USER_HEAP_BASE_VADDR;
    }

    ghost predicate Valid(vmm: VMM, kernelDir: int)
      reads this, vmm
      ensures Valid(vmm, kernelDir) <==>
              && HeapReady(vmm, kernelDir, USER_HEAP_BASE_VADDR, USER_HEAP_TOP_VADDR, userHeapTop)
              && vmm.cr3 == pageDir && pageDir != kernelDir && Touchable(vmm.mem, pageDir, userHeapTop)
    {
      && HeapReady(vmm, kernelDir, USER_HEAP_BASE_VADDR, USER_HEAP_TOP_VADDR, userHeapTop)
      && vmm.cr3 == pageDir && pageDir != kernelDir && Touchable(vmm.mem, pageDir, userHeapTop)
    }

    /** The frames that growing the heap takes. */
    ghost function Demand(vmm: VMM, size: int): nat
      requires USER_HEAP_BASE_VADDR <= userHeapTop <= USER_HEAP_TOP_VADDR && size >= 0
      reads this, vmm
    {
      HeapMemory.FrameDemand(TablesOf(vmm.mem, pageDir), userHeapTop, PagesUp(userHeapTop, size))
    }

    /** HeapMemory_expandUser, for the running process. */
    method ExpandUser(vmm: VMM, size: int, ghost kernelDir: int) returns (r: Outcome)
      requires Valid(vmm, kernelDir) && size % 0x1000 == 0 && -0x8000_0000 <= size < 0x8000_0000
      modifies this`userHeapTop, vmm`mem, vmm`tlb, vmm`frames
      ensures size >= 0 ==>
                && (r.Panic? <==> USER_HEAP_TOP_VADDR <= old(userHeapTop) + size < 0x1_0000_0000 ||
                                    |old(vmm.frames)| < old(Demand(vmm, size)))
                && (r.Overrun? <==> old(userHeapTop) + size >= 0x1_0000_0000 &&
                                      |old(vmm.frames)| >= old(Demand(vmm, size)))
      ensures size < 0 ==>
                && (r.Panic? <==> old(userHeapTop) + size < USER_HEAP_BASE_VADDR ||
                                    old(userHeapTop) - size >= 0x1_0000_0000)
                && !r.Overrun?
      ensures !r.Panic? ==> Valid(vmm, kernelDir)
      ensures !r.Panic? ==> userHeapTop == if r.At? then old(userHeapTop) + size else USER_HEAP_TOP_VADDR
      ensures r.At? ==> r.address == if size >= 0 then old(userHeapTop) else userHeapTop
      ensures !r.Panic? && size >= 0 ==>
                && HeapGrown(old(vmm.mem), vmm.mem, vmm.dirs, old(vmm.frames), pageDir, old(userHeapTop), userHeapTop)
                && HeapClean(old(vmm.mem), vmm.mem, vmm.dirs, old(vmm.frames), vmm.frames, pageDir, old(userHeapTop),
                  userHeapTop)
                && |vmm.frames| == |old(vmm.frames)| - old(Demand(vmm, size))
                && vmm.frames == old(vmm.frames)[..|vmm.frames|]
      ensures r.At? && size < 0 ==>
                && HeapShrunk(old(vmm.mem), vmm.mem, vmm.dirs, pageDir, userHeapTop, old(userHeapTop))
                && DataKept(old(vmm.mem), vmm.mem, vmm.dirs)
                && vmm.frames == old(vmm.frames) + AfterFirst(
                  FramesDown(old(vmm.mem), pageDir, old(userHeapTop), userHeapTop), old(WindowDemand(vmm.mem, pageDir)))
      ensures !r.Panic? ==> OthersStay(old(vmm.mem), vmm.mem, vmm.dirs, pageDir)
    {
      hide *;
      UserBounds();
      ghost var m0, k, top := vmm.mem, kernelDir, userHeapTop;
      var ok;
      if size >= 0 {
        if (userHeapTop + size) % 0x1_0000_0000 >= USER_HEAP_TOP_VADDR {
          return Panic;
        }
        AssertionWraps(userHeapTop, size);
        DemandIs(vmm, size);
        var ret, pages := userHeapTop, PagesUp(userHeapTop, size);
        PagesUpIs(userHeapTop, size);
        ok, userHeapTop := GrowHeap(vmm, k, USER_HEAP_BASE_VADDR, USER_HEAP_TOP_VADDR, userHeapTop, true, pages);
        if !ok {
          return Panic;
        }
        GrownTouchable(m0, vmm.mem, vmm.dirs, pageDir, top, pages);
        GrownAlone(m0, vmm.mem, vmm.dirs, k, old(vmm.frames), vmm.frames, pageDir, top, userHeapTop);
        return if ret + size >= 0x1_0000_0000 then Overrun else At(ret);
      } else {
        UnderflowAssertion(userHeapTop, size);
        if (userHeapTop - size) % 0x1_0000_0000 < USER_HEAP_BASE_VADDR {
          return Panic;
        }
        ok, userHeapTop := ShrinkHeap(vmm, k, USER_HEAP_BASE_VADDR, USER_HEAP_TOP_VADDR, userHeapTop, (-size) / 0x1000);
        if !ok {
          return Panic;
        }
        ShrunkTouchable(m0, vmm.mem, vmm.dirs, pageDir, userHeapTop, top);
        ShrunkAlone(m0, vmm.mem, vmm.dirs, k, vmm.frames, pageDir, userHeapTop, top);
        return At(userHeapTop);
      }
    }

    lemma DemandIs(vmm: VMM, size: int)
      requires USER_HEAP_BASE_VADDR <= userHeapTop <= USER_HEAP_TOP_VADDR && size >= 0
      ensures Demand(vmm, size)
           == HeapMemory.FrameDemand(TablesOf(vmm.mem, pageDir), userHeapTop, PagesUp(userHeapTop, size))
    {
    }
  }

  /** The pages that the loop maps before it ends, or before it leaves the heap when the sum wraps. */
  function PagesUp(top: int, size: int): nat
    requires USER_HEAP_BASE_VADDR <= top <= USER_HEAP_TOP_VADDR && size >= 0
  {
    if top + size >= 0x1_0000_0000 then (USER_HEAP_TOP_VADDR - top) / 0x1000 else size / 0x1000
  }

  lemma PagesUpIs(top: int, size: int)
    requires USER_HEAP_BASE_VADDR <= top <= USER_HEAP_TOP_VADDR && size >= 0 && top % 0x1000 == 0 && size % 0x1000 == 0
    ensures top + PagesUp(top, size) * 0x1000 == if top + size >= 0x1_0000_0000 then USER_HEAP_TOP_VADDR else top + size
  {
  }

  /** The translations of every other directory stay. */
  ghost predicate OthersStay(m: Phys, m': Phys, dirs: set<int>, d: int) {
    forall x, q | x in dirs && x != d && Normal(q) :: Walk(m', x, q) == Walk(m, x, q)
  }

  lemma GrownAlone(m: Phys, m': Phys, dirs: set<int>, k: int, free: seq<int>, free': seq<int>, d: int, lo: int, hi: int)
    requires HeapGrown(m, m', dirs, free, d, lo, hi) && HeapMapped(m', d, USER_HEAP_BASE_VADDR, hi)
    requires Owned(m', dirs, k, free') && d in dirs && USER_HEAP_BASE_VADDR <= lo
    ensures OthersStay(m, m', dirs, d)
  {
    forall x, q | x in dirs && x != d && Normal(q) ensures Walk(m', x, q) == Walk(m, x, q) {
      if lo <= Address(q) < hi {
        WalkHasTable(m', d, q);
        UserHeapAlone(m', dirs, k, free', d, x, q);
      }
      hide Walk, TableOf, Address;
    }
  }

  lemma ShrunkAlone(m: Phys, m': Phys, dirs: set<int>, k: int, free': seq<int>, d: int, lo: int, hi: int)
    requires HeapShrunk(m, m', dirs, d, lo, hi) && HeapMapped(m, d, USER_HEAP_BASE_VADDR, hi)
    requires TablesOf(m, d) <= TablesOf(m', d)
    requires Owned(m', dirs, k, free') && d in dirs && USER_HEAP_BASE_VADDR <= lo && hi <= USER_HEAP_TOP_VADDR
    ensures OthersStay(m, m', dirs, d)
  {
    forall x, q | x in dirs && x != d && Normal(q) ensures Walk(m', x, q) == Walk(m, x, q) {
      if lo <= Address(q) < hi {
        WalkHasTable(m, d, q);
        assert q.pde in TablesOf(m, d);
        UserHeapAlone(m', dirs, k, free', d, x, q);
      }
      hide Walk, TableOf, Address;
    }
  }

  /** The memory side of ProcessManager_newProcess: a directory that shares the kernel's page tables and
      has a user stack on a frame that was free, and nothing else. */
  method NewProcess(vmm: VMM, kernelDir: int) returns (p: Process?)
    requires vmm.Inv() && vmm.WindowsClosed() && Owned(vmm.mem, vmm.dirs, kernelDir, vmm.frames) &&
              kernelDir in vmm.dirs
    modifies vmm`mem, vmm`tlb, vmm`frames, vmm`dirs
    ensures p != null ==>
              && fresh(p) && p.userHeapTop == USER_HEAP_BASE_VADDR && p.pageDir != kernelDir
              && vmm.Inv() && vmm.WindowsClosed() && Owned(vmm.mem, vmm.dirs, kernelDir, vmm.frames)
              && p.pageDir !in old(vmm.dirs) && vmm.dirs == old(vmm.dirs) + {p.pageDir}
              && StartsIn(old(vmm.mem), vmm.mem, old(vmm.dirs), old(vmm.frames), kernelDir, p.pageDir)
    ensures p != null <==> |old(vmm.frames)| >= 3 + old(WindowDemand(vmm.mem, vmm.cr3))
    ensures p != null ==> |vmm.frames| == |old(vmm.frames)| - 3 - old(WindowDemand(vmm.mem, vmm.cr3))
    ensures p != null ==> Touchable(vmm.mem, p.pageDir, p.userHeapTop)
    ensures p != null ==> TablesOf(vmm.mem, p.pageDir) == KernelTables(old(TablesOf(vmm.mem, kernelDir))) + {1022}
  {
    hide *;
    ghost var m0, dirs0, free0 := vmm.mem, vmm.dirs, vmm.frames;
    var ok, dir := vmm.CreatePageDirectory(kernelDir);
    if !ok {
      return null;
    }
    ghost var m1, free1 := vmm.mem, vmm.frames;
    ok := vmm.MapKernel(dir, kernelDir);
    if !ok {
      return null;
    }
    ghost var m2, free2 := vmm.mem, vmm.frames;
    if free2 != [] { PoppedIsUnused(m2, vmm.dirs, kernelDir, free2); }
    var uStack := vmm.AllocateFrame();
    if uStack == 0 {
      return null;
    }
    ghost var free3 := vmm.frames;
    PoppedIs(free2, free3, uStack);
    InPrefixes(free0, free1, free2, uStack);
    StackPage(kernelDir, dir);
    ok := vmm.MapPage(dir, USER_STACK_BASE_VADDR, uStack, true);
    if !ok {
      return null;
    }
    MappedNow(m2, vmm.mem, vmm.dirs, dir, PageOf(USER_STACK_BASE_VADDR), uStack);
    MapKeepsOwned(m2, vmm.mem, vmm.dirs, kernelDir, free3, vmm.frames, vmm.cr3, dir, PageOf(USER_STACK_BASE_VADDR),
      uStack);
    MakeStartsIn(m0, m1, m2, vmm.mem, dirs0, kernelDir, free0, vmm.frames, dir, uStack);
    FirstTables(m0, m1, m2, vmm.mem, dirs0, vmm.cr3, free3, kernelDir, dir, PageOf(USER_STACK_BASE_VADDR));
    FirstTouchable(m2, vmm.mem, vmm.dirs, vmm.cr3, free3, dir, TablesOf(m0, kernelDir), uStack);
    p := new Process(dir);
  }

  /** A new process can touch its stack. */
  lemma FirstTouchable(m2: Phys, m3: Phys, dirs: set<int>, c: int, free: seq<int>, d: int, had: set<int>, f: int)
    requires TablesOf(m3, d) == KernelTables(had) + {1022} && d in dirs
    requires ModesKept(m2, m3, dirs, WINDOWS + {PageOf(USER_STACK_BASE_VADDR)})
    requires EntryOf(m3, d, PageOf(USER_STACK_BASE_VADDR)) == Some(Entry(true, true, f)) && Get(m3, d, 1022).user
    requires forall i | IsKernelPart(i) && TableOf(m2, d, i).Some? :: !Get(m2, d, i).user
    requires Wf(m2, dirs) && !Get(m2, d, SELF).user
    requires TablesGrown(m2, m3, dirs, free, c, d, PageOf(USER_STACK_BASE_VADDR).pde)
    ensures Touchable(m3, d, USER_HEAP_BASE_VADDR)
  {
    StackPage(0, d);
    EntryPresent(m3, d, PageOf(USER_STACK_BASE_VADDR));
    forall j | 512 <= j < SELF && TableOf(m3, d, j).Some? ensures j == 1022 {
      hide TableOf;
      assert j in TablesOf(m3, d);
    }
    SelfStays(m2, m3, dirs, WINDOWS + {PageOf(USER_STACK_BASE_VADDR)}, d);
    forall j | (j == 0 || 128 <= j < 256) && TableOf(m3, d, j).Some? ensures !Get(m3, d, j).user {
      assert j in TablesOf(m3, d);
      PresentStays(m2, m3, dirs, WINDOWS + {PageOf(USER_STACK_BASE_VADDR)}, d, j);
      hide TableOf;
    }
    hide TableOf, EntryOf, PageOf;
    MakeTouchable(m3, d, USER_HEAP_BASE_VADDR);
  }

  /** The page tables of the kernel that are shared with every process. */
  function KernelTables(tables: set<int>): set<int> { set i | i in tables && IsKernelPart(i) }

  /** A new directory has the kernel's page tables, and that of the user stack. */
  lemma FirstTables(m0: Phys, m1: Phys, m2: Phys, m3: Phys, dirs: set<int>, c: int, free: seq<int>, k: int, d: int,
        p: Page)
    requires d !in dirs && c in dirs && k in dirs && p.pde == 1022
    requires forall x, j | x in dirs && !(x == c && j == 3) :: TableOf(m1, x, j) == TableOf(m0, x, j)
    requires forall j | 0 <= j < SELF :: TableOf(m1, d, j) == None
    requires forall j | IsKernelPart(j) :: TableOf(m2, d, j) == TableOf(m2, k, j)
    requires forall x, j | x in dirs + {d} && !(x == d && IsKernelPart(j)) && !(x == c && j == 3) ::
               TableOf(m2, x, j) == TableOf(m1, x, j)
    requires TablesGrown(m2, m3, dirs + {d}, free, c, d, p.pde) && Walk(m3, d, p).Some?
    ensures TablesOf(m3, d) == KernelTables(TablesOf(m0, k)) + {1022}
  {
    WalkHasTable(m3, d, p);
    KernelParts();
    forall i | 0 <= i < SELF
      ensures TableOf(m3, d, i).Some? <==> i == 1022 || (IsKernelPart(i) && TableOf(m0, k, i).Some?)
    {
      hide TableOf, Walk;
    }
    hide TableOf, Walk, IsKernelPart;
  }

  lemma InPrefixes(a: seq<int>, b: seq<int>, c: seq<int>, f: int)
    requires |b| <= |a| && b == a[..|b|] && |c| <= |b| && c == b[..|c|] && f in c
    ensures f in a
  {
    assert c <= b <= a;
  }

  lemma StackPage(k: int, d: int)
    ensures var p := PageOf(USER_STACK_BASE_VADDR);
            && p == Page(1022, 0x3FE) && Normal(p) && p != WINDOW0 && p != WINDOW1 && !IsKernelPart(p.pde)
            && 256 <= p.pde < SELF && Aligned(USER_STACK_BASE_VADDR)
  {
  }

  /** The page that was remapped in d was remapped nowhere else. */
  lemma OnlyHere(m: Phys, m': Phys, dirs: set<int>, k: int, free: seq<int>, d: int, p: Page, to: Option<int>, x: int,
        q: Page)
    requires Remapped(m, m', dirs, d, p, to) && Owned(m', dirs, k, free) && d in dirs && x in dirs && Normal(q)
    requires 256 <= p.pde < SELF && TableOf(m', d, p.pde).Some?
    ensures Walk(m', x, q) == if x == d && q == p then to else Walk(m, x, q)
  {
    hide Walk, TableOf;
  }

  lemma MakeStartsIn(m0: Phys, m1: Phys, m2: Phys, m3: Phys, dirs: set<int>, k: int, free: seq<int>, free3: seq<int>,
        d: int, f: int)
    requires d !in dirs && k in dirs && f in free && Owned(m3, dirs + {d}, k, free3)
    requires forall j | 0 <= j < SELF :: TableOf(m1, d, j) == None
    requires forall x, q | x in dirs && Normal(q) :: Walk(m1, x, q) == Walk(m0, x, q)
    requires forall x, q | x in dirs + {d} && Normal(q) ::
               Walk(m2, x, q) == if x == d && IsKernelPart(q.pde) then Walk(m1, k, q) else Walk(m1, x, q)
    requires Remapped(m2, m3, dirs + {d}, d, PageOf(USER_STACK_BASE_VADDR), Some(f))
    ensures StartsIn(m0, m3, dirs, free, k, d)
  {
    var p := PageOf(USER_STACK_BASE_VADDR);
    StackPage(k, d);
    MappedNow(m2, m3, dirs + {d}, d, p, f);
    WalkHasTable(m3, d, p);
    forall q | Normal(q) ensures Walk(m1, d, q) == None {
    }
    forall x, q | x in dirs + {d} && Normal(q)
      ensures Walk(m3, x, q) == if x == d && q == p then Some(f) else Walk(m2, x, q)
    {
      OnlyHere(m2, m3, dirs + {d}, k, free3, d, p, Some(f), x, q);
    }
    hide *;
    StartsFrom(m0, m1, m2, m3, dirs, k, free, d, f);
  }

  lemma StartsFrom(m0: Phys, m1: Phys, m2: Phys, m3: Phys, dirs: set<int>, k: int, free: seq<int>, d: int, f: int)
    requires d !in dirs && k in dirs && f in free
    requires forall q | Normal(q) :: Walk(m1, d, q) == None
    requires forall x, q | x in dirs && Normal(q) :: Walk(m1, x, q) == Walk(m0, x, q)
    requires forall x, q | x in dirs + {d} && Normal(q) ::
               Walk(m2, x, q) == if x == d && IsKernelPart(q.pde) then Walk(m1, k, q) else Walk(m1, x, q)
    requires forall x, q | x in dirs + {d} && Normal(q) ::
               Walk(m3, x, q) == if x == d && q == PageOf(USER_STACK_BASE_VADDR) then Some(f) else Walk(m2, x, q)
    ensures StartsIn(m0, m3, dirs, free, k, d)
  {
    hide Walk, PageOf, IsKernelPart, Normal;
  }

  /** The translations of a new directory d: the kernel's page tables and a user stack. */
  ghost predicate StartsIn(m: Phys, m': Phys, dirs: set<int>, free: seq<int>, k: int, d: int) {
    exists f | f in free ::
      && (forall q | Normal(q) ::
            Walk(m', d, q) == if q == PageOf(USER_STACK_BASE_VADDR) then Some(f)
                              else if IsKernelPart(q.pde) then Walk(m, k, q) else None)
      && forall x, q | x in dirs && Normal(q) :: Walk(m', x, q) == Walk(m, x, q)
  }

  lemma UserBounds()
    ensures USER_HEAP_BASE_VADDR == 0x8000_0000 && USER_HEAP_TOP_VADDR == 0xFFBF_E000
  {
  }
}
