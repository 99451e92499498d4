/** The virtual memory manager: page tables edited through the self-map of the current directory and
    two temporary windows, with a translation cache in between. */
module VirtualMemory {
  import opened AccessModes
  import opened FrameOwnership
  import opened Options
  import opened Paging

  const TEMPORARY_MAP_VADDR := 0xF0_0000
  const WINDOW0: Page := Page(3, 0x300)
  const WINDOW1: Page := Page(3, 0x301)

  lemma Windows()
    ensures PageOf(TEMPORARY_MAP_VADDR) == WINDOW0 && PageOf(TEMPORARY_MAP_VADDR + 0x1000) == WINDOW1
    ensures Normal(WINDOW0) && Normal(WINDOW1) && WINDOW0 != WINDOW1
    ensures WINDOW0.pde == 3 && WINDOW1.pde == 3 && SELF == 1023
    ensures Aligned(TEMPORARY_MAP_VADDR) && Aligned(TEMPORARY_MAP_VADDR + 0x1000)
  {
  }

  const WINDOWS: set<Page> := {WINDOW0, WINDOW1}

  lemma WindowPages()
    ensures WINDOWS == {WINDOW0, WINDOW1} && WINDOWS + {WINDOW0} == WINDOWS == WINDOWS + {WINDOW1}
  {
  }

  /** The frames that the windows take: one for their page table, the first time. */
  function WindowDemand(m: Phys, c: int): (n: nat)
    ensures n == if TableOf(m, c, 3).None? then 1 else 0
  {
    if TableOf(m, c, 3).None? then 1 else 0
  }

  /** The frames that opening the page table of directory dir at index i takes. */
  function TableDemand(m: Phys, c: int, dir: int, i: int): (n: nat)
    ensures n == WindowDemand(m, c) + (if TableOf(m, dir, i).None? && !(dir == c && i == 3) then 1 else 0)
  {
    WindowDemand(m, c) + (if TableOf(m, dir, i).None? && !(dir == c && i == 3) then 1 else 0)
  }

  class VMM {
    /** Physical memory, the directory in CR3, the translation cache, and the stack of free frames. */
    var mem: Phys
    var cr3: int
    var tlb: map<Page, int>
    var frames: seq<int>
    /** The live directories. */
    ghost var dirs: set<int>

    /** VirtualMemory_init: a directory from the frame stack, through whose entry 0 the bottom 4 MB but
        for page 0 are mapped to themselves, and which maps itself. */
    constructor (m: Phys, stack: seq<int>)
      requires |stack| >= 2 && FramesApart(stack)
      ensures Inv() && WindowsClosed() && dirs == {cr3} && Owned(mem, dirs, cr3, frames)
      ensures frames == stack[..|stack| - 2] && cr3 == stack[|stack| - 1]
      ensures forall i | 1 <= i < 1024 :: Walk(mem, cr3, Page(0, i)) == Some(0x1000 * i)
      ensures forall q | Normal(q) && q.pde != 0 :: Walk(mem, cr3, q) == None
      ensures forall j | 0 <= j < SELF :: TableOf(mem, cr3, j).Some? <==> j == 0
      ensures DataKept(m, mem, dirs)
    {
      var dir, first4MB := stack[|stack| - 1], stack[|stack| - 2];
      var tables := Clear(m, dir);
      var i := 1;
      while i < 1024
        invariant 1 <= i <= 1024 && forall j | 1 <= j < i :: Get(tables, first4MB, j) == Entry(true, false, 0x1000 * j)
        invariant forall f, j | f != first4MB :: Get(tables, f, j) == if f == dir then ABSENT else Get(m, f, j)
      {
        GetSet(tables, first4MB, i, Entry(true, false, 0x1000 * i));
        tables := Set(tables, first4MB, i, Entry(true, false, 0x1000 * i));
        i := i + 1;
      }
      GetSet(tables, dir, 0, Entry(true, false, first4MB));
      tables := Set(tables, dir, 0, Entry(true, false, first4MB));
      GetSet(tables, dir, SELF, Entry(true, false, dir));
      tables := Set(tables, dir, SELF, Entry(true, false, dir));
      StartTables(m, tables, dir, first4MB, stack);
      mem := tables;
      cr3 := dir;
      tlb := map[];
      frames := stack[..|stack| - 2];
      dirs := {dir};
    }

    /** Tables and translation cache are in order. */
    ghost predicate Paged()
      reads this
      ensures Paged() <==> Wf(mem, dirs) && cr3 in dirs && Cacheable(tlb) && Coherent(tlb, mem, cr3)
    {
      Wf(mem, dirs) && cr3 in dirs && Cacheable(tlb) && Coherent(tlb, mem, cr3)
    }

    /** The frame stack is in order. */
    ghost predicate Free()
      reads this
      ensures Free() <==> FreeOK(mem, dirs, frames)
    {
      FreeOK(mem, dirs, frames)
    }

    ghost predicate Inv()
      reads this
      ensures Inv() <==> Paged() && Free()
    {
      Paged() && Free()
    }

    /** A memory access to a page: through the cache, or by a walk whose result is cached. */
    method Translate(p: Page) returns (f: int)
      requires Paged() && Walk(mem, cr3, p).Some? && (Normal(p) || (p.pde == SELF && 0 <= p.pte < 1024))
      modifies this`tlb
      ensures Paged() && f == Walk(mem, cr3, p).value && tlb == old(tlb)[p := f]
    {
      if p in tlb {
        return tlb[p];
      }
      f := Walk(mem, cr3, p).value;
      tlb := tlb[p := f];
    }

    /** An entry read through the self-map: entry i of the current directory. */
    method LoadPde(i: int) returns (e: Entry)
      requires Paged() && 0 <= i < 1024
      modifies this`tlb
      ensures Paged() && e == Get(mem, cr3, i)
      ensures forall q | q in tlb :: q in old(tlb) || q.pde == SELF
    {
      SelfWalk(mem, dirs, cr3);
      var f := Translate(Page(SELF, SELF));
      e := Get(mem, f, i);
    }

    /** PhysicalMemory_allocateFrame: null when there is none. */
    method AllocateFrame() returns (f: int)
      requires Free()
      modifies this`frames
      ensures Free()
      ensures if old(frames) == [] then f == 0 && frames == [] else frames + [f] == old(frames)
      ensures f == 0 <==> old(frames) == []
      ensures f != 0 ==> f > 0 && Aligned(f) && f !in dirs && !IsTable(mem, dirs, f) && f !in frames
    {
      if frames == [] {
        return 0;
      }
      PopFree(mem, dirs, frames);
      f := frames[|frames| - 1];
      frames := frames[..|frames| - 1];
    }

    /** The part of VirtualMemory_quickMap that makes sure there is a page table. */
    method EnsureTable(i: int) returns (ok: bool)
      requires Paged() && 0 <= i < SELF && (Free() || TableOf(mem, cr3, i).Some?)
      modifies this`mem, this`tlb, this`frames
      ensures ok ==> Paged() && TableOf(mem, cr3, i).Some? && (old(Free()) ==> Free())
      ensures ok ==> if old(TableOf(mem, cr3, i)).Some? then mem == old(mem) && frames == old(frames)
                     else frames + [TableOf(mem, cr3, i).value] == old(frames)
      ensures ok ==> (forall x, j | x in dirs && !(x == cr3 && j == i) :: TableOf(mem, x, j) == old(TableOf(mem, x, j)))
      ensures ok ==> (forall x, q | x in dirs && Normal(q) :: Walk(mem, x, q) == old(Walk(mem, x, q)))
      ensures ok && old(TableOf(mem, cr3, i)).None? ==>
                forall x | x in dirs && x != cr3 :: TableOf(mem, x, i) != TableOf(mem, cr3, i)
      ensures ok ==> forall q | q in tlb :: q in old(tlb) || q.pde == SELF
      ensures ok ==> DataKept(old(mem), mem, dirs)
      ensures ok ==> ModesKept(old(mem), mem, dirs, {})
      ensures ok && old(TableOf(mem, cr3, i)).None? ==> !Get(mem, cr3, i).user
      ensures !ok <==> old(frames) == [] && old(TableOf(mem, cr3, i)).None?
    {
      hide *;
      NothingChanged(mem, dirs);
      DataStays(mem, dirs);
      SelfPage(i);
      EntryTable(mem, cr3, i);
      var pde := LoadPde(i);
      if !pde.present {
        var t := AllocateFrame();
        if t == 0 {
          return false;
        }
        HangAndClear(mem, dirs, cr3, i, t, frames);
        NothingChanged(Set(mem, cr3, i, Entry(true, false, t)), dirs);
        HangKeepsModes(mem, Set(mem, cr3, i, Entry(true, false, t)), dirs, cr3, i, t, false, {});
        SelfWalk(mem, dirs, cr3);
        var d := Translate(Page(SELF, SELF));
        HangOnlyStale(mem, dirs, cr3, cr3, i, t, false, tlb);
        mem := Set(mem, d, i, Entry(true, false, t));
        SelfWalkTable(mem, dirs, cr3, i);
        var g := Translate(Page(SELF, i));
        ClearTableStale(mem, dirs, cr3, t, tlb);
        mem := Clear(mem, g);
      }
      ok := true;
    }

    /** A page table entry of the current directory written through the self-map, and the cached
        translation of its page dropped. */
    method WritePte(p: Page, e: Entry)
      requires Paged() && Normal(p) && TableOf(mem, cr3, p.pde).Some?
      modifies this`mem, this`tlb
      ensures Paged() && (old(Free()) ==> Free())
      ensures mem == Set(old(mem), old(TableOf(mem, cr3, p.pde)).value, p.pte, e)
      ensures forall q | q in tlb :: q in old(tlb) || q.pde == SELF
      ensures forall x, i | x in dirs :: TableOf(mem, x, i) == old(TableOf(mem, x, i))
      ensures forall x, q | x in dirs && Normal(q) ::
                Walk(mem, x, q) == if q == p && TableOf(mem, x, p.pde) == TableOf(mem, cr3, p.pde) then Leaf(e)
                  else old(Walk(mem, x, q))
      ensures DataKept(old(mem), mem, dirs) && ModesKept(old(mem), mem, dirs, {p})
      ensures EntryOf(mem, cr3, p) == Some(e)
    {
      SelfWalkTable(mem, dirs, cr3, p.pde);
      var t := Translate(Page(SELF, p.pde));
      StoreKeepsModes(mem, dirs, cr3, p, e);
      StorePte(mem, dirs, cr3, p, e);
      StorePteStale(mem, dirs, cr3, cr3, p, e, tlb);
      if FreeOK(mem, dirs, frames) { FreeAfterPte(mem, Set(mem, t, p.pte, e), dirs, frames); }
      KeptByTableStore(mem, dirs, cr3, p.pde, p.pte, e);
      mem := Set(mem, t, p.pte, e);
      tlb := tlb - {p};
    }

    /** VirtualMemory_quickMap. */
    method QuickMap(virtualAddr: int, physicalAddr: int) returns (ok: bool)
      requires Paged() && Normal(PageOf(virtualAddr)) && Aligned(virtualAddr) && Aligned(physicalAddr)
      requires Free() || TableOf(mem, cr3, PageOf(virtualAddr).pde).Some?
      modifies this`mem, this`tlb, this`frames
      ensures ok ==>
                Paged() && (old(Free()) ==> Free()) && |old(frames)| - 1 <= |frames| <= |old(frames)| &&
                frames == old(frames)[..|frames|]
      ensures var p := PageOf(virtualAddr);
              ok ==> && TableOf(mem, cr3, p.pde).Some?
                     && (forall x, j | x in dirs && !(x == cr3 && j == p.pde) ::
                       TableOf(mem, x, j) == old(TableOf(mem, x, j)))
                     && (old(TableOf(mem, cr3, p.pde)).Some? ==>
                       TableOf(mem, cr3, p.pde) == old(TableOf(mem, cr3, p.pde)) && frames == old(frames))
                     && (forall x, q | x in dirs && Normal(q) ::
                           Walk(mem, x, q) == if q == p && TableOf(mem, x, p.pde) == TableOf(mem, cr3, p.pde)
                                              then Some(physicalAddr) else old(Walk(mem, x, q)))
                     && (old(TableOf(mem, cr3, p.pde)).None? ==>
                           && (forall x | x in dirs && x != cr3 :: TableOf(mem, x, p.pde) != TableOf(mem, cr3, p.pde))
                           && frames + [TableOf(mem, cr3, p.pde).value] == old(frames))
      ensures ok ==> forall q | q in tlb :: q in old(tlb) || q.pde == SELF
      ensures ok ==> DataKept(old(mem), mem, dirs)
      ensures ok ==> ModesKept(old(mem), mem, dirs, {PageOf(virtualAddr)})
      ensures ok ==> EntryOf(mem, cr3, PageOf(virtualAddr)) == Some(Entry(true, false, physicalAddr))
      ensures ok && old(TableOf(mem, cr3, PageOf(virtualAddr).pde)).None? ==>
                !Get(mem, cr3, PageOf(virtualAddr).pde).user
      ensures !ok <==> old(frames) == [] && old(TableOf(mem, cr3, PageOf(virtualAddr).pde)).None?
    {
      var p := PageOf(virtualAddr);
      ok := EnsureTable(p.pde);
      if ok {
        ghost var m1 := mem;
        WritePte(p, Entry(true, false, physicalAddr));
        KeptTwice(old(mem), m1, mem, dirs);
        ModesTwice(old(mem), m1, mem, dirs, {}, {p});
        PresentStays(m1, mem, dirs, {p}, cr3, p.pde);
      }
    }

    /** VirtualMemory_quickUnmap. */
    method QuickUnmap(virtualAddr: int)
      requires Paged() && Normal(PageOf(virtualAddr)) && Walk(mem, cr3, PageOf(virtualAddr)).Some? &&
                Aligned(virtualAddr)
      modifies this`mem, this`tlb
      ensures Paged() && (old(Free()) ==> Free())
      ensures forall x, i | x in dirs :: TableOf(mem, x, i) == old(TableOf(mem, x, i))
      ensures var p := PageOf(virtualAddr); mem == Set(old(mem), old(TableOf(mem, cr3, p.pde)).value, p.pte, ABSENT)
      ensures var p := PageOf(virtualAddr);
              forall x, q | x in dirs && Normal(q) ::
                Walk(mem, x, q) == if q == p && TableOf(mem, x, p.pde) == TableOf(mem, cr3, p.pde) then None
                  else old(Walk(mem, x, q))
      ensures DataKept(old(mem), mem, dirs) && ModesKept(old(mem), mem, dirs, {PageOf(virtualAddr)})
    {
      WritePte(PageOf(virtualAddr), ABSENT);
    }

    /** VirtualMemory_getPhysicalAddress: what the hardware walk finds. */
    method GetPhysicalAddress(virtualAddr: int) returns (f: int)
      requires Paged() && Normal(PageOf(virtualAddr)) && Walk(mem, cr3, PageOf(virtualAddr)).Some? &&
                Aligned(virtualAddr)
      modifies this`tlb
      ensures Paged() && Some(f) == Walk(mem, cr3, PageOf(virtualAddr))
    {
      var p := PageOf(virtualAddr);
      var pde := LoadPde(p.pde);
      SelfWalkTable(mem, dirs, cr3, p.pde);
      var t := Translate(Page(SELF, p.pde));
      f := Get(mem, t, p.pte).frame;
    }

    /** The part of VirtualMemory_mapPage that gives directory dir, seen through the first window, a
        cleared page table, seen through the second. */
    method GiveTable(dir: int, i: int, user: bool) returns (ok: bool)
      requires Inv() && dir in dirs && 0 <= i < SELF && TableOf(mem, dir, i) == None
      requires Walk(mem, cr3, WINDOW0) == Some(dir)
      modifies this`mem, this`tlb, this`frames
      ensures ok ==> Inv() && TableOf(mem, dir, i).Some? && frames + [TableOf(mem, dir, i).value] == old(frames)
      ensures ok ==> forall x, j | x in dirs && !(x == dir && j == i) :: TableOf(mem, x, j) == old(TableOf(mem, x, j))
      ensures ok ==> forall x, j | x in dirs && 0 <= j < SELF && TableOf(mem, x, j) == TableOf(mem, dir, i) ::
                x == dir && j == i
      ensures ok ==> forall x, q | x in dirs && Normal(q) &&
                !(q == WINDOW1 && TableOf(mem, x, 3) == TableOf(mem, cr3, 3)) ::
                       Walk(mem, x, q) == old(Walk(mem, x, q))
      ensures ok ==> DataKept(old(mem), mem, dirs)
      ensures ok ==> ModesKept(old(mem), mem, dirs, {WINDOW1}) && Get(mem, dir, i).user == user
      ensures !ok <==> old(frames) == []
    {
      hide *;
      Windows();
      WalkHasTable(mem, cr3, WINDOW0);
      var f := Translate(WINDOW0);
      var t := AllocateFrame();
      if t == 0 {
        return false;
      }
      HangOnly(mem, dirs, dir, i, t, user);
      HangOnlyStale(mem, dirs, cr3, dir, i, t, user, tlb);
      FreeAfterHang(mem, Set(mem, dir, i, Entry(true, user, t)), dirs, frames, dir, i, t);
      KeptByDirectoryStore(mem, dirs, dir, i, Entry(true, user, t));
      mem := Set(mem, f, i, Entry(true, user, t));
      ghost var m1 := mem;
      ok := QuickMap(TEMPORARY_MAP_VADDR + 0x1000, t);
      ghost var m2 := mem;
      KeptTwice(old(mem), m1, m2, dirs);
      var g := Translate(WINDOW1);
      ClearTable(mem, dirs, t);
      ClearTableStale(mem, dirs, cr3, t, tlb);
      FreeAfterPte(mem, Clear(mem, t), dirs, frames);
      KeptByClear(mem, dirs, dir, i);
      HangKeepsModes(old(mem), m2, dirs, dir, i, t, user, {WINDOW1});
      mem := Clear(mem, g);
      KeptTwice(old(mem), m2, mem, dirs);
    }

    /** The temporary windows are closed. */
    ghost predicate WindowsClosed()
      reads this
      ensures WindowsClosed() <==> Walk(mem, cr3, WINDOW0) == None && Walk(mem, cr3, WINDOW1) == None
    {
      Walk(mem, cr3, WINDOW0) == None && Walk(mem, cr3, WINDOW1) == None
    }

    /** VirtualMemory_quickMap of a directory in the first window. */
    method ShowDirectory(dir: int) returns (ok: bool)
      requires Inv() && dir in dirs
      modifies this`mem, this`tlb, this`frames
      ensures ok ==> Inv() && TableOf(mem, cr3, 3).Some? && Walk(mem, cr3, WINDOW0) == Some(dir)
      ensures ok ==> Shown(old(mem), mem, dirs, old(frames), cr3) && DataKept(old(mem), mem, dirs)
      ensures ok ==> ModesKept(old(mem), mem, dirs, {WINDOW0})
      ensures ok <==> |old(frames)| >= WindowDemand(old(mem), cr3)
      ensures ok ==> |frames| == |old(frames)| - WindowDemand(old(mem), cr3) && frames == old(frames)[..|frames|]
    {
      hide *;
      DirectoryAligned(mem, dirs, dir);
      Windows();
      ok := QuickMap(TEMPORARY_MAP_VADDR, dir);
      if ok { MakeShown(old(mem), mem, dirs, old(frames), cr3); }
    }

    /** The directory in the first window; its page table at index i, made if need be, in the second. */
    method OpenTable(dir: int, i: int, user: bool) returns (ok: bool)
      requires Inv() && dir in dirs && 0 <= i < SELF && WindowsClosed()
      modifies this`mem, this`tlb, this`frames
      ensures ok ==> Inv() && TableOf(mem, dir, i).Some? && TableOf(mem, cr3, 3).Some?
      ensures ok ==> Walk(mem, cr3, WINDOW0) == Some(dir) && Walk(mem, cr3, WINDOW1) == TableOf(mem, dir, i)
      ensures ok ==> Opened(old(mem), mem, dirs, old(frames), cr3, dir, i) && DataKept(old(mem), mem, dirs)
      ensures ok ==> ModesKept(old(mem), mem, dirs, WINDOWS)
      ensures ok && old(TableOf(mem, dir, i)).None? && !(dir == cr3 && i == 3) ==> Get(mem, dir, i).user == user
      ensures ok <==> |old(frames)| >= TableDemand(old(mem), cr3, dir, i)
      ensures ok ==> |frames| == |old(frames)| - TableDemand(old(mem), cr3, dir, i) && frames == old(frames)[..|frames|]
    {
      hide *;
      Windows();
      ok := ShowDirectory(dir);
      if ok {
        ghost var m1, free1 := mem, frames;
        WindowPages();
        ModesMore(old(mem), m1, dirs, {WINDOW0}, WINDOWS);
        ShownTable(old(mem), m1, dirs, old(frames), cr3, dir, i);
        var f := Translate(WINDOW0);
        var pde := Get(mem, f, i);
        EntryTable(mem, dir, i);
        if !pde.present {
          ok := GiveTable(dir, i, user);
          if ok {
            KeptTwice(old(mem), m1, mem, dirs);
            ModesTwice(old(mem), m1, mem, dirs, WINDOWS, {WINDOW1});
            InPrefix(old(frames), free1, frames, TableOf(mem, dir, i).value);
          }
        }
        if ok {
          ghost var m2 := mem;
          f := Translate(WINDOW0);
          pde := Get(mem, f, i);
          EntryTable(mem, dir, i);
          TableAligned(mem, dirs, dir, i);
          ok := QuickMap(TEMPORARY_MAP_VADDR + 0x1000, pde.frame);
          KeptTwice(old(mem), m2, mem, dirs);
          ModesTwice(old(mem), m2, mem, dirs, WINDOWS, {WINDOW1});
          PresentStays(m2, mem, dirs, {WINDOW1}, dir, i);
          MakeOpened(old(mem), m1, m2, mem, dirs, old(frames), cr3, dir, i);
        }
      }
    }

    /** A page table entry written through a window that shows the table of directory dir, and the
        cached translation of its page dropped. */
    method WriteThrough(window: Page, dir: int, p: Page, e: Entry)
      requires Inv() && Normal(window) && Normal(p) && dir in dirs
      requires Walk(mem, cr3, window).Some? && Walk(mem, cr3, window) == TableOf(mem, dir, p.pde)
      modifies this`mem, this`tlb
      ensures Inv() && forall x, i | x in dirs :: TableOf(mem, x, i) == old(TableOf(mem, x, i))
      ensures mem == Set(old(mem), old(TableOf(mem, dir, p.pde)).value, p.pte, e)
      ensures forall x, q | x in dirs && Normal(q) ::
                Walk(mem, x, q) == if q == p && TableOf(mem, x, p.pde) == TableOf(mem, dir, p.pde) then Leaf(e)
                  else old(Walk(mem, x, q))
      ensures DataKept(old(mem), mem, dirs) && ModesKept(old(mem), mem, dirs, {p})
    {
      hide *;
      NormalParts(p);
      FewerCached(p);
      var t := Translate(window);
      StoreKeepsModes(mem, dirs, dir, p, e);
      StorePte(mem, dirs, dir, p, e);
      StorePteStale(mem, dirs, cr3, dir, p, e, tlb);
      FreeAfterPte(mem, Set(mem, t, p.pte, e), dirs, frames);
      KeptByTableStore(mem, dirs, dir, p.pde, p.pte, e);
      mem := Set(mem, t, p.pte, e);
      tlb := tlb - {p};
    }

    /** VirtualMemory_mapPage: exactly one translation changes, in every directory that shares the
        page table. */
    method MapPage(dir: int, virtualAddr: int, physicalAddr: int, user: bool) returns (ok: bool)
      requires Inv() && dir in dirs && WindowsClosed()
      requires var p := PageOf(virtualAddr); Normal(p) && p != WINDOW0 && p != WINDOW1
      requires Aligned(virtualAddr) && Aligned(physicalAddr)
      modifies this`mem, this`tlb, this`frames
      ensures ok ==> Inv() && WindowsClosed() && TableOf(mem, cr3, 3).Some?
      ensures ok ==> Remapped(old(mem), mem, dirs, dir, PageOf(virtualAddr), Some(physicalAddr))
      ensures ok ==> EntryOf(mem, dir, PageOf(virtualAddr)) == Some(Entry(true, user, physicalAddr))
      ensures ok ==> DataKept(old(mem), mem, dirs)
      ensures ok ==> ModesKept(old(mem), mem, dirs, WINDOWS + {PageOf(virtualAddr)})
      ensures ok && old(TableOf(mem, dir, PageOf(virtualAddr).pde)).None? &&
                !(dir == cr3 && PageOf(virtualAddr).pde == 3) ==>
                Get(mem, dir, PageOf(virtualAddr).pde).user == user
      ensures ok ==> TablesGrown(old(mem), mem, dirs, old(frames), cr3, dir, PageOf(virtualAddr).pde)
      ensures ok <==> |old(frames)| >= TableDemand(old(mem), cr3, dir, PageOf(virtualAddr).pde)
      ensures ok ==> |frames| == |old(frames)| - TableDemand(old(mem), cr3, dir, PageOf(virtualAddr).pde)
      ensures ok ==> frames == old(frames)[..|frames|]
    {
      hide *;
      var p := PageOf(virtualAddr);
      NormalParts(p);
      Windows();
      ok := OpenTable(dir, p.pde, user);
      if ok {
        ghost var m1 := mem;
        WriteThrough(WINDOW1, dir, p, Entry(true, user, physicalAddr));
        ghost var m2 := mem;
        QuickUnmap(TEMPORARY_MAP_VADDR);
        ghost var m3 := mem;
        QuickUnmap(TEMPORARY_MAP_VADDR + 0x1000);
        LeafOf(user, physicalAddr);
        ModesThrice(old(mem), m1, m2, m3, mem, dirs, p);
        PresentStays(m1, m2, dirs, {p}, dir, p.pde);
        PresentStays(m2, m3, dirs, {WINDOW0}, dir, p.pde);
        PresentStays(m3, mem, dirs, {WINDOW1}, dir, p.pde);
        KeptThrice(old(mem), m1, m2, m3, mem, dirs);
        EntryStays(m1, m2, m3, mem, dirs, cr3, dir, p, Entry(true, user, physicalAddr));
        MakeRemapped(old(mem), m1, m2, m3, mem, dirs, old(frames), cr3, dir, p, Some(physicalAddr));
      }
    }

    /** VirtualMemory_unmapPage, which uses the first window twice. */
    method UnmapPage(dir: int, virtualAddr: int) returns (ok: bool)
      requires Inv() && dir in dirs && WindowsClosed()
      requires var p := PageOf(virtualAddr); Normal(p) && p != WINDOW0 && p != WINDOW1 && Walk(mem, dir, p).Some?
      requires Aligned(virtualAddr)
      modifies this`mem, this`tlb, this`frames
      ensures ok ==> Inv() && WindowsClosed() && TableOf(mem, cr3, 3).Some?
      ensures ok ==> Remapped(old(mem), mem, dirs, dir, PageOf(virtualAddr), None) && DataKept(old(mem), mem, dirs)
      ensures ok ==> TablesGrown(old(mem), mem, dirs, old(frames), cr3, dir, PageOf(virtualAddr).pde)
      ensures ok ==> ModesKept(old(mem), mem, dirs, WINDOWS + {PageOf(virtualAddr)})
      ensures ok <==> |old(frames)| >= WindowDemand(old(mem), cr3)
      ensures ok ==> |frames| == |old(frames)| - WindowDemand(old(mem), cr3) && frames == old(frames)[..|frames|]
    {
      hide *;
      DirectoryAligned(mem, dirs, dir);
      var p := PageOf(virtualAddr);
      NormalParts(p);
      Windows();
      WalkHasTable(mem, dir, p);
      ok := ShowDirectory(dir);
      if ok {
        ghost var m1 := mem;
        ShownTable(old(mem), m1, dirs, old(frames), cr3, dir, p.pde);
        var f := Translate(WINDOW0);
        var pde := Get(mem, f, p.pde);
        EntryTable(mem, dir, p.pde);
        TableAligned(mem, dirs, dir, p.pde);
        ok := QuickMap(TEMPORARY_MAP_VADDR, pde.frame);
        ghost var m2 := mem;
        MakeOpened(old(mem), m1, m1, m1, dirs, old(frames), cr3, dir, p.pde);
        WriteThrough(WINDOW0, dir, p, ABSENT);
        ghost var m3 := mem;
        QuickUnmap(TEMPORARY_MAP_VADDR);
        NoLeaf();
        UnmapModes(old(mem), m1, m2, m3, mem, dirs, p);
        KeptThrice(old(mem), m1, m2, m3, mem, dirs);
        MakeUnmapped(old(mem), m1, m2, m3, mem, dirs, old(frames), cr3, dir, p);
      }
    }

    /** A page mapped to a frame fresh from the stack, which is then zeroed. */
    method MapFresh(virtualAddr: int, user: bool, ghost kernelDir: int) returns (ok: bool)
      requires Inv() && WindowsClosed() && Owned(mem, dirs, kernelDir, frames)
      requires Owns(kernelDir, cr3, PageOf(virtualAddr)) && Aligned(virtualAddr)
      modifies this`mem, this`tlb, this`frames
      ensures ok ==> Inv() && WindowsClosed() && Owned(mem, dirs, kernelDir, frames)
      ensures ok ==> Given(old(mem), mem, dirs, old(frames), frames, cr3, PageOf(virtualAddr))
      ensures ok ==> TablesStay(old(mem), mem, dirs) && TablesAdded(old(mem), mem, dirs, cr3, PageOf(virtualAddr).pde)
      ensures ok ==> ModesKept(old(mem), mem, dirs, WINDOWS + {PageOf(virtualAddr)})
      ensures ok ==>
                && EntryOf(mem, cr3, PageOf(virtualAddr)).Some?
                && EntryOf(mem, cr3, PageOf(virtualAddr)).value.present
                && EntryOf(mem, cr3, PageOf(virtualAddr)).value.user == user
      ensures ok && old(TableOf(mem, cr3, PageOf(virtualAddr).pde)).None? && PageOf(virtualAddr).pde != 3 ==>
                Get(mem, cr3, PageOf(virtualAddr).pde).user == user
      ensures ok <==> |old(frames)| >= 1 + TableDemand(old(mem), cr3, cr3, PageOf(virtualAddr).pde)
      ensures ok ==> |frames| == |old(frames)| - 1 - TableDemand(old(mem), cr3, cr3, PageOf(virtualAddr).pde)
      ensures ok ==> frames == old(frames)[..|frames|]
    {
      hide *;
      ghost var p := PageOf(virtualAddr);
      Windows();
      OwnsNormal(kernelDir);
      var f := AllocateFrame();
      if f == 0 {
        return false;
      }
      PoppedIsUnused(mem, dirs, kernelDir, old(frames));
      PoppedIs(old(frames), frames, f);
      ghost var was := frames;
      ok := MapPage(cr3, virtualAddr, f, user);
      if ok {
        ghost var m1 := mem;
        MapKeepsOwned(old(mem), m1, dirs, kernelDir, was, frames, cr3, cr3, p, f);
        MappedNow(old(mem), m1, dirs, cr3, p, f);
        TablesStayIs(old(mem), m1, dirs, was, cr3, cr3, p.pde);
        WalkHasTable(m1, cr3, p);
        ZeroFrame(virtualAddr, kernelDir);
        PresentStays(m1, mem, dirs, {}, cr3, p.pde);
        ModesTwice(old(mem), m1, mem, dirs, WINDOWS + {p}, {});
        assert WINDOWS + {p} + {} == WINDOWS + {p};
        FreshEntry(m1, mem, dirs, cr3, p, Entry(true, user, f));
        RemappedStays(old(mem), m1, mem, dirs, cr3, p, Some(f));
        MakeGiven(old(mem), m1, mem, dirs, old(frames), frames, cr3, p, f);
        TablesStayToo(old(mem), m1, mem, dirs);
        MakeTablesAdded(old(mem), m1, mem, dirs, was, cr3, p.pde);
        PrefixTwice(old(frames), was, frames);
      }
    }

    /** Memory_set of a whole page to zero, which touches no table. */
    method ZeroFrame(virtualAddr: int, ghost kernelDir: int)
      requires Inv() && Owned(mem, dirs, kernelDir, frames) && Owns(kernelDir, cr3, PageOf(virtualAddr))
      requires Walk(mem, cr3, PageOf(virtualAddr)).Some?
      modifies this`mem, this`tlb
      ensures Inv() && Owned(mem, dirs, kernelDir, frames)
      ensures forall x, j | x in dirs :: TableOf(mem, x, j) == old(TableOf(mem, x, j))
      ensures forall x, q | x in dirs && Normal(q) :: Walk(mem, x, q) == old(Walk(mem, x, q))
      ensures ModesKept(old(mem), mem, dirs, {})
      ensures mem == Clear(old(mem), old(Walk(mem, cr3, PageOf(virtualAddr)).value))
    {
      hide *;
      var p := PageOf(virtualAddr);
      OwnsNormal(kernelDir);
      NotATableOf(mem, dirs, kernelDir, frames, cr3, p);
      var f := Translate(p);
      ClearKeepsModes(mem, dirs, f);
      ClearTable(mem, dirs, f);
      ClearTableStale(mem, dirs, cr3, f, tlb);
      ZeroKeepsOwned(mem, dirs, kernelDir, frames, f);
      mem := Clear(mem, f);
    }

    /** The frame of a page goes back to the stack, and then the page is unmapped. */
    method UnmapAndFree(virtualAddr: int, ghost kernelDir: int)
      requires Inv() && WindowsClosed() && Owned(mem, dirs, kernelDir, frames)
      requires Owns(kernelDir, cr3, PageOf(virtualAddr))
      requires Walk(mem, cr3, PageOf(virtualAddr)).Some? && Aligned(virtualAddr)
      modifies this`mem, this`tlb, this`frames
      ensures Inv() && WindowsClosed() && Owned(mem, dirs, kernelDir, frames)
      ensures Remapped(old(mem), mem, dirs, cr3, PageOf(virtualAddr), None) && TablesStay(old(mem), mem, dirs)
      ensures DataKept(old(mem), mem, dirs)
      ensures TablesAdded(old(mem), mem, dirs, cr3, PageOf(virtualAddr).pde)
      ensures ModesKept(old(mem), mem, dirs, WINDOWS + {PageOf(virtualAddr)})
      ensures |frames| == |old(frames)| + 1 - WindowDemand(old(mem), cr3)
      ensures frames == (old(frames) + [old(Walk(mem, cr3, PageOf(virtualAddr))).value])[..|frames|]
    {
      hide *;
      ghost var p := PageOf(virtualAddr);
      OwnsNormal(kernelDir);
      var f := GetPhysicalAddress(virtualAddr);
      FreeMapped(mem, dirs, kernelDir, frames, cr3, p, f);
      FreeFrame(f);
      ghost var was := frames;
      WalkHasTable(mem, cr3, p);
      var ok := UnmapPage(cr3, virtualAddr);
      UnmapKeepsOwned(old(mem), mem, dirs, kernelDir, old(frames), f, frames, cr3, p);
      TablesStayIs(old(mem), mem, dirs, was, cr3, cr3, p.pde);
      MakeTablesAdded(old(mem), mem, mem, dirs, was, cr3, p.pde);
    }

    // ------------------------------------------------------------------- directories

    /** VirtualMemory_switchPageDir: loading CR3 empties the cache (section 4.10.4.1). */
    method SwitchPageDir(dir: int)
      requires Wf(mem, dirs) && Free() && dir in dirs
      modifies this`cr3, this`tlb
      ensures Inv() && cr3 == dir
    {
      cr3 := dir;
      tlb := map[];
    }

    /** The part of VirtualMemory_createPageDirectory that clears the new directory through the first
        window, lets it map itself, and closes the window. */
    method InitDirectory(dir: int)
      requires Inv() && dir !in dirs && !IsTable(mem, dirs, dir) && dir !in frames && Aligned(dir)
      requires Walk(mem, cr3, WINDOW0) == Some(dir)
      modifies this`mem, this`tlb, this`dirs
      ensures Inv() && dirs == old(dirs) + {dir}
      ensures forall x, j | x in old(dirs) :: TableOf(mem, x, j) == old(TableOf(mem, x, j))
      ensures forall j | 0 <= j < SELF :: TableOf(mem, dir, j) == None
      ensures !Get(mem, dir, SELF).user
      ensures forall x, q | x in old(dirs) && Normal(q) ::
                Walk(mem, x, q) == if q == WINDOW0 && TableOf(mem, x, 3) == TableOf(mem, cr3, 3) then None
                  else old(Walk(mem, x, q))
    {
      hide *;
      Windows();
      var f := Translate(WINDOW0);
      NewDirectory(mem, dirs, dir, frames);
      NewDirectoryStale(mem, dirs, cr3, dir, tlb);
      mem := Clear(mem, f);
      GetSet(mem, f, SELF, Entry(true, false, f));
      mem := Set(mem, f, SELF, Entry(true, false, f));
      dirs := dirs + {dir};
      ghost var m1 := mem;
      SelfEntry(m1, f);
      QuickUnmap(TEMPORARY_MAP_VADDR);
      PresentStays(m1, mem, dirs, {WINDOW0}, dir, SELF);
    }

    /** And the part before that, which opens the window. */
    method OpenDirectory(dir: int) returns (ok: bool)
      requires Inv() && WindowsClosed()
      requires dir !in dirs && !IsTable(mem, dirs, dir) && dir !in frames && Aligned(dir)
      modifies this`mem, this`tlb, this`frames, this`dirs
      ensures ok ==> Inv() && WindowsClosed() && dirs == old(dirs) + {dir}
      ensures ok ==> WindowTable(old(mem), mem, old(dirs), cr3, old(frames), frames)
      ensures ok ==> |frames| <= |old(frames)| && frames == old(frames)[..|frames|]
      ensures ok ==> forall j | 0 <= j < SELF :: TableOf(mem, dir, j) == None
      ensures ok ==> !Get(mem, dir, SELF).user
      ensures ok ==> forall x, q | x in old(dirs) && Normal(q) :: Walk(mem, x, q) == old(Walk(mem, x, q))
      ensures !ok <==> old(frames) == [] && old(TableOf(mem, cr3, 3)).None?
    {
      hide *;
      Windows();
      ghost var m0, ds, was := mem, dirs, frames;
      ok := QuickMap(TEMPORARY_MAP_VADDR, dir);
      if ok {
        ghost var m1 := mem;
        NotGrownInto(m0, m1, dirs, cr3, 3, dir);
        InitDirectory(dir);
        WindowGone(m0, m1, mem, ds, cr3, dir);
        MakeWindowTable(m0, mem, ds, cr3, was, frames);
      }
    }

    /** VirtualMemory_createPageDirectory. */
    method CreatePageDirectory(ghost kernelDir: int) returns (ok: bool, dir: int)
      requires Inv() && WindowsClosed() && Owned(mem, dirs, kernelDir, frames)
      modifies this`mem, this`tlb, this`frames, this`dirs
      ensures ok ==> Inv() && WindowsClosed() && dir !in old(dirs) && dirs == old(dirs) + {dir} && dir in old(frames)
      ensures ok ==> Owned(mem, dirs, kernelDir, frames)
      ensures ok ==> forall j | 0 <= j < SELF :: TableOf(mem, dir, j) == None
      ensures ok ==> !Get(mem, dir, SELF).user
      ensures ok ==> forall x, q | x in old(dirs) && Normal(q) :: Walk(mem, x, q) == old(Walk(mem, x, q))
      ensures ok <==> |old(frames)| >= 1 + WindowDemand(old(mem), cr3)
      ensures ok ==> |frames| == |old(frames)| - 1 - WindowDemand(old(mem), cr3) && frames == old(frames)[..|frames|]
      ensures ok ==> WindowDemand(mem, cr3) == 0
      ensures ok ==> forall x, j | x in old(dirs) && !(x == cr3 && j == 3) ::
                TableOf(mem, x, j) == old(TableOf(mem, x, j))
    {
      hide *;
      Windows();
      dir := AllocateFrame();
      if dir == 0 {
        return false, dir;
      }
      ghost var m0, ds, was := mem, dirs, frames;
      PoppedIsUnused(mem, dirs, kernelDir, old(frames));
      PoppedIs(old(frames), frames, dir);
      ok := OpenDirectory(dir);
      if ok {
        WindowTableParts(m0, mem, ds, cr3, was, frames);
        CreateKeepsOwned(m0, mem, mem, ds, kernelDir, was, frames, cr3, dir);
        PrefixTwice(old(frames), was, frames);
      }
    }

    /** One entry copied by VirtualMemory_mapKernel, from the second window to the first. */
    method CopyEntry(dir: int, kernelDir: int, i: int)
      requires Inv() && dir in dirs && kernelDir in dirs && dir != kernelDir && dir != cr3 && 0 <= i < SELF
      requires Walk(mem, cr3, WINDOW0) == Some(dir) && Walk(mem, cr3, WINDOW1) == Some(kernelDir)
      modifies this`mem, this`tlb
      ensures Inv() && TableOf(mem, dir, i) == TableOf(mem, kernelDir, i)
      ensures forall j :: if j == i then !Get(mem, dir, j).user else Get(mem, dir, j) == old(Get(mem, dir, j))
      ensures forall x, j | x in dirs && !(x == dir && j == i) :: TableOf(mem, x, j) == old(TableOf(mem, x, j))
      ensures forall x, q | x in dirs && Normal(q) ::
                Walk(mem, x, q) == if x == dir && q.pde == i then old(Walk(mem, kernelDir, q)) else old(Walk(mem, x, q))
    {
      hide *;
      Windows();
      var d := Translate(WINDOW0);
      var k := Translate(WINDOW1);
      var pde := Get(mem, k, i);
      EntryTable(mem, kernelDir, i);
      var e := if pde.present then Entry(true, false, pde.frame) else ABSENT;
      CopiedLeaf(pde, e);
      ShareTable(mem, dirs, dir, kernelDir, i, e, frames);
      ShareTableStale(mem, dirs, cr3, dir, kernelDir, i, e, frames, tlb);
      GetSet(mem, d, i, e);
      mem := Set(mem, d, i, e);
    }

    /** VirtualMemory_mapKernel: the bottom 4 MB and the first 32 MB of the kernel heap become those of
        the kernel's directory, page table for page table, and nothing else changes. */
    method MapKernel(dir: int, kernelDir: int) returns (ok: bool)
      requires Inv() && WindowsClosed() && dir in dirs && kernelDir in dirs && dir != kernelDir && dir != cr3
      requires Owned(mem, dirs, kernelDir, frames)
      modifies this`mem, this`tlb, this`frames
      ensures ok ==> Inv() && WindowsClosed() && Owned(mem, dirs, kernelDir, frames)
      ensures ok ==> forall x, q | x in dirs && Normal(q) ::
                       Walk(mem, x, q) == if x == dir &&
                         IsKernelPart(q.pde) then old(Walk(mem, kernelDir, q)) else old(Walk(mem, x, q))
      ensures ok ==> forall i | IsKernelPart(i) :: TableOf(mem, dir, i) == TableOf(mem, kernelDir, i)
      ensures ok <==> |old(frames)| >= WindowDemand(old(mem), cr3)
      ensures ok ==> |frames| == |old(frames)| - WindowDemand(old(mem), cr3) && frames == old(frames)[..|frames|]
      ensures ok ==> forall i | IsKernelPart(i) && TableOf(mem, dir, i).Some? :: !Get(mem, dir, i).user
      ensures ok ==> Get(mem, dir, SELF) == old(Get(mem, dir, SELF))
      ensures ok ==> WindowDemand(mem, cr3) == 0
      ensures ok ==> forall x, j | x in dirs && !(x == dir && IsKernelPart(j)) && !(x == cr3 && j == 3) ::
                       TableOf(mem, x, j) == old(TableOf(mem, x, j))
    {
      hide *;
      DirectoryAligned(mem, dirs, dir);
      DirectoryAligned(mem, dirs, kernelDir);
      Windows();
      KernelParts();
      ok := QuickMap(TEMPORARY_MAP_VADDR, dir);
      if !ok {
        return;
      }
      ghost var m1 := mem;
      SelfStays(old(mem), m1, dirs, {WINDOW0}, dir);
      MakeWindowTable(old(mem), m1, dirs, cr3, old(frames), frames);
      ok := QuickMap(TEMPORARY_MAP_VADDR + 0x1000, kernelDir);
      ghost var m2, rest := mem, frames;
      SelfStays(m1, m2, dirs, {WINDOW1}, dir);
      CopyEntry(dir, kernelDir, 0);
      var i := 128;
      while i < 136
        invariant 128 <= i <= 136 && Inv() && ok && frames == rest
        invariant Walk(mem, cr3, WINDOW0) == Some(dir) && Walk(mem, cr3, WINDOW1) == Some(kernelDir)
        invariant forall j | j == 0 || 128 <= j < i :: !Get(mem, dir, j).user
        invariant Get(mem, dir, SELF) == Get(m2, dir, SELF)
        invariant forall x, j | x in dirs && !(x == dir && (j == 0 || 128 <= j < i)) ::
                  TableOf(mem, x, j) == TableOf(m2, x, j)
        invariant forall j | j == 0 || 128 <= j < i :: TableOf(mem, dir, j) == TableOf(mem, kernelDir, j)
        invariant forall x, q | x in dirs && Normal(q) ::
                    Walk(mem, x, q) == if x == dir && (q.pde == 0 || 128 <= q.pde < i) then Walk(m2, kernelDir, q)
                      else Walk(m2, x, q)
      {
        CopyEntry(dir, kernelDir, i);
        i := i + 1;
      }
      ghost var m3 := mem;
      QuickUnmap(TEMPORARY_MAP_VADDR);
      ghost var m4 := mem;
      QuickUnmap(TEMPORARY_MAP_VADDR + 0x1000);
      SelfStays(m3, m4, dirs, {WINDOW0}, dir);
      SelfStays(m4, mem, dirs, {WINDOW1}, dir);
      SupervisorStays(m3, m4, mem, dirs, dir);
      KernelMapped(old(mem), m1, m2, m3, m4, mem, dirs, cr3, dir, kernelDir);
      KernelKeepsOwned(old(mem), m1, mem, dirs, kernelDir, old(frames), frames, cr3, dir);
    }

    /** PhysicalMemory_freeFrame. */
    method FreeFrame(f: int)
      requires f != 0 && Aligned(f)
      modifies this`frames
      ensures frames == old(frames) + [f]
    {
      frames := frames + [f];
    }

    /** The frames of the present entries of the table in the first window go back to the stack. */
    method FreeLeaves(ghost t: int)
      requires Paged() && Walk(mem, cr3, WINDOW0) == Some(t)
      requires forall f | f in Leaves(mem, t, 1024) :: f != 0 && Aligned(f)
      modifies this`tlb, this`frames
      ensures Paged() && frames == old(frames) + Leaves(mem, t, 1024)
    {
      hide *;
      Windows();
      LeavesNone(mem, t);
      var y := 0;
      while y < 1024
        invariant 0 <= y <= 1024 && Paged() && frames == old(frames) + Leaves(mem, t, y)
      {
        var table := Translate(WINDOW0);
        var pte := Get(mem, table, y);
        LeavesNext(mem, t, y);
        if pte.present {
          LeafAmong(mem, t, y);
          FreeFrame(pte.frame);
        }
        y := y + 1;
      }
    }

    /** One round of VirtualMemory_destroyPageDirectory: through one window, first the directory and
        then the page table. */
    method FreeTable(dir: int, i: int) returns (ok: bool)
      requires Paged() && dir in dirs && 256 <= i < SELF && (Free() || TableOf(mem, cr3, 3).Some?)
      requires forall f | f in ReleasedAt(mem, dir, i) :: f != 0 && Aligned(f)
      modifies this`mem, this`tlb, this`frames
      ensures ok ==> Paged() && WindowMoved(old(mem), mem, dirs, cr3) && Walk(mem, cr3, WINDOW0).Some?
      ensures ok ==> frames == Remaining(old(mem), cr3, old(frames)) + ReleasedAt(old(mem), dir, i)
      ensures ok && old(TableOf(mem, cr3, 3)).None? ==> WindowTableTaken(mem, dirs, cr3, old(frames))
      ensures !ok <==> old(frames) == [] && old(TableOf(mem, cr3, 3)).None?
    {
      hide *;
      DirectoryAligned(mem, dirs, dir);
      Windows();
      ok := QuickMap(TEMPORARY_MAP_VADDR, dir);
      if ok {
        ghost var m1, base := mem, frames;
        MakeWindowMoved(old(mem), m1, dirs, cr3, dir);
        RemainingIs(old(mem), cr3, old(frames), base, TableOf(mem, cr3, 3).value);
        if old(TableOf(mem, cr3, 3)).None? { MakeWindowTableTaken(m1, dirs, cr3, old(frames), base); }
        var d := Translate(WINDOW0);
        var pde := Get(mem, d, i);
        EntryTable(mem, dir, i);
        ReleasedAtIs(mem, dir, i);
        SameReleasedAt(old(mem), mem, dirs, cr3, dir, i);
        if pde.present {
          TableAligned(mem, dirs, dir, i);
          var moved := QuickMap(TEMPORARY_MAP_VADDR, pde.frame);
          MakeWindowMoved(m1, mem, dirs, cr3, pde.frame);
          WindowMovedTwice(old(mem), m1, mem, dirs, cr3);
          WindowTableStays(m1, mem, dirs, cr3, old(frames));
          SameReleasedAt(m1, mem, dirs, cr3, dir, i);
          LeavesReleased(mem, dir, i);
          FreeLeaves(pde.frame);
          FreeFrame(pde.frame);
          ReleasedAtIs(mem, dir, i);
        }
        SameReleasedAt(old(mem), mem, dirs, cr3, dir, i);
      }
    }

    /** VirtualMemory_destroyPageDirectory: the directory, its page tables from 1 GB on and the frames
        they map go back to the stack, each once; nobody else's translation changes. */
    method DestroyPageDirectory(dir: int, ghost kernelDir: int) returns (ok: bool)
      requires Inv() && WindowsClosed() && Owned(mem, dirs, kernelDir, frames)
      requires dir in dirs && dir != kernelDir
      modifies this`mem, this`tlb, this`frames, this`dirs
      ensures ok ==> dirs == old(dirs) - {dir} && Wf(mem, dirs) && Free() && Owned(mem, dirs, kernelDir, frames)
      ensures ok ==> frames == Remaining(old(mem), cr3, old(frames)) + Released(old(mem), dir, 256, SELF) + [dir]
      ensures ok ==> forall q: Page | 256 <= q.pde < 1023 && 0 <= q.pte < 1024 && old(Walk(mem, dir, q)).Some? ::
                       old(Walk(mem, dir, q)).value in frames
      ensures ok ==> forall i | 256 <= i < 1023 && old(TableOf(mem, dir, i)).Some? ::
                       old(TableOf(mem, dir, i)).value in frames
      ensures ok ==> forall x, q | x in dirs && Normal(q) :: Walk(mem, x, q) == old(Walk(mem, x, q))
      ensures ok ==> DataKept(old(mem), mem, old(dirs))
      ensures ok && cr3 != dir ==> Inv() && WindowsClosed()
      ensures ok <==> |old(frames)| >= WindowDemand(old(mem), cr3)
    {
      hide *;
      DirectoryAligned(mem, dirs, dir);
      DirectoryThere(mem, dirs, kernelDir, frames, dir);
      Windows();
      NothingLost(mem, dir, 256, SELF);
      ok := true;
      var i := 256;
      while i < 1023
        invariant 256 <= i <= 1023 && Paged() && dirs == old(dirs)
        invariant i > 256 ==> |old(frames)| >= WindowDemand(old(mem), cr3)
        invariant if i == 256 then mem == old(mem) && frames == old(frames)
                  else
                    && Destroying(old(mem), mem, dirs, cr3, old(frames), frames, dir, i)
                    && Walk(mem, cr3, WINDOW0).Some?
      {
        ghost var m, f := mem, frames;
        if i > 256 { HasWindowTable(old(mem), mem, dirs, cr3, old(frames), frames, dir, i); }
        ReleasedAligned(old(mem), mem, dirs, cr3, kernelDir, old(frames), dir, i);
        ok := FreeTable(dir, i);
        if !ok {
          return;
        }
        if i == 256 {
          DestroyStart(m, mem, dirs, cr3, f, frames, dir);
        } else {
          DestroyRound(old(mem), m, mem, dirs, cr3, old(frames), f, frames, dir, i);
        }
        i := i + 1;
      }
      ghost var m1 := mem;
      QuickUnmap(TEMPORARY_MAP_VADDR);
      DestroyedData(old(mem), m1, mem, dirs, cr3, old(frames), frames, dir);
      Destroyed(old(mem), m1, mem, dirs, cr3, kernelDir, old(frames), frames, dir);
      FreeFrame(dir);
      dirs := dirs - {dir};
    }
  }

  /** Closing the windows leaves the modes of the entries that were copied. */
  lemma SupervisorStays(m3: Phys, m4: Phys, m5: Phys, dirs: set<int>, d: int)
    requires ModesKept(m3, m4, dirs, {WINDOW0}) && ModesKept(m4, m5, dirs, {WINDOW1}) && d in dirs
    requires forall j | j == 0 || 128 <= j < 136 :: !Get(m3, d, j).user
    requires forall j :: TableOf(m5, d, j) == TableOf(m4, d, j) == TableOf(m3, d, j)
    ensures forall i | IsKernelPart(i) && TableOf(m5, d, i).Some? :: !Get(m5, d, i).user
  {
    forall i | IsKernelPart(i) && TableOf(m5, d, i).Some? ensures !Get(m5, d, i).user {
      PresentStays(m3, m4, dirs, {WINDOW0}, d, i);
      PresentStays(m4, m5, dirs, {WINDOW1}, d, i);
    }
  }

  lemma SelfEntry(m: Phys, d: int)
    ensures Get(m, d, SELF) == Entry(true, false, d) ==> TableOf(m, d, SELF).Some?
  {
  }

  lemma SelfStays(m: Phys, m': Phys, dirs: set<int>, but: set<Page>, d: int)
    requires Wf(m, dirs) && ModesKept(m, m', dirs, but) && d in dirs
    ensures Get(m', d, SELF) == Get(m, d, SELF)
  {
    PresentStays(m, m', dirs, but, d, SELF);
  }

  /** A directory entry that was present is still the same. */
  lemma PresentStays(m: Phys, m': Phys, dirs: set<int>, but: set<Page>, d: int, i: int)
    requires ModesKept(m, m', dirs, but) && d in dirs && TableOf(m, d, i).Some?
    ensures Get(m', d, i) == Get(m, d, i)
  {
  }

  lemma ModesThrice(m: Phys, m1: Phys, m2: Phys, m3: Phys, m4: Phys, dirs: set<int>, p: Page)
    requires ModesKept(m, m1, dirs, WINDOWS) && ModesKept(m1, m2, dirs, {p})
    requires ModesKept(m2, m3, dirs, {WINDOW0}) && ModesKept(m3, m4, dirs, {WINDOW1})
    ensures ModesKept(m, m4, dirs, WINDOWS + {p})
  {
    ModesTwice(m, m1, m2, dirs, WINDOWS, {p});
    ModesTwice(m, m2, m3, dirs, WINDOWS + {p}, {WINDOW0});
    ModesTwice(m, m3, m4, dirs, WINDOWS + {p} + {WINDOW0}, {WINDOW1});
    assert WINDOWS + {p} + {WINDOW0} + {WINDOW1} == WINDOWS + {p};
    hide ModesKept;
  }

  lemma UnmapModes(m: Phys, m1: Phys, m2: Phys, m3: Phys, m4: Phys, dirs: set<int>, p: Page)
    requires ModesKept(m, m1, dirs, {WINDOW0}) && ModesKept(m1, m2, dirs, {WINDOW0})
    requires ModesKept(m2, m3, dirs, {p}) && ModesKept(m3, m4, dirs, {WINDOW0})
    ensures ModesKept(m, m4, dirs, WINDOWS + {p})
  {
    ModesTwice(m, m1, m2, dirs, {WINDOW0}, {WINDOW0});
    ModesTwice(m, m2, m3, dirs, {WINDOW0} + {WINDOW0}, {p});
    ModesTwice(m, m3, m4, dirs, {WINDOW0} + {WINDOW0} + {p}, {WINDOW0});
    ModesMore(m, m4, dirs, {WINDOW0} + {WINDOW0} + {p} + {WINDOW0}, WINDOWS + {p});
    hide ModesKept;
  }

  /** Clearing the new frame leaves the entry of its page. */
  lemma FreshEntry(m: Phys, m': Phys, dirs: set<int>, d: int, p: Page, e: Entry)
    requires EntryOf(m, d, p) == Some(e) && e.present && ModesKept(m, m', dirs, {}) && d in dirs && Normal(p)
    ensures EntryOf(m', d, p) == Some(e)
  {
    WalkEntry(m, d, p);
    hide Walk, EntryOf;
  }

  lemma GetSet(m: Phys, f: int, i: int, e: Entry)
    ensures forall g, j :: Get(Set(m, f, i, e), g, j) == if g == f && j == i then e else Get(m, g, j)
  {
  }

  ghost predicate FramesApart(stack: seq<int>) {
    (forall i, j | 0 <= i < j < |stack| :: stack[i] != stack[j]) && forall f | f in stack :: f > 0 && Aligned(f)
  }

  lemma DirectoryAligned(m: Phys, dirs: set<int>, d: int)
    requires Wf(m, dirs) && d in dirs
    ensures Aligned(d)
  {
  }

  lemma TableAligned(m: Phys, dirs: set<int>, d: int, i: int)
    requires Wf(m, dirs) && d in dirs && 0 <= i < SELF && TableOf(m, d, i).Some?
    ensures Aligned(TableOf(m, d, i).value)
  {
  }

  lemma DirectoryThere(m: Phys, dirs: set<int>, k: int, free: seq<int>, d: int)
    requires Owned(m, dirs, k, free) && d in dirs
    ensures d > 0
  {
  }

  lemma LeavesReleased(m: Phys, d: int, i: int)
    requires TableOf(m, d, i).Some?
    ensures forall f | f in Leaves(m, TableOf(m, d, i).value, 1024) :: f in ReleasedAt(m, d, i)
    ensures TableOf(m, d, i).value in ReleasedAt(m, d, i)
  {
  }

  lemma LeafAmong(m: Phys, t: int, y: nat)
    requires y < 1024 && Get(m, t, y).present
    ensures Get(m, t, y).frame in Leaves(m, t, 1024)
  {
    LeafIn(m, t, 1024, y);
  }

  lemma {:induction false} LeafIn(m: Phys, t: int, n: nat, y: nat)
    requires y < n <= 1024 && Get(m, t, y).present
    ensures Get(m, t, y).frame in Leaves(m, t, n)
  {
    if y < n - 1 { LeafIn(m, t, n - 1, y); }
  }

  /** What destruction pushes are frames. */
  lemma ReleasedAligned(m: Phys, m': Phys, dirs: set<int>, c: int, k: int, free: seq<int>, d: int, i: int)
    requires Owned(m, dirs, k, free) && Wf(m, dirs) && FreeOK(m, dirs, free) && d in dirs && d != k && 256 <= i < SELF
    requires c in dirs && (m' == m || WindowMoved(m, m', dirs, c))
    ensures forall f | f in ReleasedAt(m', d, i) :: f != 0 && Aligned(f)
  {
    ReleasedAtOwned(m, dirs, k, free, d, i);
    if m' != m { SameReleasedAt(m, m', dirs, c, d, i); }
  }

  /** The current directory has page tables for the windows and at index i, and else those it had; a new
      one at index i is its alone. */
  ghost predicate TablesAdded(m: Phys, m': Phys, dirs: set<int>, c: int, i: int) {
    && TableOf(m', c, 3).Some? && TableOf(m', c, i).Some?
    && (forall x, j | x in dirs && !(x == c && (j == i || j == 3)) :: TableOf(m', x, j) == TableOf(m, x, j))
    && (TableOf(m, c, i).None? && i != 3 ==> forall x | x in dirs && x != c :: TableOf(m', x, i) != TableOf(m', c, i))
  }

  lemma MakeTablesAdded(m: Phys, m1: Phys, m2: Phys, dirs: set<int>, free: seq<int>, c: int, i: int)
    requires TablesGrown(m, m1, dirs, free, c, c, i) && TableOf(m1, c, 3).Some? && c in dirs
    requires TableOf(m1, c, i).Some?
    requires forall x, j | x in dirs :: TableOf(m2, x, j) == TableOf(m1, x, j)
    ensures TablesAdded(m, m2, dirs, c, i)
  {
  }

  /** The first directory: nothing is owned yet. */
  lemma StartTables(m: Phys, m': Phys, dir: int, t: int, stack: seq<int>)
    requires |stack| >= 2 && FramesApart(stack) && dir == stack[|stack| - 1] && t == stack[|stack| - 2]
    requires forall j | 1 <= j < 1024 :: Get(m', t, j) == Entry(true, false, 0x1000 * j)
    requires forall j :: Get(m', dir, j) == if j == 0 then Entry(true, false, t)
              else if j == SELF then Entry(true, false, dir) else ABSENT
    requires forall f, j | f != t && f != dir :: Get(m', f, j) == Get(m, f, j)
    ensures var free := stack[..|stack| - 2];
            Wf(m', {dir}) && FreeOK(m', {dir}, free) && Owned(m', {dir}, dir, free) && Coherent(map[], m', dir) &&
              Cacheable(map[])
    ensures Walk(m', dir, WINDOW0) == None && Walk(m', dir, WINDOW1) == None && DataKept(m, m', {dir})
    ensures forall i | 1 <= i < 1024 :: Walk(m', dir, Page(0, i)) == Some(0x1000 * i)
    ensures forall q | Normal(q) && q.pde != 0 :: Walk(m', dir, q) == None
  {
    assert dir in stack && dir != t && dir > 0;
    assert TableOf(m', dir, 0) == Some(t);
    assert forall j | 0 <= j < SELF :: TableOf(m', dir, j) == if j == 0 then Some(t) else None;
    assert TableOf(m', dir, SELF) == Some(dir);
    assert IsTable(m', {dir}, t);
    var free := stack[..|stack| - 2];
    forall f | f in free ensures f > 0 && f != dir && f != t {
      assert f in stack;
    }
    forall q | Normal(q) && q.pde != 0 ensures Walk(m', dir, q) == None {
      assert TableOf(m', dir, q.pde) == None;
    }
  }

  /** A page gained a frame that was free and reads as zeros; all other data is where it was. */
  ghost predicate Given(m: Phys, m': Phys, dirs: set<int>, free: seq<int>, free': seq<int>, d: int, p: Page) {
    exists f | f in free && f !in free' ::
      && Remapped(m, m', dirs, d, p, Some(f))
      && (forall g, i | g !in dirs && !IsTable(m', dirs, g) ::
            Get(m', g, i) == if g == f then ABSENT else Get(m, g, i))
  }

  lemma MakeGiven(m: Phys, m1: Phys, m2: Phys, dirs: set<int>, free: seq<int>, free': seq<int>, d: int, p: Page, f: int)
    requires f in free && f !in free' && Remapped(m, m2, dirs, d, p, Some(f)) && DataKept(m, m1, dirs) &&
              m2 == Clear(m1, f)
    requires forall x, j | x in dirs :: TableOf(m2, x, j) == TableOf(m1, x, j)
    ensures Given(m, m2, dirs, free, free', d, p)
  {
    forall g, i | g !in dirs && !IsTable(m2, dirs, g) ensures Get(m2, g, i) == if g == f then ABSENT else Get(m, g, i) {
      forall x, j | x in dirs && 0 <= j < SELF ensures TableOf(m1, x, j) != Some(g) {
        NotATable(m2, dirs, g, x, j);
      }
      assert !IsTable(m1, dirs, g);
      assert Get(m1, g, i) == Get(m, g, i);
    }
  }

  lemma DataStays(m: Phys, dirs: set<int>)
    ensures DataKept(m, m, dirs)
  {
  }

  lemma SelfPage(i: int)
    requires 0 <= i < SELF
    ensures !Normal(Page(SELF, i)) && 0 <= i < SELF < 1024
  {
  }

  /** A new page table in the current directory, before and after it is cleared. */
  lemma HangAndClear(m: Phys, dirs: set<int>, d: int, i: int, t: int, free: seq<int>)
    requires Wf(m, dirs) && d in dirs && 0 <= i < SELF && TableOf(m, d, i) == None
    requires t !in dirs && !IsTable(m, dirs, t) && FreeOK(m, dirs, free) && t !in free && Aligned(t)
    ensures var m1 := Set(m, d, i, Entry(true, false, t));
            && Wf(m1, dirs) && TableOf(m1, d, i) == Some(t) && Get(m1, d, SELF) == Get(m, d, SELF)
            && (forall q | Normal(q) && TableOf(m1, d, q.pde) == Some(t) :: q.pde == i)
    ensures var m2 := Clear(Set(m, d, i, Entry(true, false, t)), t);
            && Wf(m2, dirs) && TableOf(m2, d, i) == Some(t) && FreeOK(m2, dirs, free) && DataKept(m, m2, dirs)
            && (forall x, j | x in dirs && !(x == d && j == i) :: TableOf(m2, x, j) == TableOf(m, x, j))
            && (forall x, q | x in dirs && Normal(q) :: Walk(m2, x, q) == Walk(m, x, q))
            && (forall x | x in dirs && x != d :: TableOf(m2, x, i) != TableOf(m2, d, i))
  {
    HangOnly(m, dirs, d, i, t, false);
    HangTable(m, dirs, d, i, t, false);
    FreeAfterHang(m, Clear(Set(m, d, i, Entry(true, false, t)), t), dirs, free, d, i, t);
    TableGiven(m, dirs, d, i, t, false);
    forall x | x in dirs && x != d ensures TableOf(m, x, i) != Some(t) {
      NotATable(m, dirs, t, x, i);
    }
    hide Wf, FreeOK, IsTable, DataKept, Walk;
  }

  lemma TableGiven(m: Phys, dirs: set<int>, d: int, i: int, t: int, user: bool)
    requires d in dirs && 0 <= i < SELF && t !in dirs
    ensures DataKept(m, Clear(Set(m, d, i, Entry(true, user, t)), t), dirs)
  {
    var m' := Clear(Set(m, d, i, Entry(true, user, t)), t);
    assert TableOf(m', d, i) == Some(t);
    assert IsTable(m', dirs, t);
  }

  lemma KeptThrice(m: Phys, m1: Phys, m2: Phys, m3: Phys, m4: Phys, dirs: set<int>)
    requires DataKept(m, m1, dirs) && DataKept(m1, m2, dirs) && DataKept(m2, m3, dirs) && DataKept(m3, m4, dirs)
    requires forall x, j | x in dirs :: TableOf(m2, x, j) == TableOf(m1, x, j)
    requires forall x, j | x in dirs :: TableOf(m3, x, j) == TableOf(m2, x, j)
    requires forall x, j | x in dirs :: TableOf(m4, x, j) == TableOf(m3, x, j)
    ensures DataKept(m, m4, dirs)
  {
    KeptTwice(m, m1, m2, dirs);
    KeptTwice(m, m2, m3, dirs);
    KeptTwice(m, m3, m4, dirs);
  }

  /** No directory loses or swaps a page table. */
  ghost predicate TablesStay(m: Phys, m': Phys, dirs: set<int>)
    ensures TablesStay(m, m', dirs) <==> forall x, j | x in dirs && TableOf(m, x, j).Some? ::
              TableOf(m', x, j) == TableOf(m, x, j)
  {
    forall x, j | x in dirs && TableOf(m, x, j).Some? :: TableOf(m', x, j) == TableOf(m, x, j)
  }

  lemma TablesStayIs(m: Phys, m': Phys, dirs: set<int>, free: seq<int>, c: int, dir: int, i: int)
    requires TablesGrown(m, m', dirs, free, c, dir, i)
    ensures TablesStay(m, m', dirs)
  {
  }

  lemma TablesStayToo(m: Phys, m1: Phys, m2: Phys, dirs: set<int>)
    requires TablesStay(m, m1, dirs) && forall x, j | x in dirs :: TableOf(m2, x, j) == TableOf(m1, x, j)
    ensures TablesStay(m, m2, dirs)
  {
  }

  lemma PoppedIs(free: seq<int>, rest: seq<int>, f: int)
    requires rest + [f] == free
    ensures free != [] && f == free[|free| - 1] && rest == free[..|free| - 1] && f in free && |rest| == |free| - 1
  {
  }

  lemma PrefixTwice(a: seq<int>, b: seq<int>, c: seq<int>)
    requires |b| <= |a| && b == a[..|b|] && |c| <= |b| && c == b[..|c|]
    ensures c == a[..|c|]
  {
  }

  lemma MappedNow(m: Phys, m': Phys, dirs: set<int>, dir: int, p: Page, f: int)
    requires Remapped(m, m', dirs, dir, p, Some(f)) && dir in dirs && Normal(p)
    ensures Walk(m', dir, p) == Some(f)
  {
  }

  lemma RemappedStays(m: Phys, m1: Phys, m2: Phys, dirs: set<int>, dir: int, p: Page, to: Option<int>)
    requires Remapped(m, m1, dirs, dir, p, to) && dir in dirs
    requires forall x, j | x in dirs :: TableOf(m2, x, j) == TableOf(m1, x, j)
    requires forall x, q | x in dirs && Normal(q) :: Walk(m2, x, q) == Walk(m1, x, q)
    ensures Remapped(m, m2, dirs, dir, p, to)
  {
    hide Walk, TableOf;
  }

  lemma GrownFrom(m: Phys, m': Phys, dirs: set<int>, free: seq<int>, free': seq<int>, c: int, dir: int, i: int)
    requires TablesGrown(m, m', dirs, free, c, dir, i) && FreeOK(m, dirs, free) && FreeOK(m', dirs, free')
    requires dir in dirs
    requires Wf(m, dirs) && c in dirs && 0 <= i < SELF && |free'| <= |free| && free' == free[..|free'|]
    ensures Grown(m, m', dirs, free, free')
  {
    forall x, j | x in dirs && TableOf(m, x, j).None? && TableOf(m', x, j).Some?
      ensures TableOf(m', x, j).value > 0 && TableOf(m', x, j).value in free && TableOf(m', x, j).value !in free'
    {
      assert 0 <= j < SELF;
      assert IsTable(m', dirs, TableOf(m', x, j).value);
    }
    hide Walk, TableOf;
  }

  lemma MapKeepsOwned(m: Phys, m': Phys, dirs: set<int>, k: int, free: seq<int>, free': seq<int>, c: int, dir: int,
        p: Page, f: int)
    requires Wf(m, dirs) && Wf(m', dirs) && FreeOK(m, dirs, free) && FreeOK(m', dirs, free') && c in dirs && dir in dirs
    requires Owned(m, dirs, k, free) && Unused(m, dirs, k, free, f) && Normal(p)
    requires Remapped(m, m', dirs, dir, p, Some(f)) && TablesGrown(m, m', dirs, free, c, dir, p.pde)
    requires |free'| <= |free| && free' == free[..|free'|]
    ensures Owned(m', dirs, k, free')
  {
    GrownFrom(m, m', dirs, free, free', c, dir, p.pde);
    OwnsNormal(k);
    assert free + [] == free;
    OwnedKept(m, m', dirs, k, free, [], free', dir, p, Some(f));
  }

  lemma FreeMapped(m: Phys, dirs: set<int>, k: int, free: seq<int>, c: int, p: Page, f: int)
    requires Owned(m, dirs, k, free) && FreeOK(m, dirs, free) && c in dirs && Owns(k, c, p) && Walk(m, c, p) == Some(f)
    ensures FreeOK(m, dirs, free + [f]) && f != 0 && Aligned(f)
  {
    assert InUse(m, dirs, free, f);
  }

  lemma UnmapKeepsOwned(m: Phys, m': Phys, dirs: set<int>, k: int, free: seq<int>, f: int, free': seq<int>, c: int,
        p: Page)
    requires Wf(m, dirs) && Wf(m', dirs) && FreeOK(m, dirs, free + [f]) && FreeOK(m', dirs, free') && c in dirs
    requires Owned(m, dirs, k, free) && Owns(k, c, p) && Walk(m, c, p) == Some(f)
    requires Remapped(m, m', dirs, c, p, None) && TablesGrown(m, m', dirs, free + [f], c, c, p.pde)
    requires |free'| <= |free + [f]| && free' == (free + [f])[..|free'|]
    ensures Owned(m', dirs, k, free')
  {
    GrownFrom(m, m', dirs, free + [f], free', c, c, p.pde);
    OwnsNormal(k);
    WalkHasTable(m, c, p);
    forall x, q | x in dirs && Owns(k, x, q) && Walk(m', x, q).Some? ensures Walk(m', x, q).value !in [f] {
      if Walk(m, x, q).Some? { WalkHasTable(m, x, q); }
      hide Walk, TableOf;
    }
    OwnedKept(m, m', dirs, k, free, [f], free', c, p, None);
  }

  lemma NotATableOf(m: Phys, dirs: set<int>, k: int, free: seq<int>, c: int, p: Page)
    requires Owned(m, dirs, k, free) && c in dirs && Owns(k, c, p) && Walk(m, c, p).Some?
    ensures Walk(m, c, p).value !in dirs && Walk(m, c, p).value > 0 && !IsTable(m, dirs, Walk(m, c, p).value)
    ensures forall x, j | x in dirs && 0 <= j < SELF :: TableOf(m, x, j) != Walk(m, c, p)
    ensures forall x, q | x in dirs && Normal(q) :: TableOf(m, x, q.pde) != Walk(m, c, p)
  {
    assert InUse(m, dirs, free, Walk(m, c, p).value);
    forall x, j | x in dirs && 0 <= j < SELF ensures TableOf(m, x, j) != Walk(m, c, p) {
      NotATable(m, dirs, Walk(m, c, p).value, x, j);
    }
  }

  lemma ZeroKeepsOwned(m: Phys, dirs: set<int>, k: int, free: seq<int>, f: int)
    requires Owned(m, dirs, k, free) && Wf(m, dirs) && FreeOK(m, dirs, free) && f !in dirs
    requires forall x, q | x in dirs && Normal(q) :: TableOf(m, x, q.pde) != Some(f)
    ensures Owned(Clear(m, f), dirs, k, free) && FreeOK(Clear(m, f), dirs, free)
    ensures forall i :: Get(Clear(m, f), f, i) == ABSENT
  {
    ClearTable(m, dirs, f);
    FreeAfterPte(m, Clear(m, f), dirs, free);
    OwnsNormal(k);
    assert free + [] == free;
    if d :| d in dirs {
      OwnedKept(m, Clear(m, f), dirs, k, free, [], free, d, WINDOW0, None);
    }
  }

  /** The page table of the windows, if it was new, was the last free frame. */
  ghost predicate WindowTable(m: Phys, m': Phys, dirs: set<int>, c: int, free: seq<int>, free': seq<int>) {
    && (forall x, j | x in dirs && !(x == c && j == 3) :: TableOf(m', x, j) == TableOf(m, x, j))
    && TableOf(m', c, 3).Some?
    && if TableOf(m, c, 3).Some? then TableOf(m', c, 3) == TableOf(m, c, 3) && free' == free
       else free' + [TableOf(m', c, 3).value] == free
  }

  lemma MakeWindowTable(m: Phys, m': Phys, dirs: set<int>, c: int, free: seq<int>, free': seq<int>)
    requires forall x, j | x in dirs && !(x == c && j == 3) :: TableOf(m', x, j) == TableOf(m, x, j)
    requires TableOf(m', c, 3).Some?
    requires if TableOf(m, c, 3).Some? then TableOf(m', c, 3) == TableOf(m, c, 3) && free' == free
             else free' + [TableOf(m', c, 3).value] == free
    ensures WindowTable(m, m', dirs, c, free, free')
  {
  }

  lemma WindowTableParts(m: Phys, m': Phys, dirs: set<int>, c: int, free: seq<int>, free': seq<int>)
    requires WindowTable(m, m', dirs, c, free, free')
    ensures forall x, j | x in dirs && !(x == c && j == 3) :: TableOf(m', x, j) == TableOf(m, x, j)
    ensures TableOf(m', c, 3).Some? && |free'| == |free| - WindowDemand(m, c)
  {
  }

  lemma CreateKeepsOwned(m: Phys, m1: Phys, m3: Phys, dirs: set<int>, k: int, free: seq<int>, free': seq<int>,
        c: int, d: int)
    requires WindowTable(m, m1, dirs, c, free, free') && forall x, j | x in dirs ::
              TableOf(m3, x, j) == TableOf(m1, x, j)
    requires Owned(m, dirs, k, free) && Unused(m, dirs, k, free, d) && FreeOK(m, dirs, free) && Wf(m, dirs)
    requires Wf(m3, dirs + {d}) && c in dirs
    requires forall x, q | x in dirs && Normal(q) :: Walk(m3, x, q) == Walk(m, x, q)
    requires forall j | 0 <= j < SELF :: TableOf(m3, d, j) == None
    ensures Owned(m3, dirs + {d}, k, free')
  {
    if TableOf(m, c, 3).None? { PoppedIs(free, free', TableOf(m1, c, 3).value); }
    assert Grown(m, m3, dirs, free, free') by { hide Walk, TableOf; }
    OwnsNormal(k);
    NewOwnsNothing(m, m3, dirs, k, free, free', d);
  }

  lemma KernelKeepsOwned(m: Phys, m1: Phys, m5: Phys, dirs: set<int>, k: int, free: seq<int>, free': seq<int>,
        c: int, d: int)
    requires WindowTable(m, m1, dirs, c, free, free') && d in dirs && k in dirs && d != k && c in dirs
    requires forall x, j | x in dirs && !(x == d && IsKernelPart(j)) :: TableOf(m5, x, j) == TableOf(m1, x, j)
    requires forall j | IsKernelPart(j) :: TableOf(m5, d, j) == TableOf(m5, k, j)
    requires forall x, q | x in dirs && Normal(q) ::
               Walk(m5, x, q) == if x == d && IsKernelPart(q.pde) then Walk(m, k, q) else Walk(m, x, q)
    requires Owned(m, dirs, k, free) && Wf(m, dirs)
    ensures Owned(m5, dirs, k, free')
  {
    OwnsNormal(k);
    if TableOf(m, c, 3).None? { PoppedIs(free, free', TableOf(m1, c, 3).value); }
    SharedKeepsOwned(m, m5, dirs, k, free, free', d) by { hide Walk, TableOf; }
  }

  /** Between m and m' only the first window moved; its page table may be new. */
  ghost predicate WindowMoved(m: Phys, m': Phys, dirs: set<int>, c: int) {
    && DataKept(m, m', dirs)
    && (forall x, j | x in dirs && !(x == c && j == 3) :: TableOf(m', x, j) == TableOf(m, x, j))
    && (TableOf(m, c, 3).Some? ==> TableOf(m', c, 3) == TableOf(m, c, 3))
    && TableOf(m', c, 3).Some?
    && (TableOf(m, c, 3).None? ==> forall x | x in dirs && x != c :: TableOf(m', x, 3) != TableOf(m', c, 3))
    && (forall x, q | x in dirs && Normal(q) && !(q == WINDOW0 && TableOf(m', x, 3) == TableOf(m', c, 3)) ::
      Walk(m', x, q) == Walk(m, x, q))
  }

  lemma MakeWindowMoved(m: Phys, m': Phys, dirs: set<int>, c: int, f: int)
    requires DataKept(m, m', dirs)
    requires TableOf(m', c, 3).Some?
    requires forall x, j | x in dirs && !(x == c && j == 3) :: TableOf(m', x, j) == TableOf(m, x, j)
    requires TableOf(m, c, 3).Some? ==> TableOf(m', c, 3) == TableOf(m, c, 3)
    requires forall x, q | x in dirs && Normal(q) ::
               Walk(m', x, q) == if q == WINDOW0 &&
                 TableOf(m', x, 3) == TableOf(m', c, 3) then Some(f) else Walk(m, x, q)
    requires TableOf(m, c, 3).None? ==> forall x | x in dirs && x != c :: TableOf(m', x, 3) != TableOf(m', c, 3)
    ensures WindowMoved(m, m', dirs, c)
  {
    hide Walk, TableOf;
  }

  lemma WindowMovedTwice(m: Phys, m1: Phys, m2: Phys, dirs: set<int>, c: int)
    requires WindowMoved(m, m1, dirs, c) && WindowMoved(m1, m2, dirs, c) && c in dirs
    ensures WindowMoved(m, m2, dirs, c)
  {
    KeptTwice(m, m1, m2, dirs);
    hide Walk, TableOf, DataKept;
  }

  /** The free frames once the window has its page table. */
  ghost function Remaining(m: Phys, c: int, free: seq<int>): seq<int> {
    if TableOf(m, c, 3).Some? || free == [] then free else free[..|free| - 1]
  }

  lemma RemainingIs(m: Phys, c: int, free: seq<int>, rest: seq<int>, t: int)
    requires if TableOf(m, c, 3).Some? then rest == free else rest + [t] == free
    ensures rest == Remaining(m, c, free)
  {
  }

  /** The page table of the windows came from the free frames. */
  ghost predicate WindowTableTaken(m': Phys, dirs: set<int>, c: int, free: seq<int>) {
    && TableOf(m', c, 3).Some? && free != [] && TableOf(m', c, 3).value == free[|free| - 1]
    && FreeOK(m', dirs, free[..|free| - 1])
  }

  lemma MakeWindowTableTaken(m': Phys, dirs: set<int>, c: int, free: seq<int>, rest: seq<int>)
    requires TableOf(m', c, 3).Some? && rest + [TableOf(m', c, 3).value] == free && FreeOK(m', dirs, rest)
    ensures WindowTableTaken(m', dirs, c, free)
  {
    assert rest == free[..|free| - 1];
  }

  lemma WindowTableStays(m: Phys, m': Phys, dirs: set<int>, c: int, free: seq<int>)
    requires TableOf(m, c, 3).Some? && WindowMoved(m, m', dirs, c) && c in dirs
    ensures WindowTableTaken(m, dirs, c, free) ==> WindowTableTaken(m', dirs, c, free)
  {
    assert forall x, j | x in dirs :: TableOf(m', x, j) == TableOf(m, x, j);
  }

  lemma LeavesNone(m: Phys, t: int)
    ensures Leaves(m, t, 0) == []
  {
  }

  lemma LeavesNext(m: Phys, t: int, y: nat)
    ensures Leaves(m, t, y + 1) == Leaves(m, t, y) + (if Get(m, t, y).present then [Get(m, t, y).frame] else [])
  {
  }

  lemma ReleasedAtIs(m: Phys, d: int, i: int)
    ensures ReleasedAt(m, d, i) == if TableOf(m, d, i).Some? then Leaves(m, TableOf(m, d, i).value, 1024) +
              [TableOf(m, d, i).value] else []
  {
  }

  lemma SameReleasedAt(m: Phys, m': Phys, dirs: set<int>, c: int, d: int, i: int)
    requires WindowMoved(m, m', dirs, c) && d in dirs && 256 <= i < SELF
    ensures ReleasedAt(m', d, i) == ReleasedAt(m, d, i)
  {
    SameReleased(m, m', d, i, i + 1);
    assert Released(m, d, i, i) == Released(m', d, i, i) == [];
    assert Released(m, d, i, i + 1) == ReleasedAt(m, d, i) && Released(m', d, i, i + 1) == ReleasedAt(m', d, i);
  }

  /** So far the page tables of dir at indices 256 up to i were given back. */
  ghost predicate Destroying(m: Phys, m': Phys, dirs: set<int>, c: int, free: seq<int>, free': seq<int>, dir: int,
        i: int) {
    && WindowMoved(m, m', dirs, c)
    && free' == Remaining(m, c, free) + Released(m, dir, 256, i)
    && (TableOf(m, c, 3).None? ==> WindowTableTaken(m', dirs, c, free))
  }

  lemma HasWindowTable(m: Phys, m': Phys, dirs: set<int>, c: int, free: seq<int>, free': seq<int>, dir: int, i: int)
    requires Destroying(m, m', dirs, c, free, free', dir, i)
    ensures TableOf(m', c, 3).Some? && WindowMoved(m, m', dirs, c)
  {
  }

  lemma DestroyStart(m: Phys, m': Phys, dirs: set<int>, c: int, free: seq<int>, free': seq<int>, dir: int)
    requires WindowMoved(m, m', dirs, c) && free' == Remaining(m, c, free) + ReleasedAt(m, dir, 256)
    requires TableOf(m, c, 3).None? ==> WindowTableTaken(m', dirs, c, free)
    ensures Destroying(m, m', dirs, c, free, free', dir, 257)
  {
    assert Released(m, dir, 256, 256) == [];
    assert Released(m, dir, 256, 257) == ReleasedAt(m, dir, 256);
  }

  lemma DestroyRound(m: Phys, m1: Phys, m2: Phys, dirs: set<int>, c: int, free: seq<int>, free1: seq<int>,
        free2: seq<int>, dir: int, i: int)
    requires Destroying(m, m1, dirs, c, free, free1, dir, i) && c in dirs && dir in dirs && 256 <= i < SELF
    requires WindowMoved(m1, m2, dirs, c) && free2 == Remaining(m1, c, free1) + ReleasedAt(m1, dir, i)
    ensures Destroying(m, m2, dirs, c, free, free2, dir, i + 1)
  {
    HasWindowTable(m, m1, dirs, c, free, free1, dir, i);
    WindowMovedTwice(m, m1, m2, dirs, c);
    WindowTableStays(m1, m2, dirs, c, free);
    SameReleasedAt(m, m1, dirs, c, dir, i);
    NothingTaken(m1, c, free1);
    ReleasedNext(m, dir, i);
    hide WindowMoved, WindowTableTaken, TableOf, Remaining, Released, ReleasedAt;
    assert free2 == Remaining(m, c, free) + (Released(m, dir, 256, i) + ReleasedAt(m, dir, i));
  }

  lemma NothingTaken(m: Phys, c: int, free: seq<int>)
    requires TableOf(m, c, 3).Some?
    ensures Remaining(m, c, free) == free
  {
  }

  lemma ReleasedNext(m: Phys, d: int, i: int)
    requires 256 <= i
    ensures Released(m, d, 256, i + 1) == Released(m, d, 256, i) + ReleasedAt(m, d, i)
  {
  }

  lemma DestroyedData(m: Phys, m1: Phys, m2: Phys, dirs: set<int>, c: int, free: seq<int>, free': seq<int>, dir: int)
    requires Destroying(m, m1, dirs, c, free, free', dir, SELF) && DataKept(m1, m2, dirs)
    requires forall x, j | x in dirs :: TableOf(m2, x, j) == TableOf(m1, x, j)
    ensures DataKept(m, m2, dirs)
  {
    KeptTwice(m, m1, m2, dirs);
  }

  /** The window closed again, everything else is as it was, and what was given back is nobody's. */
  lemma Destroyed(m: Phys, m1: Phys, m2: Phys, dirs: set<int>, c: int, k: int, free: seq<int>, free': seq<int>,
        dir: int)
    requires Destroying(m, m1, dirs, c, free, free', dir, SELF) && c in dirs && dir in dirs && dir != k && dir > 0
    requires Wf(m, dirs) && FreeOK(m, dirs, free) && Owned(m, dirs, k, free) && Wf(m2, dirs)
    requires Walk(m, c, WINDOW0) == None && Walk(m, c, WINDOW1) == None
    requires forall x, j | x in dirs :: TableOf(m2, x, j) == TableOf(m1, x, j)
    requires forall x, q | x in dirs && Normal(q) ::
               Walk(m2, x, q) == if q == WINDOW0 && TableOf(m2, x, 3) == TableOf(m2, c, 3) then None else Walk(m1, x, q)
    ensures forall x, q | x in dirs && Normal(q) :: Walk(m2, x, q) == Walk(m, x, q)
    ensures var all := free' + [dir];
            && all == Remaining(m, c, free) + Released(m, dir, 256, SELF) + [dir]
            && Wf(m2, dirs - {dir}) && FreeOK(m2, dirs - {dir}, all) && Owned(m2, dirs - {dir}, k, all)
    ensures Walk(m2, c, WINDOW0) == None && Walk(m2, c, WINDOW1) == None
  {
    SameWalks(m, m1, m2, dirs, c);
    var rest := Remaining(m, c, free);
    RemainingOwned(m, m1, m2, dirs, c, k, free, dir);
    SameReleased(m, m2, dir, 256, SELF);
    DestroyKeepsOwned(m2, dirs, k, rest, dir);
  }

  lemma SameWalks(m: Phys, m1: Phys, m2: Phys, dirs: set<int>, c: int)
    requires WindowMoved(m, m1, dirs, c) && c in dirs && Walk(m, c, WINDOW0) == None
    requires forall x, j | x in dirs :: TableOf(m2, x, j) == TableOf(m1, x, j)
    requires forall x, q | x in dirs && Normal(q) ::
               Walk(m2, x, q) == if q == WINDOW0 && TableOf(m2, x, 3) == TableOf(m2, c, 3) then None else Walk(m1, x, q)
    ensures forall x, q | x in dirs && Normal(q) :: Walk(m2, x, q) == Walk(m, x, q)
  {
    forall x, q | x in dirs && Normal(q) ensures Walk(m2, x, q) == Walk(m, x, q) {
      if q == WINDOW0 && TableOf(m1, x, 3) == TableOf(m1, c, 3) { SameTableSameWalk(m, x, c, q); }
      hide Walk, TableOf;
    }
  }

  lemma RemainingOwned(m: Phys, m1: Phys, m2: Phys, dirs: set<int>, c: int, k: int, free: seq<int>, dir: int)
    requires WindowMoved(m, m1, dirs, c) && (TableOf(m, c, 3).None? ==> WindowTableTaken(m1, dirs, c, free))
    requires c in dirs && Wf(m, dirs) && FreeOK(m, dirs, free) && Owned(m, dirs, k, free) && Wf(m2, dirs)
    requires forall x, j | x in dirs :: TableOf(m2, x, j) == TableOf(m1, x, j)
    requires forall x, q | x in dirs && Normal(q) :: Walk(m2, x, q) == Walk(m, x, q)
    ensures FreeOK(m2, dirs, Remaining(m, c, free)) && Owned(m2, dirs, k, Remaining(m, c, free))
  {
    var rest := Remaining(m, c, free);
    if TableOf(m, c, 3).Some? {
      FreeAfterPte(m, m2, dirs, free);
    } else {
      FreeAfterPte(m1, m2, dirs, rest);
      assert free[|free| - 1] in free;
    }
    assert Grown(m, m2, dirs, free, rest) by { hide Walk, TableOf; }
    OwnsNormal(k);
    assert free + [] == free;
    OwnedKept(m, m2, dirs, k, free, [], rest, c, WINDOW0, None);
  }

  lemma OwnsNormal(k: int)
    ensures forall x, q | Owns(k, x, q) :: Normal(q) && q != WINDOW0 && q != WINDOW1
  {
  }

  /** Between m and m' the windows were opened on directory dir and its table at index i: no other
      translation changed, and directories only gained page tables that nobody else has. */
  ghost predicate Opened(m: Phys, m': Phys, dirs: set<int>, free: seq<int>, c: int, dir: int, i: int) {
    && (forall x, q | x in dirs && Normal(q) && q != WINDOW0 && q != WINDOW1 :: Walk(m', x, q) == Walk(m, x, q))
    && (forall x, q | x in dirs && (q == WINDOW0 || q == WINDOW1) && TableOf(m', x, 3) != TableOf(m', c, 3) ::
      Walk(m', x, q) == Walk(m, x, q))
    && (forall x, j | x in dirs && TableOf(m, x, j).Some? :: TableOf(m', x, j) == TableOf(m, x, j))
    && (forall x, j | x in dirs && !(x == dir && j == i) && !(x == c && j == 3) ::
      TableOf(m', x, j) == TableOf(m, x, j))
    && (TableOf(m, c, 3).None? ==> forall x | x in dirs && x != c :: TableOf(m', x, 3) != TableOf(m', c, 3))
    && (TableOf(m, dir, i).None? && !(dir == c && i == 3) ==> forall x | x in dirs && x != dir ::
      TableOf(m', x, i) != TableOf(m', dir, i))
    && (forall x, j | x in dirs && TableOf(m, x, j).None? && TableOf(m', x, j).Some? :: TableOf(m', x, j).value in free)
  }

  /** Some directory came into the first window, whose page table may be new. */
  ghost predicate Shown(m: Phys, m': Phys, dirs: set<int>, free: seq<int>, c: int) {
    && (forall x, j | x in dirs && !(x == c && j == 3) :: TableOf(m', x, j) == TableOf(m, x, j))
    && (TableOf(m, c, 3).Some? ==> TableOf(m', c, 3) == TableOf(m, c, 3))
    && (TableOf(m, c, 3).None? ==> forall x | x in dirs && x != c :: TableOf(m', x, 3) != TableOf(m', c, 3))
    && TableOf(m', c, 3).Some? && (TableOf(m, c, 3).None? ==> TableOf(m', c, 3).value in free)
    && forall x, q | x in dirs && Normal(q) && !(q == WINDOW0 && TableOf(m', x, 3) == TableOf(m', c, 3)) ::
         Walk(m', x, q) == Walk(m, x, q)
  }

  lemma MakeShown(m: Phys, m': Phys, dirs: set<int>, free: seq<int>, c: int)
    requires forall x, j | x in dirs && !(x == c && j == 3) :: TableOf(m', x, j) == TableOf(m, x, j)
    requires TableOf(m, c, 3).Some? ==> TableOf(m', c, 3) == TableOf(m, c, 3)
    requires TableOf(m, c, 3).None? ==> forall x | x in dirs && x != c :: TableOf(m', x, 3) != TableOf(m', c, 3)
    requires TableOf(m', c, 3).Some? && (TableOf(m, c, 3).None? ==> TableOf(m', c, 3).value in free)
    requires forall x, q | x in dirs && Normal(q) && !(q == WINDOW0 && TableOf(m', x, 3) == TableOf(m', c, 3)) ::
               Walk(m', x, q) == Walk(m, x, q)
    ensures Shown(m, m', dirs, free, c)
  {
  }

  lemma ShownTable(m: Phys, m': Phys, dirs: set<int>, free: seq<int>, c: int, dir: int, i: int)
    requires Shown(m, m', dirs, free, c) && dir in dirs
    ensures TableOf(m', dir, i).None? <==> TableOf(m, dir, i).None? && !(dir == c && i == 3)
    ensures TableDemand(m, c, dir, i) == WindowDemand(m, c) + (if TableOf(m', dir, i).None? then 1 else 0)
  {
    hide TableOf, Walk;
  }

  lemma InPrefix(a: seq<int>, b: seq<int>, c: seq<int>, f: int)
    requires |b| <= |a| && b == a[..|b|] && c + [f] == b
    ensures f in a && |c| == |b| - 1 && c == a[..|c|]
  {
    assert b[|c|] == f;
    assert a[|c|] == f;
  }

  lemma MakeOpened(m: Phys, m1: Phys, m2: Phys, m3: Phys, dirs: set<int>, free: seq<int>, c: int, dir: int, i: int)
    requires c in dirs && dir in dirs && 0 <= i < SELF && Shown(m, m1, dirs, free, c)
    // the page table
    requires if TableOf(m1, dir, i).Some? then m2 == m1
             else && TableOf(m2, dir, i).Some? && TableOf(m2, dir, i).value in free
                  && (forall x, j | x in dirs && !(x == dir && j == i) :: TableOf(m2, x, j) == TableOf(m1, x, j))
                  && (forall x, j | x in dirs && 0 <= j < SELF && TableOf(m2, x, j) == TableOf(m2, dir, i) ::
                    x == dir && j == i)
                  && (forall x, q | x in dirs && Normal(q) &&
                    !(q == WINDOW1 && TableOf(m2, x, 3) == TableOf(m2, c, 3)) :: Walk(m2, x, q) == Walk(m1, x, q))
    // the second window
    requires forall x, j | x in dirs :: TableOf(m3, x, j) == TableOf(m2, x, j)
    requires forall x, q | x in dirs && Normal(q) && !(q == WINDOW1 && TableOf(m3, x, 3) == TableOf(m3, c, 3)) ::
              Walk(m3, x, q) == Walk(m2, x, q)
    ensures Opened(m, m3, dirs, free, c, dir, i)
  {
    hide Walk, TableOf;
  }

  /** The only translation that differs is that of page p, in every directory that shares the page
      table directory dir has for it. */
  ghost predicate Remapped(m: Phys, m': Phys, dirs: set<int>, dir: int, p: Page, to: Option<int>) {
    forall x, q | x in dirs && Normal(q) ::
      Walk(m', x, q) == if q == p && TableOf(m', x, p.pde) == TableOf(m', dir, p.pde) then to else Walk(m, x, q)
  }

  /** Directories keep their page tables, and only two entries can gain one, out of the free frames:
      that of the page in dir, which nobody else shares, and that of the windows in the current
      directory. */
  ghost predicate TablesGrown(m: Phys, m': Phys, dirs: set<int>, free: seq<int>, c: int, dir: int, i: int) {
    && (forall x, j | x in dirs && TableOf(m, x, j).Some? :: TableOf(m', x, j) == TableOf(m, x, j))
    && (forall x, j | x in dirs && !(x == dir && j == i) && !(x == c && j == 3) ::
      TableOf(m', x, j) == TableOf(m, x, j))
    && (forall x, j | x in dirs && TableOf(m, x, j).None? && TableOf(m', x, j).Some? :: TableOf(m', x, j).value in free)
    && (TableOf(m, dir, i).None? && i != 3 ==> forall x | x in dirs && x != dir ::
      TableOf(m', x, i) != TableOf(m', dir, i))
  }

  /** Closing the windows does not touch the entry of any other page. */
  lemma EntryStays(m1: Phys, m2: Phys, m3: Phys, m4: Phys, dirs: set<int>, c: int, dir: int, p: Page, e: Entry)
    requires Wf(m1, dirs) && c in dirs && dir in dirs && Normal(p) && p != WINDOW0 && p != WINDOW1
    requires TableOf(m1, c, 3).Some? && TableOf(m1, dir, p.pde).Some?
    requires m2 == Set(m1, TableOf(m1, dir, p.pde).value, p.pte, e)
    requires TableOf(m2, c, 3) == TableOf(m1, c, 3) == TableOf(m3, c, 3)
    requires TableOf(m4, dir, p.pde) == TableOf(m1, dir, p.pde)
    requires m3 == Set(m2, TableOf(m2, c, 3).value, WINDOW0.pte, ABSENT)
    requires m4 == Set(m3, TableOf(m3, c, 3).value, WINDOW1.pte, ABSENT)
    ensures EntryOf(m4, dir, p) == Some(e)
  {
    var t, w := TableOf(m1, dir, p.pde).value, TableOf(m1, c, 3).value;
    if t == w { assert p.pde == 3; }
    hide TableOf, Wf;
  }

  lemma NormalParts(p: Page)
    requires Normal(p)
    ensures 0 <= p.pde < SELF && 0 <= p.pte < 1024
  {
  }

  lemma LeafOf(user: bool, f: int)
    ensures Leaf(Entry(true, user, f)) == Some(f)
  {
  }

  lemma NoLeaf()
    ensures Leaf(ABSENT) == None
  {
  }

  /** A window that was closed in the current directory was closed in all that share its table. */
  lemma ClosedForAll(m: Phys, m': Phys, dirs: set<int>, free: seq<int>, c: int, dir: int, i: int, x: int, w: Page)
    requires Opened(m, m', dirs, free, c, dir, i) && x in dirs && c in dirs && w.pde == 3 && Walk(m, c, w) == None
    requires TableOf(m', x, 3) == TableOf(m', c, 3) && TableOf(m', c, 3).Some? && dir in dirs && 0 <= i < SELF
    ensures Walk(m, x, w) == None
  {
  }

  lemma MakeRemapped(m: Phys, m1: Phys, m2: Phys, m3: Phys, m4: Phys, dirs: set<int>, free: seq<int>, c: int,
        dir: int, p: Page, to: Option<int>)
    requires Opened(m, m1, dirs, free, c, dir, p.pde) && TableOf(m1, c, 3).Some? && c in dirs && dir in dirs
    requires Normal(p)
    requires Walk(m, c, WINDOW0) == None && Walk(m, c, WINDOW1) == None && p != WINDOW0 && p != WINDOW1
    requires forall x, j | x in dirs :: TableOf(m2, x, j) == TableOf(m1, x, j)
    requires forall x, j | x in dirs :: TableOf(m3, x, j) == TableOf(m2, x, j)
    requires forall x, j | x in dirs :: TableOf(m4, x, j) == TableOf(m3, x, j)
    requires forall x, q | x in dirs && Normal(q) ::
               Walk(m2, x, q) == if q == p && TableOf(m2, x, p.pde) == TableOf(m2, dir, p.pde) then to
                 else Walk(m1, x, q)
    requires forall x, q | x in dirs && Normal(q) ::
               Walk(m3, x, q) == if q == WINDOW0 && TableOf(m3, x, 3) == TableOf(m3, c, 3) then None else Walk(m2, x, q)
    requires forall x, q | x in dirs && Normal(q) ::
               Walk(m4, x, q) == if q == WINDOW1 && TableOf(m4, x, 3) == TableOf(m4, c, 3) then None else Walk(m3, x, q)
    ensures Remapped(m, m4, dirs, dir, p, to) && TablesGrown(m, m4, dirs, free, c, dir, p.pde)
    ensures Walk(m4, c, WINDOW0) == None && Walk(m4, c, WINDOW1) == None
  {
    Windows();
    NormalParts(p);
    forall x, q | x in dirs && Normal(q)
      ensures Walk(m4, x, q) == if q == p && TableOf(m4, x, p.pde) == TableOf(m4, dir, p.pde) then to else Walk(m, x, q)
    {
      if (q == WINDOW0 || q == WINDOW1) && TableOf(m1, x, 3) == TableOf(m1, c, 3) {
        ClosedForAll(m, m1, dirs, free, c, dir, p.pde, x, q);
      }
      hide Walk, TableOf;
    }
  }

  /** The same for unmapPage, whose one window shows first the directory and then the table. */
  lemma MakeUnmapped(m: Phys, m1: Phys, m2: Phys, m3: Phys, m4: Phys, dirs: set<int>, free: seq<int>, c: int,
        dir: int, p: Page)
    requires Opened(m, m1, dirs, free, c, dir, p.pde) && TableOf(m1, c, 3).Some? && c in dirs && dir in dirs
    requires Normal(p)
    requires Walk(m, c, WINDOW0) == None && Walk(m, c, WINDOW1) == None && p != WINDOW0 && p != WINDOW1
    requires Shown(m, m1, dirs, free, c)
    requires forall x, j | x in dirs :: TableOf(m2, x, j) == TableOf(m1, x, j)
    requires forall x, j | x in dirs :: TableOf(m3, x, j) == TableOf(m2, x, j)
    requires forall x, j | x in dirs :: TableOf(m4, x, j) == TableOf(m3, x, j)
    requires forall x, q | x in dirs && Normal(q) && !(q == WINDOW0 && TableOf(m2, x, 3) == TableOf(m2, c, 3)) ::
              Walk(m2, x, q) == Walk(m1, x, q)
    requires forall x, q | x in dirs && Normal(q) ::
               Walk(m3, x, q) == if q == p && TableOf(m3, x, p.pde) == TableOf(m3, dir, p.pde) then None
                 else Walk(m2, x, q)
    requires forall x, q | x in dirs && Normal(q) ::
               Walk(m4, x, q) == if q == WINDOW0 && TableOf(m4, x, 3) == TableOf(m4, c, 3) then None else Walk(m3, x, q)
    ensures Remapped(m, m4, dirs, dir, p, None) && TablesGrown(m, m4, dirs, free, c, dir, p.pde)
    ensures Walk(m4, c, WINDOW0) == None && Walk(m4, c, WINDOW1) == None
  {
    Windows();
    NormalParts(p);
    forall x, q | x in dirs && Normal(q)
      ensures Walk(m4, x, q) == if q == p && TableOf(m4, x, p.pde) == TableOf(m4, dir, p.pde) then None
                else Walk(m, x, q)
    {
      if q == WINDOW0 && TableOf(m1, x, 3) == TableOf(m1, c, 3) {
        ClosedForAll(m, m1, dirs, free, c, dir, p.pde, x, q);
      }
      hide Walk, TableOf;
    }
  }

  lemma FewerCached(p: Page)
    ensures forall t: map<Page, int> | Cacheable(t) :: Cacheable(t - {p})
  {
  }

  lemma KernelParts()
    ensures forall i :: IsKernelPart(i) <==> i == 0 || 128 <= i < 136
    ensures PageOf(0x2000_0000) == Page(128, 0) && PageOf(0x2000_0000 + 32 * 0x10_0000) == Page(136, 0)
  {
  }

  lemma CopiedLeaf(pde: Entry, e: Entry)
    requires e == if pde.present then Entry(true, false, pde.frame) else ABSENT
    ensures Leaf(e) == if pde.present then Some(pde.frame) else None
    ensures !e.user
  {
  }

  /** Only the page table entry of the current directory for the windows can have been filled. */
  lemma NotGrownInto(m: Phys, m': Phys, dirs: set<int>, c: int, i: int, f: int)
    requires !IsTable(m, dirs, f) && (TableOf(m', c, i).Some? && TableOf(m, c, i).None? ==>
              TableOf(m', c, i).value != f)
    requires TableOf(m, c, i).Some? ==> TableOf(m', c, i) == TableOf(m, c, i)
    requires forall x, j | x in dirs && !(x == c && j == i) :: TableOf(m', x, j) == TableOf(m, x, j)
    ensures !IsTable(m', dirs, f)
  {
    forall x, j | x in dirs && 0 <= j < SELF ensures TableOf(m', x, j) != Some(f) {
      NotATable(m, dirs, f, x, j);
    }
  }

  lemma NewDirectoryStale(m: Phys, dirs: set<int>, c: int, d: int, tlb: map<Page, int>)
    requires Wf(m, dirs) && c in dirs && d !in dirs && !IsTable(m, dirs, d) && Coherent(tlb, m, c) && Cacheable(tlb)
    ensures Coherent(tlb, Set(Clear(m, d), d, SELF, Entry(true, false, d)), c)
  {
    var m' := Set(Clear(m, d), d, SELF, Entry(true, false, d));
    forall q | q in tlb ensures Walk(m', c, q) == Some(tlb[q]) {
      assert Walk(m, c, q) == Some(tlb[q]);
      if Normal(q) { NotATable(m, dirs, d, c, q.pde); }
    }
  }

  lemma ShareTableStale(m: Phys, dirs: set<int>, c: int, d: int, k: int, i: int, e: Entry, free: seq<int>,
        tlb: map<Page, int>)
    requires Wf(m, dirs) && c in dirs && d in dirs && k in dirs && d != k && d != c && 0 <= i < SELF
    requires Leaf(e) == TableOf(m, k, i)
    requires FreeOK(m, dirs, free) && Coherent(tlb, m, c) && Cacheable(tlb)
    ensures Coherent(tlb, Set(m, d, i, e), c)
  {
    ShareTable(m, dirs, d, k, i, e, free);
    forall q | q in tlb ensures Walk(Set(m, d, i, e), c, q) == Some(tlb[q]) {
      assert Walk(m, c, q) == Some(tlb[q]);
      if q.pde == SELF { assert TableOf(m, c, SELF) == Some(c); }
    }
  }

  /** After createPageDirectory no other directory translates anything differently. */
  lemma WindowGone(m: Phys, m1: Phys, m2: Phys, dirs: set<int>, c: int, d: int)
    requires c in dirs && d !in dirs && TableOf(m1, c, 3).Some? && Walk(m, c, WINDOW0) == None
    requires Walk(m, c, WINDOW1) == None
    requires forall x, j | x in dirs && !(x == c && j == 3) :: TableOf(m1, x, j) == TableOf(m, x, j)
    requires TableOf(m, c, 3).Some? ==> TableOf(m1, c, 3) == TableOf(m, c, 3)
    requires TableOf(m, c, 3).None? ==> forall x | x in dirs && x != c :: TableOf(m1, x, 3) != TableOf(m1, c, 3)
    requires forall x, q | x in dirs && Normal(q) && !(q == WINDOW0 && TableOf(m1, x, 3) == TableOf(m1, c, 3)) ::
              Walk(m1, x, q) == Walk(m, x, q)
    requires forall x, j | x in dirs :: TableOf(m2, x, j) == TableOf(m1, x, j)
    requires forall x, q | x in dirs && Normal(q) ::
               Walk(m2, x, q) == if q == WINDOW0 && TableOf(m2, x, 3) == TableOf(m2, c, 3) then None else Walk(m1, x, q)
    ensures forall x, q | x in dirs && Normal(q) :: Walk(m2, x, q) == Walk(m, x, q)
    ensures Walk(m2, c, WINDOW0) == None && Walk(m2, c, WINDOW1) == None
  {
    Windows();
    forall x, q | x in dirs && Normal(q) ensures Walk(m2, x, q) == Walk(m, x, q) {
      if q == WINDOW0 && TableOf(m1, x, 3) == TableOf(m1, c, 3) {
        SameTableSameWalk(m, x, c, q);
      }
      hide Walk, TableOf;
    }
  }

  lemma SameTableSameWalk(m: Phys, x: int, y: int, q: Page)
    ensures TableOf(m, x, q.pde) == TableOf(m, y, q.pde) ==> Walk(m, x, q) == Walk(m, y, q)
  {
  }

  lemma KernelMapped(m: Phys, m1: Phys, m2: Phys, m3: Phys, m4: Phys, m5: Phys, dirs: set<int>, c: int, dir: int,
        k: int)
    requires c in dirs && dir in dirs && k in dirs && dir != c && TableOf(m1, c, 3).Some?
    requires Walk(m, c, WINDOW0) == None && Walk(m, c, WINDOW1) == None
    requires forall x, j | x in dirs && !(x == c && j == 3) :: TableOf(m1, x, j) == TableOf(m, x, j)
    requires TableOf(m, c, 3).Some? ==> TableOf(m1, c, 3) == TableOf(m, c, 3)
    requires TableOf(m, c, 3).None? ==> forall x | x in dirs && x != c :: TableOf(m1, x, 3) != TableOf(m1, c, 3)
    requires forall x, q | x in dirs && Normal(q) && !(q == WINDOW0 && TableOf(m1, x, 3) == TableOf(m1, c, 3)) ::
              Walk(m1, x, q) == Walk(m, x, q)
    requires forall x, j | x in dirs :: TableOf(m2, x, j) == TableOf(m1, x, j)
    requires forall x, q | x in dirs && Normal(q) && !(q == WINDOW1 && TableOf(m2, x, 3) == TableOf(m2, c, 3)) ::
              Walk(m2, x, q) == Walk(m1, x, q)
    requires forall x, j | x in dirs && !(x == dir && IsKernelPart(j)) :: TableOf(m3, x, j) == TableOf(m2, x, j)
    requires forall j | IsKernelPart(j) :: TableOf(m3, dir, j) == TableOf(m3, k, j)
    requires forall x, q | x in dirs && Normal(q) ::
               Walk(m3, x, q) == if x == dir && IsKernelPart(q.pde) then Walk(m2, k, q) else Walk(m2, x, q)
    requires forall x, j | x in dirs :: TableOf(m4, x, j) == TableOf(m3, x, j)
    requires forall x, q | x in dirs && Normal(q) ::
               Walk(m4, x, q) == if q == WINDOW0 && TableOf(m4, x, 3) == TableOf(m4, c, 3) then None else Walk(m3, x, q)
    requires forall x, j | x in dirs :: TableOf(m5, x, j) == TableOf(m4, x, j)
    requires forall x, q | x in dirs && Normal(q) ::
               Walk(m5, x, q) == if q == WINDOW1 && TableOf(m5, x, 3) == TableOf(m5, c, 3) then None else Walk(m4, x, q)
    ensures forall x, q | x in dirs && Normal(q) ::
              Walk(m5, x, q) == if x == dir && IsKernelPart(q.pde) then Walk(m, k, q) else Walk(m, x, q)
    ensures forall j | IsKernelPart(j) :: TableOf(m5, dir, j) == TableOf(m5, k, j)
    ensures Walk(m5, c, WINDOW0) == None && Walk(m5, c, WINDOW1) == None
  {
    Windows();
    forall x, q | x in dirs && Normal(q)
      ensures Walk(m5, x, q) == if x == dir && IsKernelPart(q.pde) then Walk(m, k, q) else Walk(m, x, q)
    {
      if (q == WINDOW0 || q == WINDOW1) && TableOf(m1, x, 3) == TableOf(m1, c, 3) {
        SameTableSameWalk(m, x, c, q);
      }
      hide Walk, TableOf;
    }
  }

  lemma EntryTable(m: Phys, d: int, i: int)
    ensures TableOf(m, d, i) == if Get(m, d, i).present then Some(Get(m, d, i).frame) else None
  {
  }

  lemma WalkHasTable(m: Phys, c: int, p: Page)
    requires Walk(m, c, p).Some?
    ensures TableOf(m, c, p.pde).Some?
  {
  }

  lemma SelfWalk(m: Phys, dirs: set<int>, c: int)
    requires Wf(m, dirs) && c in dirs
    ensures Walk(m, c, Page(SELF, SELF)) == Some(c)
  {
  }

  lemma SelfWalkTable(m: Phys, dirs: set<int>, c: int, i: int)
    requires Wf(m, dirs) && c in dirs
    ensures Walk(m, c, Page(SELF, i)) == TableOf(m, c, i)
  {
  }
}
