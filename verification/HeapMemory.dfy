/** The kernel's sbrk: the heap grows and shrinks by whole page frames, and mapping a page can take more
    of them for page tables. */
module HeapMemory {

  const FRAME_SIZE := 4096
  const KERNEL_HEAP_BASE_VADDR := 0x2000_0000
  const KERNEL_HEAP_TOP_VADDR := 0x4000_0000

  /** The index of the page table through which mapPage sees directories and page tables. */
  const WINDOW_TABLE := 3

  /** The index of the page table that maps an address. */
  function TableIndex(address: int): int { address / 0x40_0000 }

  /** The page tables missing at the indexes from lo up to hi. */
  function NewTables(tables: set<int>, lo: int, hi: int): nat
    decreases hi - lo
  {
    if hi <= lo then 0 else NewTables(tables, lo, hi - 1) + (if hi - 1 in tables then 0 else 1)
  }

  /** The index behind the last page table of some pages from an address on. */
  function TablesEnd(from: int, pages: nat): int {
    if pages == 0 then TableIndex(from) else TableIndex(from + pages * FRAME_SIZE - 1) + 1
  }

  /** The frames that mapping pages takes: one for each page, one for each page table that is missing, and
      one for that of the windows. */
  function FrameDemand(tables: set<int>, from: int, pages: nat): nat {
    if pages == 0 then 0
    else pages + (if WINDOW_TABLE in tables then 0 else 1) + NewTables(tables, TableIndex(from), TablesEnd(from, pages))
  }

  function Indexes(lo: int, hi: int): (s: set<int>)
    ensures forall i :: i in s <==> lo <= i < hi
    decreases hi - lo
  {
    if hi <= lo then {} else Indexes(lo, hi - 1) + {hi - 1}
  }

  /** The page tables that are there when the pages are mapped. */
  function TablesAfter(tables: set<int>, from: int, pages: nat): set<int> {
    if pages == 0 then tables
    else tables + {WINDOW_TABLE} + Indexes(TableIndex(from), TablesEnd(from, pages))
  }

  lemma {:induction false} NewTablesMore(tables: set<int>, lo: int, hi: int, more: int)
    requires hi <= more
    ensures NewTables(tables, lo, hi) <= NewTables(tables, lo, more)
    decreases more - hi
  {
    if hi < more { NewTablesMore(tables, lo, hi, more - 1); }
  }

  lemma TablesEndNext(from: int, pages: nat)
    requires from % FRAME_SIZE == 0
    ensures var i := TableIndex(from + pages * FRAME_SIZE);
            && TablesEnd(from, pages + 1) == i + 1
            && (TablesEnd(from, pages) == i || (TablesEnd(from, pages) == i + 1 && pages > 0))
  {
    var n := from / FRAME_SIZE + pages;
    assert from + pages * FRAME_SIZE == 4096 * n;
    assert from + (pages + 1) * FRAME_SIZE - 1 == 4096 * n + 4095;
    SameTable(n);
    if pages > 0 { BeforeTable(n); }
  }

  lemma SameTable(n: int)
    ensures (4096 * n + 4095) / 0x40_0000 == (4096 * n) / 0x40_0000 == n / 1024
  {
  }

  lemma BeforeTable(n: int)
    ensures var i := (4096 * n) / 0x40_0000; i - 1 <= (4096 * n - 1) / 0x40_0000 <= i
  {
  }

  /** One page more: the frame itself, and the page tables that the pages before did not make. */
  lemma OneMorePage(tables: set<int>, from: int, pages: nat)
    requires from % FRAME_SIZE == 0
    ensures var after, i := TablesAfter(tables, from, pages), TableIndex(from + pages * FRAME_SIZE);
            && TablesAfter(tables, from, pages + 1) == after + {WINDOW_TABLE, i}
            && (i != WINDOW_TABLE && WINDOW_TABLE < TableIndex(from) ==>
                  FrameDemand(tables, from, pages + 1) == FrameDemand(tables, from, pages) + 1
                    + (if WINDOW_TABLE in after then 0 else 1) + (if i in after then 0 else 1))
  {
    TablesEndNext(from, pages);
    var i := TableIndex(from + pages * FRAME_SIZE);
    if pages == 0 {
      assert TablesEnd(from, 0) == i;
      assert NewTables(tables, i, i) == 0;
    }
    assert NewTables(tables, TableIndex(from), i + 1)
        == NewTables(tables, TableIndex(from), i) + (if i in tables then 0 else 1) || i < TableIndex(from);
    TableIndexUp(from, pages);
  }

  lemma TableIndexUp(from: int, pages: nat)
    ensures TableIndex(from) <= TableIndex(from + pages * FRAME_SIZE)
  {
    assert from <= from + pages * FRAME_SIZE;
  }

  lemma {:induction false} MorePages(tables: set<int>, from: int, pages: nat, more: nat)
    requires from % FRAME_SIZE == 0 && pages <= more && WINDOW_TABLE < TableIndex(from)
    ensures FrameDemand(tables, from, pages) <= FrameDemand(tables, from, more)
    decreases more - pages
  {
    if pages < more {
      MorePages(tables, from, pages, more - 1);
      TableIndexUp(from, more - 1);
      OneMorePage(tables, from, more - 1);
    }
  }

  /** One page of many. */
  lemma NextPage(tables: set<int>, from: int, i: nat, pages: nat)
    requires from % FRAME_SIZE == 0 && WINDOW_TABLE < TableIndex(from) && i < pages
    ensures var after, j := TablesAfter(tables, from, i), TableIndex(from + i * FRAME_SIZE);
            && WINDOW_TABLE < j && TablesAfter(tables, from, i + 1) == after + {WINDOW_TABLE, j}
            && FrameDemand(tables, from, i + 1) == FrameDemand(tables, from, i) + 1
                 + (if WINDOW_TABLE in after then 0 else 1) + (if j in after then 0 else 1)
            && FrameDemand(tables, from, i + 1) <= FrameDemand(tables, from, pages)
    ensures var a := from + i * FRAME_SIZE;
            && a + FRAME_SIZE == from + (i + 1) * FRAME_SIZE <= from + pages * FRAME_SIZE
            && (a + FRAME_SIZE) % FRAME_SIZE == 0
  {
    PageBounds(from, i, pages);
    hide FrameDemand, TablesAfter, TableIndex;
    TableIndexUp(from, i);
    OneMorePage(tables, from, i);
    MorePages(tables, from, i + 1, pages);
  }

  lemma PageBounds(from: int, i: nat, pages: nat)
    requires from % FRAME_SIZE == 0 && i < pages
    ensures from + (i + 1) * FRAME_SIZE <= from + pages * FRAME_SIZE && (from + (i + 1) * FRAME_SIZE) % FRAME_SIZE == 0
  {
    var n := from / 4096 + i + 1;
    assert from + (i + 1) * FRAME_SIZE == 4096 * n;
  }

  lemma FrameIs()
    ensures FRAME_SIZE == 0x1000 && WINDOW_TABLE == 3
  {
  }

  /** HeapMemory_expand returns an address, or halts the kernel through an assertion or Sys_panic. */
  datatype Expansion = Panic | At(address: int)

  class KernelHeap {
    var kernelHeapTop: int
    /** Frames that PhysicalMemory_allocateFrame still has to give. */
    var freeFrames: int
    /** The indexes at which the current directory has page tables. */
    var tables: set<int>

    ghost predicate Valid()
      reads this
      ensures Valid() <==>
              && KERNEL_HEAP_BASE_VADDR <= kernelHeapTop < KERNEL_HEAP_TOP_VADDR
              && kernelHeapTop % FRAME_SIZE == 0 && 0 <= freeFrames
    {
      && KERNEL_HEAP_BASE_VADDR <= kernelHeapTop < KERNEL_HEAP_TOP_VADDR
      && kernelHeapTop % FRAME_SIZE == 0 && 0 <= freeFrames
    }

    constructor (frames: nat, tables: set<int>)
      ensures Valid() && kernelHeapTop == KERNEL_HEAP_BASE_VADDR && freeFrames == frames && this.tables == tables
    {
      kernelHeapTop := KERNEL_HEAP_BASE_VADDR;
      freeFrames := frames;
      this.tables := tables;
    }

    /** Whether HeapMemory_expand can serve a request. */
    ghost predicate Serves(size: int)
      reads this
    {
      if size >= 0 then
        kernelHeapTop + size < KERNEL_HEAP_TOP_VADDR &&
          FrameDemand(tables, kernelHeapTop, size / FRAME_SIZE) <= freeFrames
      else kernelHeapTop + size >= KERNEL_HEAP_BASE_VADDR
    }

    /** HeapMemory_expand. Its assertion against underflow subtracts the negative size and, with a heap
        below 1 GB, never stops anything; the one in the loop does. */
    method Expand(size: int) returns (r: Expansion)
      requires Valid() && size % FRAME_SIZE == 0
      modifies this
      ensures r.At? <==> old(Serves(size))
      ensures r.At? ==> Valid() && kernelHeapTop == old(kernelHeapTop) + size
      ensures r.At? ==> r.address == if size >= 0 then old(kernelHeapTop) else kernelHeapTop
      ensures r.At? && size >= 0 ==>
                && freeFrames == old(freeFrames) - FrameDemand(old(tables), old(kernelHeapTop), size / FRAME_SIZE)
                && tables == TablesAfter(old(tables), old(kernelHeapTop), size / FRAME_SIZE)
      ensures r.At? && size < 0 ==>
                && freeFrames == old(freeFrames) + (-size) / FRAME_SIZE - (if WINDOW_TABLE in old(tables) then 0 else 1)
                && tables == old(tables) + {WINDOW_TABLE}
    {
      if size >= 0 {
        if kernelHeapTop + size >= KERNEL_HEAP_TOP_VADDR {
          return Panic;
        }
        var ret := kernelHeapTop;
        var ok := Grow(size / FRAME_SIZE);
        return if ok then At(ret) else Panic;
      } else {
        var ok := Shrink((-size) / FRAME_SIZE);
        return if ok then At(kernelHeapTop) else Panic;
      }
    }

    method Grow(pages: nat) returns (ok: bool)
      requires Valid() && kernelHeapTop + pages * FRAME_SIZE < KERNEL_HEAP_TOP_VADDR
      modifies this
      ensures ok <==> old(freeFrames) >= FrameDemand(old(tables), old(kernelHeapTop), pages)
      ensures ok ==> Valid() && kernelHeapTop == old(kernelHeapTop) + pages * FRAME_SIZE
      ensures ok ==> freeFrames == old(freeFrames) - FrameDemand(old(tables), old(kernelHeapTop), pages)
      ensures ok ==> tables == TablesAfter(old(tables), old(kernelHeapTop), pages)
    {
      hide *;
      ghost var had, from := tables, kernelHeapTop;
      FrameIs();
      HeapAboveWindows(from);
      NoPages(had, from);
      var i := 0;
      while i < pages
        invariant 0 <= i <= pages && Valid() && kernelHeapTop == from + i * FRAME_SIZE
        invariant freeFrames == old(freeFrames) - FrameDemand(had, from, i) && tables == TablesAfter(had, from, i)
      {
        NextPage(had, from, i, pages);
        var mapped := TakeFrames();
        if !mapped {
          return false;
        }
        kernelHeapTop := kernelHeapTop + FRAME_SIZE;
        i := i + 1;
      }
      ok := true;
    }

    /** The frames taken for one page: its own, and by VirtualMemory_mapPage those for page tables. */
    method TakeFrames() returns (ok: bool)
      requires 0 <= freeFrames && WINDOW_TABLE != TableIndex(kernelHeapTop)
      modifies this`freeFrames, this`tables
      ensures var demand := 1 + (if WINDOW_TABLE in old(tables) then 0 else 1)
                              + (if TableIndex(kernelHeapTop) in old(tables) then 0 else 1);
              && (ok <==> old(freeFrames) >= demand)
              && (ok ==>
                    freeFrames == old(freeFrames) - demand &&
                    tables == old(tables) + {WINDOW_TABLE, TableIndex(kernelHeapTop)})
    {
      ok := freeFrames > 0;
      if ok {
        freeFrames := freeFrames - 1;
        ok := TakeTable(WINDOW_TABLE);
      }
      if ok {
        ok := TakeTable(TableIndex(kernelHeapTop));
      }
    }

    method TakeTable(i: int) returns (ok: bool)
      requires 0 <= freeFrames
      modifies this`freeFrames, this`tables
      ensures ok <==> i in old(tables) || old(freeFrames) > 0
      ensures ok ==> tables == old(tables) + {i} && freeFrames == old(freeFrames) - (if i in old(tables) then 0 else 1)
    {
      ok := true;
      if i !in tables {
        if freeFrames == 0 {
          return false;
        }
        freeFrames := freeFrames - 1;
        tables := tables + {i};
      }
    }

    /** The frame of a page is given back first, and then unmapping the page opens a window. */
    method Shrink(pages: nat) returns (ok: bool)
      requires Valid() && pages > 0
      modifies this
      ensures ok <==> old(kernelHeapTop) - pages * FRAME_SIZE >= KERNEL_HEAP_BASE_VADDR
      ensures ok ==> Valid() && kernelHeapTop == old(kernelHeapTop) - pages * FRAME_SIZE
      ensures ok ==> freeFrames == old(freeFrames) + pages - (if WINDOW_TABLE in old(tables) then 0 else 1)
      ensures ok ==> tables == old(tables) + {WINDOW_TABLE}
    {
      var i := 0;
      while i < pages
        invariant 0 <= i <= pages && Valid() && kernelHeapTop == old(kernelHeapTop) - i * FRAME_SIZE
        invariant tables == if i == 0 then old(tables) else old(tables) + {WINDOW_TABLE}
        invariant freeFrames == old(freeFrames) + i - (if i == 0 || WINDOW_TABLE in old(tables) then 0 else 1)
      {
        kernelHeapTop := kernelHeapTop - FRAME_SIZE;
        if kernelHeapTop < KERNEL_HEAP_BASE_VADDR {
          return false;
        }
        freeFrames := freeFrames + 1;
        var done := TakeTable(WINDOW_TABLE);
        i := i + 1;
      }
      ok := true;
    }
  }

  lemma HeapAboveWindows(a: int)
    requires KERNEL_HEAP_BASE_VADDR <= a
    ensures WINDOW_TABLE < TableIndex(a)
  {
  }

  lemma NoPages(tables: set<int>, from: int)
    ensures FrameDemand(tables, from, 0) == 0 && TablesAfter(tables, from, 0) == tables
  {
  }
}
