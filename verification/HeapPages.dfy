/** Heaps over the frame stack and the page tables: the loops of HeapMemory_expand and
    HeapMemory_expandUser, which map and unmap one page after another. */
module HeapPages {
  import opened AccessModes
  import opened FrameOwnership
  import opened HeapMemory
  import opened Options
  import opened Paging
  import opened VirtualMemory

  const USER_HEAP_BASE_VADDR := 0x8000_0000
  const USER_HEAP_TOP_VADDR := 0xFFBF_E000

  function Address(p: Page): int { p.pde * 0x40_0000 + p.pte * 0x1000 }

  lemma AddressOfPage(a: int)
    requires 0 <= a && a % 0x1000 == 0
    ensures Address(PageOf(a)) == a
  {
  }

  lemma PageOfAddress(p: Page)
    requires Normal(p)
    ensures PageOf(Address(p)) == p && Address(p) % 0x1000 == 0
  {
    PageIndices(p.pde, p.pte);
  }

  lemma PageIndices(i: int, j: int)
    requires 0 <= j < 0x400
    ensures var n := i * 0x400 + j;
            && n / 0x400 == i && n % 0x400 == j
            && i * 0x40_0000 + j * 0x1000 == 0x1000 * n
            && (0x1000 * n) / 0x1000 == n && (0x1000 * n) % 0x1000 == 0 && (0x1000 * n) / 0x40_0000 == i
  {
    var n := i * 0x400 + j;
    assert 0x1000 * n == 0x40_0000 * i + 0x1000 * j && 0 <= 0x1000 * j < 0x40_0000;
  }

  /** The kernel heap in directory d, whichever it is, or the heap of the process of directory d. */
  ghost predicate HeapRange(k: int, d: int, base: int, limit: int) {
    || (base == KERNEL_HEAP_BASE_VADDR && limit == KERNEL_HEAP_TOP_VADDR)
    || (base == USER_HEAP_BASE_VADDR && limit == USER_HEAP_TOP_VADDR && d != k)
  }

  lemma RangeOwned(k: int, d: int, base: int, limit: int, a: int)
    requires HeapRange(k, d, base, limit) && base <= a < limit && a % 0x1000 == 0
    ensures var p := PageOf(a);
            && Owns(k, d, p) && Normal(p) && p != WINDOW0 && p != WINDOW1 && WINDOW_TABLE < p.pde == TableIndex(a)
            && Address(p) == a && Aligned(a)
  {
    AddressOfPage(a);
  }

  lemma RangeBounds(k: int, d: int, base: int, limit: int)
    requires HeapRange(k, d, base, limit)
    ensures 0x2000_0000 <= base < limit < 0x1_0000_0000 && base % 0x1000 == 0 && limit % 0x1000 == 0
    ensures WINDOW_TABLE == 3 < TableIndex(base)
  {
  }

  /** Every page of the heap is mapped. */
  ghost predicate HeapMapped(m: Phys, d: int, base: int, top: int) {
    forall q | Normal(q) && base <= Address(q) < top :: Walk(m, d, q).Some?
  }

  /** Directory x has the page table of directory d for a page. */
  ghost predicate Shares(m: Phys, x: int, d: int, q: Page) { TableOf(m, x, q.pde) == TableOf(m, d, q.pde) }

  /** Of all translations, those of the pages between two addresses, in d and wherever its page tables are
      shared, became frames that were free. */
  ghost predicate HeapGrown(m: Phys, m': Phys, dirs: set<int>, free: seq<int>, d: int, lo: int, hi: int) {
    forall x, q | x in dirs && Normal(q) ::
      if lo <= Address(q) < hi && Shares(m', x, d, q) then Walk(m', x, q).Some? && Walk(m', x, q).value in free
      else Walk(m', x, q) == Walk(m, x, q)
  }

  /** The pages of d between two addresses read as zeros, and but for their frames all data is where it
      was. */
  ghost predicate HeapClean(m: Phys, m': Phys, dirs: set<int>, free: seq<int>, free': seq<int>, d: int, lo: int,
        hi: int) {
    && (forall q, i | Normal(q) && lo <= Address(q) < hi && Walk(m', d, q).Some? ::
          Get(m', Walk(m', d, q).value, i) == ABSENT)
    && (forall g, i | g !in dirs && !IsTable(m', dirs, g) && (g in free ==> g in free') ::
          Get(m', g, i) == Get(m, g, i))
  }

  /** Of all translations, those of the pages between two addresses, in d and wherever its page tables are
      shared, went away. */
  ghost predicate HeapShrunk(m: Phys, m': Phys, dirs: set<int>, d: int, lo: int, hi: int) {
    forall x, q | x in dirs && Normal(q) ::
      Walk(m', x, q) == if lo <= Address(q) < hi && Shares(m', x, d, q) then None else Walk(m, x, q)
  }

  /** The frames behind the pages from hi down to lo, in that order. */
  ghost function FramesDown(m: Phys, d: int, hi: int, lo: int): seq<int>
    decreases hi - lo
  {
    if hi <= lo then []
    else FramesDown(m, d, hi, lo + 0x1000) + (match Walk(m, d, PageOf(lo)) case Some(f) => [f] case None => [])
  }

  /** Which stands where, when all of them are mapped. */
  lemma {:induction false} FramesDownAt(m: Phys, d: int, hi: int, lo: int, i: nat)
    requires lo + 0x1000 * i < hi && (hi - lo) % 0x1000 == 0
    requires forall a | lo <= a < hi && (hi - a) % 0x1000 == 0 :: Walk(m, d, PageOf(a)).Some?
    ensures var s := FramesDown(m, d, hi, lo);
            |s| == (hi - lo) / 0x1000 && s[i] == Walk(m, d, PageOf(hi - 0x1000 * (i + 1))).value
    decreases hi - lo
  {
    hide Walk, PageOf;
    assert FramesDown(m, d, hi, hi) == [];
    if lo + 0x1000 < hi {
      FramesDownAt(m, d, hi, lo + 0x1000, if lo + 0x1000 * (i + 1) < hi then i else 0);
    }
  }

  /** What is left of frames given back one by one when the first w of them are taken again at once. */
  function AfterFirst(s: seq<int>, w: nat): seq<int> { if w < |s| then s[w..] else [] }

  /** The indexes at which a directory has page tables. */
  ghost function TablesOf(m: Phys, d: int): set<int> {
    set i | 0 <= i < SELF && TableOf(m, d, i).Some? :: i
  }

  /** From 1 GB on nobody shares page tables, so a process's heap is in its own directory alone. */
  lemma UserHeapAlone(m: Phys, dirs: set<int>, k: int, free: seq<int>, d: int, x: int, q: Page)
    requires Owned(m, dirs, k, free) && d in dirs && x in dirs && Normal(q) && Address(q) >= USER_HEAP_BASE_VADDR
    requires TableOf(m, d, q.pde).Some?
    ensures Shares(m, x, d, q) <==> x == d
  {
    hide TableOf;
  }

  lemma TablesNow(m: Phys, m': Phys, dirs: set<int>, c: int, i: int)
    requires TablesAdded(m, m', dirs, c, i) && c in dirs && 0 <= i < SELF
    ensures TablesOf(m', c) == TablesOf(m, c) + {WINDOW_TABLE, i}
    ensures TableDemand(m, c, c, i) ==
              (if WINDOW_TABLE in TablesOf(m, c) then 0 else 1) + (if i == 3 || i in TablesOf(m, c) then 0 else 1)
    ensures WindowDemand(m, c) == (if WINDOW_TABLE in TablesOf(m, c) then 0 else 1) && WindowDemand(m', c) == 0
  {
    hide TableOf;
  }

  lemma DemandNow(m: Phys, c: int, i: int)
    requires 0 <= i < SELF
    ensures TableDemand(m, c, c, i) ==
              (if WINDOW_TABLE in TablesOf(m, c) then 0 else 1) + (if i == 3 || i in TablesOf(m, c) then 0 else 1)
    ensures WindowDemand(m, c) == if WINDOW_TABLE in TablesOf(m, c) then 0 else 1
  {
    hide TableOf;
  }

  /** Where page tables are shared does not change with a page of the heap that d has already. */
  lemma SharingStays(m: Phys, m': Phys, dirs: set<int>, d: int, p: Page, x: int, q: Page)
    requires TablesAdded(m, m', dirs, d, p.pde) && TablesStay(m, m', dirs) && d in dirs && x in dirs
    requires WINDOW_TABLE < q.pde && (q.pde == p.pde ==> TableOf(m, d, q.pde).Some?)
    ensures Shares(m', x, d, q) <==> Shares(m, x, d, q)
  {
    hide TableOf;
  }

  // ------------------------------------------------------------------- mode bits

  /** Directory entries and the entries of all pages that were mapped, but for those between two addresses,
      stay as they were. */
  ghost predicate HeapModes(m: Phys, m': Phys, dirs: set<int>, lo: int, hi: int) {
    && (forall x, j | x in dirs && Get(m, x, j).present :: Get(m', x, j) == Get(m, x, j))
    && forall x, q | x in dirs && Normal(q) && !(lo <= Address(q) < hi) && q !in WINDOWS && Walk(m, x, q).Some? ::
         EntryOf(m', x, q) == EntryOf(m, x, q)
  }

  /** The pages of d between two addresses have the mode asked for, and so have the page tables that were
      made for them. */
  ghost predicate HeapMode(m: Phys, m': Phys, d: int, lo: int, hi: int, user: bool) {
    && (forall q | Normal(q) && lo <= Address(q) < hi ::
          EntryOf(m', d, q).Some? && EntryOf(m', d, q).value.present && EntryOf(m', d, q).value.user == user)
    && forall j | 0 <= j < SELF && j != WINDOW_TABLE && TableOf(m, d, j).None? && TableOf(m', d, j).Some? ::
         Get(m', d, j).user == user
  }

  lemma ModesAtFirst(m: Phys, dirs: set<int>, d: int, top: int, user: bool)
    ensures HeapModes(m, m, dirs, top, top) && HeapMode(m, m, d, top, top, user)
  {
  }

  lemma ModesStep(m: Phys, m1: Phys, m2: Phys, dirs: set<int>, k: int, d: int, base: int, limit: int, lo: int, top: int,
        user: bool)
    requires HeapModes(m, m1, dirs, lo, top) && HeapMode(m, m1, d, lo, top, user)
    requires ModesKept(m1, m2, dirs, WINDOWS + {PageOf(top)}) && TablesAdded(m1, m2, dirs, d, PageOf(top).pde)
    requires TableOf(m1, d, PageOf(top).pde).None? && PageOf(top).pde != 3 ==> Get(m2, d, PageOf(top).pde).user == user
    requires EntryOf(m2, d, PageOf(top)).Some? && EntryOf(m2, d, PageOf(top)).value.present
    requires EntryOf(m2, d, PageOf(top)).value.user == user
    requires HeapRange(k, d, base, limit) && base <= lo <= top < limit && top % 0x1000 == 0 && d in dirs
    ensures HeapModes(m, m2, dirs, lo, top + 0x1000) && HeapMode(m, m2, d, lo, top + 0x1000, user)
  {
    hide *;
    RangeOwned(k, d, base, limit, top);
    OthersModes(m, m1, m2, dirs, lo, lo, top, top + 0x1000, top);
    forall q | Normal(q) && lo <= Address(q) < top + 0x1000
      ensures EntryOf(m2, d, q).Some? && EntryOf(m2, d, q).value.present && EntryOf(m2, d, q).value.user == user
    {
      PageOfAddress(q);
      AtMost(Address(q), top);
      RangeOwned(k, d, base, limit, Address(q));
      if q != PageOf(top) { ModeBefore(m, m1, m2, dirs, d, lo, top, q, user); }
    }
    TableModes(m, m1, m2, dirs, d, lo, top, PageOf(top).pde, user);
    FrameIs();
  }

  lemma ModeBefore(m: Phys, m1: Phys, m2: Phys, dirs: set<int>, d: int, lo: int, top: int, q: Page, user: bool)
    requires HeapMode(m, m1, d, lo, top, user) && ModesKept(m1, m2, dirs, WINDOWS + {PageOf(top)}) && d in dirs
    requires Normal(q) && lo <= Address(q) < top && q != WINDOW0 && q != WINDOW1 && q != PageOf(top)
    ensures EntryOf(m2, d, q).Some? && EntryOf(m2, d, q).value.present && EntryOf(m2, d, q).value.user == user
  {
    WalkEntry(m1, d, q);
    hide Walk, EntryOf, Address, PageOf, Normal;
  }

  lemma TableModes(m: Phys, m1: Phys, m2: Phys, dirs: set<int>, d: int, lo: int, top: int, i: int, user: bool)
    requires HeapMode(m, m1, d, lo, top, user) && ModesKept(m1, m2, dirs, WINDOWS + {PageOf(top)}) && d in dirs
    requires TablesAdded(m1, m2, dirs, d, i) && i == PageOf(top).pde
    requires TableOf(m1, d, i).None? && i != 3 ==> Get(m2, d, i).user == user
    requires forall q | Normal(q) && lo <= Address(q) < top + 0x1000 ::
               EntryOf(m2, d, q).Some? && EntryOf(m2, d, q).value.present && EntryOf(m2, d, q).value.user == user
    ensures HeapMode(m, m2, d, lo, top + 0x1000, user)
  {
    forall j | 0 <= j < SELF && j != WINDOW_TABLE && TableOf(m, d, j).None? && TableOf(m2, d, j).Some?
      ensures Get(m2, d, j).user == user
    {
      if TableOf(m1, d, j).Some? { PresentStays(m1, m2, dirs, WINDOWS + {PageOf(top)}, d, j); }
    }
    hide EntryOf, Address, Normal, Walk;
  }

  /** Another page of the range, above or below, is mapped or unmapped. */
  lemma OthersModes(m: Phys, m1: Phys, m2: Phys, dirs: set<int>, lo: int, lo': int, hi: int, hi': int, a: int)
    requires HeapModes(m, m1, dirs, lo, hi) && ModesKept(m1, m2, dirs, WINDOWS + {PageOf(a)})
    requires lo' <= lo && hi <= hi' && Address(PageOf(a)) == a && lo' <= a < hi'
    ensures HeapModes(m, m2, dirs, lo', hi')
  {
    forall x, q | x in dirs && Normal(q) && !(lo' <= Address(q) < hi') && q !in WINDOWS && Walk(m, x, q).Some?
      ensures EntryOf(m2, x, q) == EntryOf(m, x, q)
    {
      WalkEntry(m, x, q);
      WalkEntry(m1, x, q);
      hide Walk, EntryOf, Address, PageOf, Normal;
    }
    hide Walk, EntryOf, Address, PageOf, Normal;
  }

  /** Page tables stay; those that directory d gained are its alone, but for that of the windows. */
  ghost predicate TablesKept(m: Phys, m': Phys, dirs: set<int>, d: int) {
    && (forall x, j | x in dirs && x != d :: TableOf(m', x, j) == TableOf(m, x, j))
    && (forall j | TableOf(m, d, j).Some? :: TableOf(m', d, j) == TableOf(m, d, j))
    && (forall x, j | x in dirs && x != d && j != WINDOW_TABLE && TableOf(m, d, j).None? && TableOf(m', d, j).Some? ::
          TableOf(m', x, j) != TableOf(m', d, j))
  }

  lemma KeptStep(m: Phys, m1: Phys, m2: Phys, dirs: set<int>, d: int, i: int)
    requires TablesKept(m, m1, dirs, d) && TablesAdded(m1, m2, dirs, d, i) && TablesStay(m1, m2, dirs) && d in dirs
    ensures TablesKept(m, m2, dirs, d)
  {
    hide TableOf;
  }

  lemma KeptAtFirst(m: Phys, dirs: set<int>, d: int)
    ensures TablesKept(m, m, dirs, d)
  {
  }

  lemma GrowStep(m: Phys, m1: Phys, m2: Phys, dirs: set<int>, free: seq<int>, was: seq<int>, now: seq<int>, k: int,
        d: int, base: int, limit: int, lo: int, top: int)
    requires HeapGrown(m, m1, dirs, free, d, lo, top) && HeapMapped(m1, d, base, top)
    requires Given(m1, m2, dirs, was, now, d, PageOf(top))
    requires TablesAdded(m1, m2, dirs, d, PageOf(top).pde) && TablesStay(m1, m2, dirs)
    requires d in dirs && |was| <= |free| && was == free[..|was|]
    requires HeapRange(k, d, base, limit) && base <= lo <= top < limit && top % 0x1000 == 0
    ensures HeapGrown(m, m2, dirs, free, d, lo, top + 0x1000) && HeapMapped(m2, d, base, top + 0x1000)
  {
    var p := PageOf(top);
    var f :| f in was && f !in now && Remapped(m1, m2, dirs, d, p, Some(f));
    GrowWith(m, m1, m2, dirs, free, k, d, base, limit, lo, top, f);
  }

  lemma GrowWith(m: Phys, m1: Phys, m2: Phys, dirs: set<int>, free: seq<int>, k: int, d: int, base: int, limit: int,
        lo: int, top: int, f: int)
    requires HeapGrown(m, m1, dirs, free, d, lo, top) && HeapMapped(m1, d, base, top)
    requires f in free && Remapped(m1, m2, dirs, d, PageOf(top), Some(f))
    requires TablesAdded(m1, m2, dirs, d, PageOf(top).pde) && TablesStay(m1, m2, dirs) && d in dirs
    requires HeapRange(k, d, base, limit) && base <= lo <= top < limit && top % 0x1000 == 0
    ensures HeapGrown(m, m2, dirs, free, d, lo, top + 0x1000) && HeapMapped(m2, d, base, top + 0x1000)
  {
    hide *;
    var p := PageOf(top);
    RangeOwned(k, d, base, limit, top);
    forall x, q | x in dirs && Normal(q)
      ensures Walk(m2, x, q) == if q == p && Shares(m2, x, d, q) then Some(f) else Walk(m1, x, q)
      ensures q == p <==> top <= Address(q) < top + 0x1000
      ensures base <= Address(q) < top ==> (Shares(m2, x, d, q) <==> Shares(m1, x, d, q))
    {
      PageOfAddress(q);
      RemappedAt(m1, m2, dirs, d, p, Some(f), x, q);
      if Address(q) < top + 0x1000 { AtMost(Address(q), top); }
      if base <= Address(q) < top {
        RangeOwned(k, d, base, limit, Address(q));
        MappedPage(m1, d, base, top, q);
        WalkHasTable(m1, d, q);
        SharingStays(m1, m2, dirs, d, p, x, q);
      }
    }
    MakeGrown(m, m1, m2, dirs, free, d, base, lo, top, p, f);
  }

  lemma RemappedAt(m: Phys, m': Phys, dirs: set<int>, d: int, p: Page, to: Option<int>, x: int, q: Page)
    requires Remapped(m, m', dirs, d, p, to) && x in dirs && Normal(q)
    ensures Walk(m', x, q) == if q == p && Shares(m', x, d, q) then to else Walk(m, x, q)
  {
    hide Walk, TableOf;
  }

  lemma MappedPage(m: Phys, d: int, base: int, top: int, q: Page)
    requires HeapMapped(m, d, base, top) && Normal(q) && base <= Address(q) < top
    ensures Walk(m, d, q).Some?
  {
    hide Walk, Address;
  }

  lemma MakeGrown(m: Phys, m1: Phys, m2: Phys, dirs: set<int>, free: seq<int>, d: int, base: int, lo: int, top: int,
        p: Page, f: int)
    requires HeapGrown(m, m1, dirs, free, d, lo, top) && HeapMapped(m1, d, base, top) && f in free && d in dirs
    requires base <= lo <= top
    requires forall x, q | x in dirs && Normal(q) ::
               && Walk(m2, x, q) == (if q == p && Shares(m2, x, d, q) then Some(f) else Walk(m1, x, q))
               && (q == p <==> top <= Address(q) < top + 0x1000)
               && (base <= Address(q) < top ==> (Shares(m2, x, d, q) <==> Shares(m1, x, d, q)))
    ensures HeapGrown(m, m2, dirs, free, d, lo, top + 0x1000) && HeapMapped(m2, d, base, top + 0x1000)
  {
    SharesItself(m2, d);
    hide Walk, Address, Normal, Shares;
  }

  lemma SharesItself(m: Phys, d: int)
    ensures forall q :: Shares(m, d, d, q)
  {
  }

  lemma CleanStep(m: Phys, m1: Phys, m2: Phys, dirs: set<int>, free: seq<int>, was: seq<int>, now: seq<int>, k: int,
        d: int, base: int, limit: int, lo: int, top: int)
    requires HeapClean(m, m1, dirs, free, was, d, lo, top) && Given(m1, m2, dirs, was, now, d, PageOf(top))
    requires TablesStay(m1, m2, dirs) && Owned(m1, dirs, k, was) && Owned(m2, dirs, k, now) && d in dirs
    requires |was| <= |free| && was == free[..|was|] && |now| <= |was| && now == was[..|now|]
    requires HeapRange(k, d, base, limit) && base <= lo <= top < limit && top % 0x1000 == 0
    ensures HeapClean(m, m2, dirs, free, now, d, lo, top + 0x1000)
  {
    var p := PageOf(top);
    var f :| f in was && f !in now && Remapped(m1, m2, dirs, d, p, Some(f))
      && (forall g, i | g !in dirs && !IsTable(m2, dirs, g) ::
            Get(m2, g, i) == if g == f then ABSENT else Get(m1, g, i));
    CleanWith(m, m1, m2, dirs, free, was, now, k, d, base, limit, lo, top, f);
  }

  lemma CleanWith(m: Phys, m1: Phys, m2: Phys, dirs: set<int>, free: seq<int>, was: seq<int>, now: seq<int>, k: int,
        d: int, base: int, limit: int, lo: int, top: int, f: int)
    requires HeapClean(m, m1, dirs, free, was, d, lo, top) && f in was && f !in now
    requires Remapped(m1, m2, dirs, d, PageOf(top), Some(f))
    requires forall g, i | g !in dirs && !IsTable(m2, dirs, g) ::
              Get(m2, g, i) == if g == f then ABSENT else Get(m1, g, i)
    requires TablesStay(m1, m2, dirs) && Owned(m1, dirs, k, was) && Owned(m2, dirs, k, now) && d in dirs
    requires |was| <= |free| && was == free[..|was|] && |now| <= |was| && now == was[..|now|]
    requires HeapRange(k, d, base, limit) && base <= lo <= top < limit && top % 0x1000 == 0
    ensures HeapClean(m, m2, dirs, free, now, d, lo, top + 0x1000)
  {
    hide *;
    var p := PageOf(top);
    RangeOwned(k, d, base, limit, top);
    MappedNow(m1, m2, dirs, d, p, f);
    TablesBefore(m1, m2, dirs);
    forall q, i | Normal(q) && lo <= Address(q) < top + 0x1000 && Walk(m2, d, q).Some?
      ensures Get(m2, Walk(m2, d, q).value, i) == ABSENT
    {
      PageOfAddress(q);
      AtMost(Address(q), top);
      RangeOwned(k, d, base, limit, Address(q));
      CleanPage(m1, m2, dirs, was, now, k, d, p, f, q, i);
      CleanBefore(m, m1, dirs, free, was, d, lo, top, q, i);
    }
    MakeClean(m, m1, m2, dirs, free, was, now, d, lo, top, f);
  }

  lemma AtMost(a: int, top: int)
    requires a % 0x1000 == 0 && top % 0x1000 == 0 && a < top + 0x1000
    ensures a <= top
  {
  }

  lemma TablesBefore(m1: Phys, m2: Phys, dirs: set<int>)
    requires TablesStay(m1, m2, dirs)
    ensures forall g | !IsTable(m2, dirs, g) :: !IsTable(m1, dirs, g)
  {
    forall g | !IsTable(m2, dirs, g) ensures !IsTable(m1, dirs, g) {
      forall x, j | x in dirs && 0 <= j < SELF ensures TableOf(m1, x, j) != Some(g) {
        NotATable(m2, dirs, g, x, j);
        hide TableOf;
      }
    }
  }

  lemma MakeClean(m: Phys, m1: Phys, m2: Phys, dirs: set<int>, free: seq<int>, was: seq<int>, now: seq<int>, d: int,
        lo: int, top: int, f: int)
    requires HeapClean(m, m1, dirs, free, was, d, lo, top) && f in was && f !in now
    requires |was| <= |free| && was == free[..|was|] && |now| <= |was| && now == was[..|now|]
    requires forall g | !IsTable(m2, dirs, g) :: !IsTable(m1, dirs, g)
    requires forall g, i | g !in dirs && !IsTable(m2, dirs, g) ::
              Get(m2, g, i) == if g == f then ABSENT else Get(m1, g, i)
    requires forall q, i | Normal(q) && lo <= Address(q) < top + 0x1000 && Walk(m2, d, q).Some? ::
               Get(m2, Walk(m2, d, q).value, i) == ABSENT
    ensures HeapClean(m, m2, dirs, free, now, d, lo, top + 0x1000)
  {
    hide Walk, Address, IsTable, Normal;
  }

  lemma CleanBefore(m: Phys, m1: Phys, dirs: set<int>, free: seq<int>, was: seq<int>, d: int, lo: int, top: int,
        q: Page,
        i: int)
    requires HeapClean(m, m1, dirs, free, was, d, lo, top) && Normal(q)
    ensures lo <= Address(q) < top && Walk(m1, d, q).Some? ==> Get(m1, Walk(m1, d, q).value, i) == ABSENT
  {
    hide Walk, Address;
  }

  /** The new page reads as zeros, and the others as before. */
  lemma CleanPage(m1: Phys, m2: Phys, dirs: set<int>, was: seq<int>, now: seq<int>, k: int, d: int, p: Page, f: int,
        q: Page, i: int)
    requires Owned(m1, dirs, k, was) && Owned(m2, dirs, k, now) && d in dirs && Owns(k, d, q) && Normal(q)
    requires f in was && Remapped(m1, m2, dirs, d, p, Some(f)) && Walk(m2, d, q).Some?
    requires forall g, j | g !in dirs && !IsTable(m2, dirs, g) ::
              Get(m2, g, j) == if g == f then ABSENT else Get(m1, g, j)
    ensures q == p ==> Get(m2, Walk(m2, d, q).value, i) == ABSENT
    ensures q != p ==> Walk(m1, d, q) == Walk(m2, d, q)
    ensures q != p ==> Get(m2, Walk(m2, d, q).value, i) == Get(m1, Walk(m1, d, q).value, i)
  {
    hide Walk, TableOf, IsTable, Owns;
    assert InUse(m2, dirs, now, Walk(m2, d, q).value);
    if q != p { assert InUse(m1, dirs, was, Walk(m1, d, q).value); }
  }

  lemma ShrinkStep(m: Phys, m1: Phys, m2: Phys, dirs: set<int>, k: int, d: int, base: int, limit: int, top: int,
        hi: int)
    requires HeapShrunk(m, m1, dirs, d, top + 0x1000, hi) && HeapMapped(m1, d, base, top + 0x1000)
    requires HeapMapped(m, d, base, hi)
    requires Remapped(m1, m2, dirs, d, PageOf(top), None) && TablesStay(m1, m2, dirs)
    requires TablesAdded(m1, m2, dirs, d, PageOf(top).pde)
    requires d in dirs && HeapRange(k, d, base, limit) && base <= top < hi <= limit && top % 0x1000 == 0
    ensures HeapShrunk(m, m2, dirs, d, top, hi) && HeapMapped(m2, d, base, top)
    ensures Walk(m1, d, PageOf(top)).Some?
    ensures FramesDown(m, d, hi, top) == FramesDown(m, d, hi, top + 0x1000) + [Walk(m1, d, PageOf(top)).value]
  {
    var p := PageOf(top);
    RangeOwned(k, d, base, limit, top);
    assert Walk(m1, d, p).Some?;
    WalkHasTable(m1, d, p);
    forall x, q | x in dirs && Normal(q)
      ensures Walk(m2, x, q) == if q == p && Shares(m2, x, d, q) then None else Walk(m1, x, q)
      ensures q == p <==> top <= Address(q) < top + 0x1000
      ensures base <= Address(q) < hi ==> (Shares(m2, x, d, q) <==> Shares(m1, x, d, q))
    {
      PageOfAddress(q);
      if base <= Address(q) < hi {
        RangeOwned(k, d, base, limit, Address(q));
        SharingStays(m1, m2, dirs, d, p, x, q);
      }
      hide Walk, TableOf, Address, PageOf;
    }
    assert Walk(m1, d, p) == Walk(m, d, p);
    hide Walk, TableOf, Address, PageOf, Shares;
  }

  /** A heap from base up to top, in the current directory, and everything the memory manager keeps. */
  ghost predicate HeapReady(vmm: VMM, k: int, base: int, limit: int, top: int)
    reads vmm
    ensures HeapReady(vmm, k, base, limit, top) <==>
            && vmm.Inv() && vmm.WindowsClosed() && Owned(vmm.mem, vmm.dirs, k, vmm.frames)
            && HeapRange(k, vmm.cr3, base, limit) && base <= top <= limit && top % 0x1000 == 0
            && HeapMapped(vmm.mem, vmm.cr3, base, top)
  {
    && vmm.Inv() && vmm.WindowsClosed() && Owned(vmm.mem, vmm.dirs, k, vmm.frames)
    && HeapRange(k, vmm.cr3, base, limit) && base <= top <= limit && top % 0x1000 == 0
    && HeapMapped(vmm.mem, vmm.cr3, base, top)
  }

  /** The loop that expands a heap, which ends early exactly when the frames do not reach. */
  method GrowHeap(vmm: VMM, ghost k: int, ghost base: int, ghost limit: int, top: int, user: bool, pages: nat)
      returns (ok: bool, top': int)
    requires HeapReady(vmm, k, base, limit, top) && top + pages * 0x1000 <= limit
    modifies vmm`mem, vmm`tlb, vmm`frames
    ensures ok <==> |old(vmm.frames)| >= FrameDemand(TablesOf(old(vmm.mem), vmm.cr3), top, pages)
    ensures ok ==> HeapReady(vmm, k, base, limit, top') && top' == top + pages * 0x1000
    ensures ok ==> HeapGrown(old(vmm.mem), vmm.mem, vmm.dirs, old(vmm.frames), vmm.cr3, top, top')
    ensures ok ==> HeapClean(old(vmm.mem), vmm.mem, vmm.dirs, old(vmm.frames), vmm.frames, vmm.cr3, top, top')
    ensures ok ==> |vmm.frames| == |old(vmm.frames)| - FrameDemand(TablesOf(old(vmm.mem), vmm.cr3), top, pages)
    ensures ok ==> vmm.frames == old(vmm.frames)[..|vmm.frames|]
    ensures ok ==> TablesOf(vmm.mem, vmm.cr3) == TablesAfter(TablesOf(old(vmm.mem), vmm.cr3), top, pages)
    ensures ok ==> TablesKept(old(vmm.mem), vmm.mem, vmm.dirs, vmm.cr3)
    ensures ok ==> HeapModes(old(vmm.mem), vmm.mem, vmm.dirs, top, top')
    ensures ok ==> HeapMode(old(vmm.mem), vmm.mem, vmm.cr3, top, top', user)
  {
    hide *;
    ghost var m0, free, had, d := vmm.mem, vmm.frames, TablesOf(vmm.mem, vmm.cr3), vmm.cr3;
    GrownNothing(m0, vmm.dirs, free, d, top);
    KeptAtFirst(m0, vmm.dirs, d);
    ModesAtFirst(m0, vmm.dirs, d, top, user);
    NoPages(had, top);
    RangeBounds(k, d, base, limit);
    FrameIs();
    ok, top' := true, top;
    var i := 0;
    while i < pages
      invariant 0 <= i <= pages && ok && HeapReady(vmm, k, base, limit, top') && top' == top + i * 0x1000
      invariant HeapGrown(m0, vmm.mem, vmm.dirs, free, d, top, top')
      invariant HeapClean(m0, vmm.mem, vmm.dirs, free, vmm.frames, d, top, top')
      invariant |vmm.frames| == |free| - FrameDemand(had, top, i) && vmm.frames == free[..|vmm.frames|]
      invariant TablesOf(vmm.mem, d) == TablesAfter(had, top, i) && TablesKept(m0, vmm.mem, vmm.dirs, d)
      invariant HeapModes(m0, vmm.mem, vmm.dirs, top, top') && HeapMode(m0, vmm.mem, d, top, top', user)
    {
      ghost var m1, was, p := vmm.mem, vmm.frames, PageOf(top');
      RangeOwned(k, d, base, limit, top');
      NextHeapPage(had, k, d, base, limit, top, i, pages);
      DemandNow(m1, d, p.pde);
      ok := vmm.MapFresh(top', user, k);
      if !ok {
        return;
      }
      TablesNow(m1, vmm.mem, vmm.dirs, d, p.pde);
      KeptStep(m0, m1, vmm.mem, vmm.dirs, d, p.pde);
      ModesStep(m0, m1, vmm.mem, vmm.dirs, k, d, base, limit, top, top', user);
      GrowStep(m0, m1, vmm.mem, vmm.dirs, free, was, vmm.frames, k, d, base, limit, top, top');
      CleanStep(m0, m1, vmm.mem, vmm.dirs, free, was, vmm.frames, k, d, base, limit, top, top');
      PrefixTwice(free, was, vmm.frames);
      top' := top' + 0x1000;
      i := i + 1;
    }
  }

  lemma NextHeapPage(had: set<int>, k: int, d: int, base: int, limit: int, top: int, i: nat, pages: nat)
    requires HeapRange(k, d, base, limit) && base <= top && top % 0x1000 == 0 && i < pages &&
              top + pages * 0x1000 <= limit
    ensures var after, j := TablesAfter(had, top, i), TableIndex(top + i * 0x1000);
            && TablesAfter(had, top, i + 1) == after + {WINDOW_TABLE, j}
            && FrameDemand(had, top, i + 1) == FrameDemand(had, top, i) + 1
                 + (if WINDOW_TABLE in after then 0 else 1) + (if j in after then 0 else 1)
            && FrameDemand(had, top, i + 1) <= FrameDemand(had, top, pages)
            && 0 <= j < SELF
  {
    FrameIs();
    RangeBounds(k, d, base, limit);
    RangeOwned(k, d, base, limit, top);
    RangeOwned(k, d, base, limit, top + i * 0x1000);
    hide FrameDemand, TablesAfter, TableIndex, PageOf;
    NextPage(had, top, i, pages);
  }

  /** The loop that contracts a heap: every frame goes back to the stack before its page is unmapped. The
      first of them is taken again when the windows have no page table yet. */
  method ShrinkHeap(vmm: VMM, ghost k: int, base: int, ghost limit: int, top: int, pages: nat)
      returns (ok: bool, top': int)
    requires HeapReady(vmm, k, base, limit, top)
    modifies vmm`mem, vmm`tlb, vmm`frames
    ensures ok <==> top - pages * 0x1000 >= base
    ensures ok ==> HeapReady(vmm, k, base, limit, top') && top' == top - pages * 0x1000
    ensures ok ==> HeapShrunk(old(vmm.mem), vmm.mem, vmm.dirs, vmm.cr3, top', top)
    ensures ok ==> DataKept(old(vmm.mem), vmm.mem, vmm.dirs)
    ensures ok ==> HeapModes(old(vmm.mem), vmm.mem, vmm.dirs, top', top)
    ensures ok ==> |FramesDown(old(vmm.mem), vmm.cr3, top, top')| == pages
    ensures ok ==> vmm.frames == old(vmm.frames) + AfterFirst(FramesDown(old(vmm.mem), vmm.cr3, top, top'),
                                                             WindowDemand(old(vmm.mem), vmm.cr3))
    ensures ok ==>
              TablesOf(vmm.mem, vmm.cr3) == TablesOf(old(vmm.mem), vmm.cr3) + if pages == 0 then {} else {WINDOW_TABLE}
  {
    hide *;
    ghost var m0, free, d, w := vmm.mem, vmm.frames, vmm.cr3, WindowDemand(vmm.mem, vmm.cr3);
    ShrunkNothing(m0, vmm.dirs, d, top);
    RangeBounds(k, d, base, limit);
    ModesAtFirst(m0, vmm.dirs, d, top, false);
    GivenBackFirst(free, w);
    top' := top;
    var i := 0;
    while i < pages
      invariant 0 <= i <= pages && HeapReady(vmm, k, base, limit, top') && top' == top - i * 0x1000
      invariant HeapShrunk(m0, vmm.mem, vmm.dirs, d, top', top) && DataKept(m0, vmm.mem, vmm.dirs)
      invariant HeapModes(m0, vmm.mem, vmm.dirs, top', top)
      invariant |FramesDown(m0, d, top, top')| == i
      invariant vmm.frames == free + AfterFirst(FramesDown(m0, d, top, top'), w)
      invariant WindowDemand(vmm.mem, d) == if i == 0 then w else 0
      invariant TablesOf(vmm.mem, d) == TablesOf(m0, d) + (if i == 0 then {} else {WINDOW_TABLE})
    {
      top' := top' - 0x1000;
      if top' < base {
        return false, top';
      }
      ghost var m1, was, p := vmm.mem, vmm.frames, PageOf(top');
      RangeOwned(k, d, base, limit, top');
      HeapPage(m1, k, d, base, limit, top');
      vmm.UnmapAndFree(top', k);
      StaysKept(m0, m1, vmm.mem, vmm.dirs);
      OthersModes(m0, m1, vmm.mem, vmm.dirs, top' + 0x1000, top', top, top, top');
      TablesNow(m1, vmm.mem, vmm.dirs, d, p.pde);
      HadTable(m1, d, p);
      ghost var back := FramesDown(m0, d, top, top' + 0x1000);
      ShrinkStep(m0, m1, vmm.mem, vmm.dirs, k, d, base, limit, top', top);
      GivenBack(free, back, Walk(m1, d, p).value, w, was, vmm.frames);
      i := i + 1;
    }
    ok := true;
  }

  lemma HadTable(m: Phys, d: int, p: Page)
    requires Walk(m, d, p).Some? && 0 <= p.pde < SELF
    ensures p.pde in TablesOf(m, d)
  {
  }

  lemma GivenBackFirst(free: seq<int>, w: nat)
    ensures free + AfterFirst([], w) == free
  {
  }

  lemma GivenBack(free: seq<int>, back: seq<int>, f: int, w: nat, was: seq<int>, now: seq<int>)
    requires w <= 1 && was == free + AfterFirst(back, w)
    requires |now| == |was| + 1 - (if |back| == 0 then w else 0) && now == (was + [f])[..|now|]
    ensures now == free + AfterFirst(back + [f], w)
  {
    if |back| == 0 {
      assert back + [f] == [f];
    } else {
      assert (back + [f])[w..] == back[w..] + [f];
    }
  }

  lemma StaysKept(m: Phys, m1: Phys, m2: Phys, dirs: set<int>)
    requires DataKept(m, m1, dirs) && DataKept(m1, m2, dirs) && TablesStay(m1, m2, dirs)
    ensures DataKept(m, m2, dirs)
  {
    KeptTwice(m, m1, m2, dirs);
  }

  lemma GrownNothing(m: Phys, dirs: set<int>, free: seq<int>, d: int, top: int)
    ensures HeapGrown(m, m, dirs, free, d, top, top) && HeapClean(m, m, dirs, free, free, d, top, top)
  {
  }

  lemma ShrunkNothing(m: Phys, dirs: set<int>, d: int, top: int)
    ensures HeapShrunk(m, m, dirs, d, top, top) && FramesDown(m, d, top, top) == [] && DataKept(m, m, dirs)
  {
  }

  lemma HeapPage(m: Phys, k: int, d: int, base: int, limit: int, a: int)
    requires HeapMapped(m, d, base, a + 0x1000) && HeapRange(k, d, base, limit) && base <= a < limit && a % 0x1000 == 0
    ensures Walk(m, d, PageOf(a)).Some?
  {
    RangeOwned(k, d, base, limit, a);
  }

  // ------------------------------------------------------------------------ the kernel heap

  /** HeapMemory_expand over the memory manager: it succeeds exactly when the address range and the frames
      allow, takes exactly the frames for pages and missing page tables, and every directory that shares
      the page tables sees the same pages. */
  method ExpandKernel(vmm: VMM, kernelHeapTop: int, size: int, ghost k: int) returns (r: Expansion, top': int)
    requires HeapReady(vmm, k, KERNEL_HEAP_BASE_VADDR, KERNEL_HEAP_TOP_VADDR, kernelHeapTop)
    requires kernelHeapTop < KERNEL_HEAP_TOP_VADDR && size % FRAME_SIZE == 0 && -0x8000_0000 <= size < 0x8000_0000
    modifies vmm`mem, vmm`tlb, vmm`frames
    ensures r.At? <==>
            if size >= 0 then
              && kernelHeapTop + size < KERNEL_HEAP_TOP_VADDR
              && FrameDemand(TablesOf(old(vmm.mem), vmm.cr3), kernelHeapTop, size / FRAME_SIZE) <= |old(vmm.frames)|
            else kernelHeapTop + size >= KERNEL_HEAP_BASE_VADDR
    ensures r.At? ==>
              && top' == kernelHeapTop + size && r.address == (if size >= 0 then kernelHeapTop else top')
              && HeapReady(vmm, k, KERNEL_HEAP_BASE_VADDR, KERNEL_HEAP_TOP_VADDR, top')
    ensures r.At? && size >= 0 ==>
              && HeapGrown(old(vmm.mem), vmm.mem, vmm.dirs, old(vmm.frames), vmm.cr3, kernelHeapTop, top')
              && HeapClean(old(vmm.mem), vmm.mem, vmm.dirs, old(vmm.frames), vmm.frames, vmm.cr3, kernelHeapTop, top')
              && |vmm.frames| == |old(vmm.frames)|
                                   - FrameDemand(TablesOf(old(vmm.mem), vmm.cr3), kernelHeapTop, size / FRAME_SIZE)
              && vmm.frames == old(vmm.frames)[..|vmm.frames|]
              && TablesOf(vmm.mem, vmm.cr3)
                   == TablesAfter(TablesOf(old(vmm.mem), vmm.cr3), kernelHeapTop, size / FRAME_SIZE)
              && TablesKept(old(vmm.mem), vmm.mem, vmm.dirs, vmm.cr3)
              && HeapModes(old(vmm.mem), vmm.mem, vmm.dirs, kernelHeapTop, top')
              && HeapMode(old(vmm.mem), vmm.mem, vmm.cr3, kernelHeapTop, top', false)
    ensures r.At? && size < 0 ==>
              && HeapShrunk(old(vmm.mem), vmm.mem, vmm.dirs, vmm.cr3, top', kernelHeapTop)
              && HeapModes(old(vmm.mem), vmm.mem, vmm.dirs, top', kernelHeapTop)
              && DataKept(old(vmm.mem), vmm.mem, vmm.dirs)
              && vmm.frames == old(vmm.frames) + AfterFirst(FramesDown(old(vmm.mem), vmm.cr3, kernelHeapTop, top'),
                                                            WindowDemand(old(vmm.mem), vmm.cr3))
              && TablesOf(vmm.mem, vmm.cr3) == TablesOf(old(vmm.mem), vmm.cr3) + {WINDOW_TABLE}
  {
    hide *;
    FrameIs();
    KernelBounds();
    if size >= 0 {
      if (kernelHeapTop + size) % 0x1_0000_0000 >= KERNEL_HEAP_TOP_VADDR {
        return Panic, kernelHeapTop;
      }
      var ok;
      ok, top' := GrowHeap(vmm, k, KERNEL_HEAP_BASE_VADDR, KERNEL_HEAP_TOP_VADDR, kernelHeapTop, false,
        size / FRAME_SIZE);
      r := if ok then At(kernelHeapTop) else Panic;
    } else {
      if (kernelHeapTop - size) % 0x1_0000_0000 < KERNEL_HEAP_BASE_VADDR {
        return Panic, kernelHeapTop;
      }
      var ok;
      ok, top' := ShrinkHeap(vmm, k, KERNEL_HEAP_BASE_VADDR, KERNEL_HEAP_TOP_VADDR, kernelHeapTop,
        (-size) / FRAME_SIZE);
      r := if ok then At(top') else Panic;
    }
  }

  /** Directory x has the page table of d for a page already. */
  ghost predicate SharedBefore(m: Phys, x: int, d: int, q: Page) { TableOf(m, d, q.pde).Some? && Shares(m, x, d, q) }

  /** The kernel heap is to be the same in every directory, but a page table that is missing is made for
      the current one alone: so all see a page that was mapped exactly when they shared its page table
      before. */
  lemma SeenIff(m: Phys, m': Phys, dirs: set<int>, k: int, free: seq<int>, d: int, lo: int, hi: int, x: int, q: Page)
    requires HeapGrown(m, m', dirs, free, d, lo, hi) && TablesKept(m, m', dirs, d)
    requires Owned(m, dirs, k, free) && d in dirs && x in dirs && x != d && Normal(q)
    requires KERNEL_HEAP_BASE_VADDR <= lo <= Address(q) < hi <= KERNEL_HEAP_TOP_VADDR
    ensures Walk(m', x, q) == Walk(m', d, q) <==> SharedBefore(m, x, d, q)
  {
    hide *;
    GrownPage(m, m', dirs, free, d, lo, hi, x, q);
    NotFreeBefore(m, dirs, k, free, x, q);
    SharedSince(m, m', dirs, d, x, q);
    if Shares(m', x, d, q) { SeenAlike(m', x, d, q); }
  }

  lemma GrownPage(m: Phys, m': Phys, dirs: set<int>, free: seq<int>, d: int, lo: int, hi: int, x: int, q: Page)
    requires HeapGrown(m, m', dirs, free, d, lo, hi) && d in dirs && x in dirs && Normal(q) && lo <= Address(q) < hi
    ensures Walk(m', d, q).Some? && Walk(m', d, q).value in free && TableOf(m', d, q.pde).Some?
    ensures !Shares(m', x, d, q) ==> Walk(m', x, q) == Walk(m, x, q)
  {
    SharesItself(m', d);
    WalkHasTable(m', d, q) by { assert Shares(m', d, d, q); hide Walk, TableOf, Address, Normal; }
    hide Walk, TableOf, Address, Normal;
  }

  lemma NotFreeBefore(m: Phys, dirs: set<int>, k: int, free: seq<int>, x: int, q: Page)
    requires Owned(m, dirs, k, free) && x in dirs && Normal(q)
    requires KERNEL_HEAP_BASE_VADDR <= Address(q) < KERNEL_HEAP_TOP_VADDR
    ensures Walk(m, x, q).Some? ==> Walk(m, x, q).value !in free
    ensures q.pde != WINDOW_TABLE
  {
    RangeOwned(k, x, KERNEL_HEAP_BASE_VADDR, KERNEL_HEAP_TOP_VADDR, Address(q)) by { PageOfAddress(q); }
    PageOfAddress(q);
    hide Walk, TableOf, Address, PageOf, Owns;
    if Walk(m, x, q).Some? { assert InUse(m, dirs, free, Walk(m, x, q).value); }
  }

  lemma SharedSince(m: Phys, m': Phys, dirs: set<int>, d: int, x: int, q: Page)
    requires TablesKept(m, m', dirs, d) && d in dirs && x in dirs && x != d && q.pde != WINDOW_TABLE
    requires TableOf(m', d, q.pde).Some?
    ensures Shares(m', x, d, q) <==> SharedBefore(m, x, d, q)
  {
    hide TableOf;
  }

  lemma SeenAlike(m: Phys, x: int, d: int, q: Page)
    requires Shares(m, x, d, q)
    ensures Walk(m, x, q) == Walk(m, d, q)
  {
    SameTableSameWalk(m, x, d, q);
  }

  /** So the heap stays the same everywhere exactly when every directory shared the page tables of all the
      pages before. */
  lemma SeenEverywhereIff(m: Phys, m': Phys, dirs: set<int>, k: int, free: seq<int>, d: int, lo: int, hi: int)
    requires HeapGrown(m, m', dirs, free, d, lo, hi) && TablesKept(m, m', dirs, d)
    requires Owned(m, dirs, k, free) && d in dirs
    requires KERNEL_HEAP_BASE_VADDR <= lo <= hi <= KERNEL_HEAP_TOP_VADDR
    ensures (forall x, q | x in dirs && Normal(q) && lo <= Address(q) < hi :: Walk(m', x, q) == Walk(m', d, q)) <==>
              forall x, q | x in dirs && x != d && Normal(q) && lo <= Address(q) < hi :: SharedBefore(m, x, d, q)
  {
    hide *;
    forall x, q | x in dirs && x != d && Normal(q) && lo <= Address(q) < hi
      ensures Walk(m', x, q) == Walk(m', d, q) <==> SharedBefore(m, x, d, q)
    {
      SeenIff(m, m', dirs, k, free, d, lo, hi, x, q);
    }
  }

  /** A heap of 4 MB that grows by a page: nobody else sees it. */
  lemma FifthMegabyteUnseen(m: Phys, m': Phys, dirs: set<int>, k: int, free: seq<int>, d: int, x: int)
    requires HeapGrown(m, m', dirs, free, d, 0x2040_0000, 0x2040_1000) && TablesKept(m, m', dirs, d)
    requires Owned(m, dirs, k, free) && d in dirs && x in dirs && x != d && TableOf(m, d, 129).None?
    ensures Walk(m', d, Page(129, 0)).Some? && Walk(m', x, Page(129, 0)) != Walk(m', d, Page(129, 0))
  {
    var q := Page(129, 0);
    assert Normal(q) && Address(q) == 0x2040_0000;
    assert !SharedBefore(m, x, d, q);
    GrownPage(m, m', dirs, free, d, 0x2040_0000, 0x2040_1000, x, q);
    SeenIff(m, m', dirs, k, free, d, 0x2040_0000, 0x2040_1000, x, q);
  }

  lemma KernelBounds()
    ensures KERNEL_HEAP_BASE_VADDR == 0x2000_0000 && KERNEL_HEAP_TOP_VADDR == 0x4000_0000
  {
  }
}
