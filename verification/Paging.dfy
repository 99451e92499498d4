/** Two-level 32-bit paging (Intel SDM Vol. 3A, section 4.3) over directories that may share page
    tables, and what single stores to table entries do to every translation. */
module Paging {
  import opened Options

  /** A directory or table entry: its present and user bits and a frame. */
  datatype Entry = Entry(present: bool, user: bool, frame: int)

  const ABSENT := Entry(false, false, 0)

  /** A virtual page by the two indices the hardware takes from its address. */
  datatype Page = Page(pde: int, pte: int)

  /** PDE_INDEX and PTE_INDEX. */
  function PageOf(addr: int): Page { Page(addr / 0x40_0000, addr / 0x1000 % 0x400) }

  /** The 1024 entries of each frame, by frame and index, seen as a table. */
  type Phys = map<(int, int), Entry>

  function Get(m: Phys, f: int, i: int): Entry { if (f, i) in m then m[(f, i)] else ABSENT }

  function Set(m: Phys, f: int, i: int, e: Entry): Phys { m[(f, i) := e] }

  /** Memory_set(table, 0, ...). */
  function Clear(m: Phys, f: int): Phys { map k | k in m && k.0 != f :: m[k] }

  function Leaf(e: Entry): Option<int> { if e.present then Some(e.frame) else None }

  /** The frame of the page table at an index of directory d. */
  function TableOf(m: Phys, d: int, i: int): Option<int> { Leaf(Get(m, d, i)) }

  /** The page walk of the hardware. */
  function Walk(m: Phys, d: int, p: Page): Option<int> {
    match TableOf(m, d, p.pde)
    case None => None
    case Some(t) => Leaf(Get(m, t, p.pte))
  }

  /** The last entry of a directory maps the directory itself: pages of the last 4 MB are the page
      tables, and the very last page is the directory. */
  const SELF := 1023

  lemma SelfMapAddresses(i: int)
    requires 0 <= i < 1024
    ensures PageOf(0xFFC0_0000 + 0x1000 * i) == Page(SELF, i)
    ensures PageOf(0xFFFF_F000) == Page(SELF, SELF)
  {
  }

  /** What FRAME_INDEX_TO_ADDR gives back of an address: entries store the index of a frame only. */
  predicate Aligned(f: int) { f % 0x1000 == 0 }

  /** The live directories are disjoint from page tables, a page table is shared only at one index, and
      all of them are frames. */
  ghost predicate Wf(m: Phys, dirs: set<int>) {
    && (forall d | d in dirs :: TableOf(m, d, SELF) == Some(d) && Aligned(d))
    && (forall d, i | d in dirs && 0 <= i < SELF && TableOf(m, d, i).Some? ::
          TableOf(m, d, i).value !in dirs && Aligned(TableOf(m, d, i).value))
    && (forall d, e, i, j | d in dirs && e in dirs && 0 <= i < SELF && 0 <= j < SELF
          && TableOf(m, d, i).Some? && TableOf(m, d, i) == TableOf(m, e, j) :: i == j)
  }

  ghost predicate IsTable(m: Phys, dirs: set<int>, t: int) {
    exists d, i :: d in dirs && 0 <= i < SELF && TableOf(m, d, i) == Some(t)
  }

  /** The free frames: distinct, aligned, not null, and neither directories nor page tables. */
  ghost predicate FreeOK(m: Phys, dirs: set<int>, free: seq<int>) {
    && (forall i, j | 0 <= i < j < |free| :: free[i] != free[j])
    && (forall f | f in free :: f > 0 && Aligned(f) && f !in dirs && !IsTable(m, dirs, f))
  }

  ghost predicate Normal(p: Page) { 0 <= p.pde < SELF && 0 <= p.pte < 1024 }

  // ----------------------------------------------------------------- stores to tables

  /** One page table entry written: exactly one page changes, in every directory with that table. */
  lemma StorePte(m: Phys, dirs: set<int>, d: int, p: Page, e: Entry)
    requires Wf(m, dirs) && d in dirs && Normal(p) && TableOf(m, d, p.pde).Some?
    ensures var t := TableOf(m, d, p.pde).value;
            var m' := Set(m, t, p.pte, e);
            && t !in dirs && Wf(m', dirs)
            && (forall x, i | x in dirs :: TableOf(m', x, i) == TableOf(m, x, i))
            && (forall x, q | x in dirs && Normal(q) ::
                  Walk(m', x, q) == if q == p && TableOf(m, x, p.pde) == Some(t) then Leaf(e) else Walk(m, x, q))
  {
    var t := TableOf(m, d, p.pde).value;
    var m' := Set(m, t, p.pte, e);
    assert t !in dirs;
    forall x, i | x in dirs ensures TableOf(m', x, i) == TableOf(m, x, i) {
    }
    forall x, q | x in dirs && Normal(q)
      ensures Walk(m', x, q) == if q == p && TableOf(m, x, p.pde) == Some(t) then Leaf(e) else Walk(m, x, q)
    {
    }
  }

  /** A fresh page table, cleared, hung into an absent directory entry: no translation changes. */
  lemma HangTable(m: Phys, dirs: set<int>, d: int, i: int, t: int, user: bool)
    requires Wf(m, dirs) && d in dirs && 0 <= i < SELF && TableOf(m, d, i) == None
    requires t !in dirs && !IsTable(m, dirs, t) && Aligned(t)
    ensures var m' := Clear(Set(m, d, i, Entry(true, user, t)), t);
            && Wf(m', dirs) && TableOf(m', d, i) == Some(t)
            && (forall x, j | x in dirs && !(x == d && j == i) :: TableOf(m', x, j) == TableOf(m, x, j))
            && (forall x, q | x in dirs && Normal(q) :: Walk(m', x, q) == Walk(m, x, q))
  {
    var m' := Clear(Set(m, d, i, Entry(true, user, t)), t);
    assert TableOf(m', d, i) == Some(t);
    forall x, j | x in dirs && !(x == d && j == i) ensures TableOf(m', x, j) == TableOf(m, x, j) {
    }
    forall x, j | x in dirs && 0 <= j < SELF && TableOf(m, x, j) == Some(t) ensures false {
      assert IsTable(m, dirs, t);
    }
    forall x, q | x in dirs && Normal(q) ensures Walk(m', x, q) == Walk(m, x, q) {
      if x == d && q.pde == i {
        assert Get(m', t, q.pte) == ABSENT;
      } else if TableOf(m, x, q.pde).Some? {
        assert TableOf(m, x, q.pde).value != t;
      }
    }
  }

  // ------------------------------------------------------------------- data in frames

  /** Frames that are neither directories nor page tables, in use or free, keep their contents. */
  ghost predicate DataKept(m: Phys, m': Phys, dirs: set<int>) {
    forall f, i | f !in dirs && !IsTable(m', dirs, f) :: Get(m', f, i) == Get(m, f, i)
  }

  lemma KeptByTableStore(m: Phys, dirs: set<int>, d: int, i: int, j: int, e: Entry)
    requires d in dirs && 0 <= i < SELF && TableOf(m, d, i).Some?
    requires TableOf(Set(m, TableOf(m, d, i).value, j, e), d, i) == TableOf(m, d, i)
    ensures DataKept(m, Set(m, TableOf(m, d, i).value, j, e), dirs)
  {
    assert IsTable(Set(m, TableOf(m, d, i).value, j, e), dirs, TableOf(m, d, i).value);
  }

  lemma KeptByDirectoryStore(m: Phys, dirs: set<int>, d: int, j: int, e: Entry)
    requires d in dirs
    ensures DataKept(m, Set(m, d, j, e), dirs)
  {
  }

  lemma KeptByClear(m: Phys, dirs: set<int>, d: int, i: int)
    requires d in dirs && 0 <= i < SELF && TableOf(m, d, i).Some?
    requires TableOf(Clear(m, TableOf(m, d, i).value), d, i) == TableOf(m, d, i)
    ensures DataKept(m, Clear(m, TableOf(m, d, i).value), dirs)
  {
    assert IsTable(Clear(m, TableOf(m, d, i).value), dirs, TableOf(m, d, i).value);
  }

  /** Page tables that stay make what is kept at each of two steps kept over both. */
  lemma KeptTwice(m: Phys, m1: Phys, m2: Phys, dirs: set<int>)
    requires DataKept(m, m1, dirs) && DataKept(m1, m2, dirs)
    requires forall x, j | x in dirs && TableOf(m1, x, j).Some? :: TableOf(m2, x, j) == TableOf(m1, x, j)
    ensures DataKept(m, m2, dirs)
  {
    forall f, i | f !in dirs && !IsTable(m2, dirs, f) ensures Get(m2, f, i) == Get(m, f, i) {
      forall x, j | x in dirs && 0 <= j < SELF ensures TableOf(m1, x, j) != Some(f) {
        NotATable(m2, dirs, f, x, j);
      }
      assert !IsTable(m1, dirs, f);
      assert Get(m1, f, i) == Get(m, f, i);
    }
  }

  // --------------------------------------------------------------------------- the TLB

  /** Cached translations agree with the tables (section 4.10: past walks may be cached, walks that
      ended at an absent entry are not). */
  ghost predicate Coherent(tlb: map<Page, int>, m: Phys, c: int) {
    forall p | p in tlb :: Walk(m, c, p) == Some(tlb[p])
  }

  /** Pages a translation may be cached for: all but those behind a bad index. */
  ghost predicate Cacheable(tlb: map<Page, int>) {
    forall q | q in tlb :: Normal(q) || (q.pde == SELF && 0 <= q.pte < 1024)
  }

  /** After a page table entry was written, only that page may be stale. */
  lemma StorePteStale(m: Phys, dirs: set<int>, c: int, d: int, p: Page, e: Entry, tlb: map<Page, int>)
    requires Wf(m, dirs) && c in dirs && d in dirs && Normal(p) && TableOf(m, d, p.pde).Some?
    requires Coherent(tlb, m, c) && Cacheable(tlb)
    ensures Coherent(tlb - {p}, Set(m, TableOf(m, d, p.pde).value, p.pte, e), c)
  {
    StorePte(m, dirs, d, p, e);
    var m' := Set(m, TableOf(m, d, p.pde).value, p.pte, e);
    forall q | q in tlb - {p} ensures Walk(m', c, q) == Some((tlb - {p})[q]) {
      assert Walk(m, c, q) == Some(tlb[q]);
      if q.pde == SELF {
        assert TableOf(m, c, SELF) == Some(c) && TableOf(m', c, q.pte) == TableOf(m, c, q.pte);
      }
    }
  }

  // ------------------------------------------------------------------- the frame stack

  /** What was popped is neither free any more nor in use yet. */
  lemma PopFree(m: Phys, dirs: set<int>, free: seq<int>)
    requires FreeOK(m, dirs, free) && free != []
    ensures var t, rest := free[|free| - 1], free[..|free| - 1];
            && t > 0 && Aligned(t) && t !in dirs && !IsTable(m, dirs, t) && t !in rest && FreeOK(m, dirs, rest)
  {
    var t, rest := free[|free| - 1], free[..|free| - 1];
    assert t in free;
    forall f | f in rest ensures f in free {
    }
  }

  lemma FreeAfterPte(m: Phys, m': Phys, dirs: set<int>, free: seq<int>)
    requires FreeOK(m, dirs, free) && forall x, i | x in dirs :: TableOf(m', x, i) == TableOf(m, x, i)
    ensures FreeOK(m', dirs, free)
  {
  }

  lemma FreeAfterHang(m: Phys, m': Phys, dirs: set<int>, free: seq<int>, d: int, i: int, t: int)
    requires FreeOK(m, dirs, free) && t !in free && TableOf(m', d, i) == Some(t)
    requires forall x, j | x in dirs && !(x == d && j == i) :: TableOf(m', x, j) == TableOf(m, x, j)
    ensures FreeOK(m', dirs, free)
  {
    forall f | f in free ensures !IsTable(m', dirs, f) {
      TableBefore(m, m', dirs, d, i, t, f);
    }
  }

  lemma TableBefore(m: Phys, m': Phys, dirs: set<int>, d: int, i: int, t: int, f: int)
    requires f != t && TableOf(m', d, i) == Some(t)
    requires forall x, j | x in dirs && !(x == d && j == i) :: TableOf(m', x, j) == TableOf(m, x, j)
    ensures IsTable(m', dirs, f) ==> IsTable(m, dirs, f)
  {
    if IsTable(m', dirs, f) {
      var x, j :| x in dirs && 0 <= j < SELF && TableOf(m', x, j) == Some(f);
      assert TableOf(m, x, j) == Some(f);
    }
  }

  // ------------------------------------------------- a table hung in, and cleared later

  /** The directory entry alone: until the table is cleared, what it translates is not known. */
  lemma HangOnly(m: Phys, dirs: set<int>, d: int, i: int, t: int, user: bool)
    requires Wf(m, dirs) && d in dirs && 0 <= i < SELF && TableOf(m, d, i) == None
    requires t !in dirs && !IsTable(m, dirs, t) && Aligned(t)
    ensures var m' := Set(m, d, i, Entry(true, user, t));
            && Wf(m', dirs) && TableOf(m', d, i) == Some(t)
            && (forall x, j | x in dirs && !(x == d && j == i) :: TableOf(m', x, j) == TableOf(m, x, j))
            && (forall x, j | x in dirs && 0 <= j < SELF && TableOf(m', x, j) == Some(t) :: x == d && j == i)
            && (forall x, q | x in dirs && Normal(q) && TableOf(m', x, q.pde) == Some(t) :: x == d && q.pde == i)
            && (forall q | Normal(q) && q.pde == i :: Walk(m, d, q) == None)
            && (forall x, q | x in dirs && Normal(q) && !(x == d && q.pde == i) :: Walk(m', x, q) == Walk(m, x, q))
  {
    var m' := Set(m, d, i, Entry(true, user, t));
    forall x, j | x in dirs && !(x == d && j == i) ensures TableOf(m', x, j) == TableOf(m, x, j) {
    }
    forall x, j | x in dirs && 0 <= j < SELF && !(x == d && j == i) ensures TableOf(m', x, j) != Some(t) {
      NotATable(m, dirs, t, x, j);
    }
    forall x, q | x in dirs && Normal(q) && !(x == d && q.pde == i) ensures Walk(m', x, q) == Walk(m, x, q) {
      assert TableOf(m', x, q.pde) == TableOf(m, x, q.pde);
    }
  }

  lemma NotATable(m: Phys, dirs: set<int>, t: int, x: int, j: int)
    requires !IsTable(m, dirs, t) && x in dirs && 0 <= j < SELF
    ensures TableOf(m, x, j) != Some(t)
  {
  }

  lemma HangOnlyStale(m: Phys, dirs: set<int>, c: int, d: int, i: int, t: int, user: bool, tlb: map<Page, int>)
    requires Wf(m, dirs) && c in dirs && d in dirs && 0 <= i < SELF && TableOf(m, d, i) == None
    requires t !in dirs && !IsTable(m, dirs, t) && Aligned(t)
    requires Coherent(tlb, m, c) && Cacheable(tlb)
    ensures Coherent(tlb, Set(m, d, i, Entry(true, user, t)), c)
    ensures d == c ==> forall q | q in tlb :: q.pde != i
  {
    HangOnly(m, dirs, d, i, t, user);
    var m' := Set(m, d, i, Entry(true, user, t));
    forall q | q in tlb ensures Walk(m', c, q) == Some(tlb[q]) && (d == c ==> q.pde != i) {
      assert Walk(m, c, q) == Some(tlb[q]);
      if q.pde == SELF {
        assert TableOf(m, c, SELF) == Some(c) && TableOf(m', c, SELF) == Some(c);
      }
    }
  }

  /** A page table cleared: exactly the pages of that table lose their translation. */
  lemma ClearTable(m: Phys, dirs: set<int>, t: int)
    requires Wf(m, dirs) && t !in dirs
    ensures var m' := Clear(m, t);
            && Wf(m', dirs)
            && (forall x, j | x in dirs :: TableOf(m', x, j) == TableOf(m, x, j))
            && (forall x, q | x in dirs && Normal(q) ::
                  Walk(m', x, q) == if TableOf(m, x, q.pde) == Some(t) then None else Walk(m, x, q))
  {
    var m' := Clear(m, t);
    forall x, j | x in dirs ensures TableOf(m', x, j) == TableOf(m, x, j) {
    }
    assert forall k :: Get(m', t, k) == ABSENT;
  }

  lemma ClearTableStale(m: Phys, dirs: set<int>, c: int, t: int, tlb: map<Page, int>)
    requires Wf(m, dirs) && t !in dirs && c in dirs && Coherent(tlb, m, c)
    requires Cacheable(tlb)
    requires forall q | q in tlb && Normal(q) :: TableOf(m, c, q.pde) != Some(t)
    ensures Coherent(tlb, Clear(m, t), c)
  {
    ClearTable(m, dirs, t);
    forall q | q in tlb ensures Walk(Clear(m, t), c, q) == Some(tlb[q]) {
      assert Walk(m, c, q) == Some(tlb[q]);
      if q.pde == SELF {
        assert TableOf(m, c, SELF) == Some(c) && TableOf(Clear(m, t), c, SELF) == Some(c);
      }
    }
  }

  // ------------------------------------------------------------------- directories

  /** A fresh frame cleared and mapped to itself is a directory without page tables. */
  lemma NewDirectory(m: Phys, dirs: set<int>, d: int, free: seq<int>)
    requires Wf(m, dirs) && d !in dirs && !IsTable(m, dirs, d) && FreeOK(m, dirs, free) && d !in free && Aligned(d)
    ensures var m' := Set(Clear(m, d), d, SELF, Entry(true, false, d));
            && Wf(m', dirs + {d}) && FreeOK(m', dirs + {d}, free)
            && (forall x, j | x in dirs :: TableOf(m', x, j) == TableOf(m, x, j))
            && (forall j | 0 <= j < SELF :: TableOf(m', d, j) == None)
            && (forall x, q | x in dirs && Normal(q) :: Walk(m', x, q) == Walk(m, x, q))
  {
    var m' := Set(Clear(m, d), d, SELF, Entry(true, false, d));
    forall x, j | x in dirs ensures TableOf(m', x, j) == TableOf(m, x, j) {
    }
    forall j | 0 <= j < SELF ensures TableOf(m', d, j) == None {
    }
    forall x, j | x in dirs && 0 <= j < SELF ensures TableOf(m, x, j) != Some(d) {
      NotATable(m, dirs, d, x, j);
    }
    forall f | f in free ensures !IsTable(m', dirs + {d}, f) {
      StillNoTable(m, m', dirs, d, f);
    }
  }

  lemma StillNoTable(m: Phys, m': Phys, dirs: set<int>, d: int, f: int)
    requires !IsTable(m, dirs, f)
    requires forall x, j | x in dirs && x != d && 0 <= j < SELF :: TableOf(m', x, j) == TableOf(m, x, j)
    requires forall j | 0 <= j < SELF :: TableOf(m', d, j) != Some(f)
    ensures !IsTable(m', dirs + {d}, f)
  {
    forall x, j | x in dirs + {d} && 0 <= j < SELF ensures TableOf(m', x, j) != Some(f) {
      if x != d { NotATable(m, dirs, f, x, j); }
    }
  }

  /** Directory d shares, or drops, the page table that directory k has at index i. */
  lemma ShareTable(m: Phys, dirs: set<int>, d: int, k: int, i: int, e: Entry, free: seq<int>)
    requires Wf(m, dirs) && d in dirs && k in dirs && d != k && 0 <= i < SELF && Leaf(e) == TableOf(m, k, i)
    requires FreeOK(m, dirs, free)
    ensures var m' := Set(m, d, i, e);
            && Wf(m', dirs) && FreeOK(m', dirs, free) && TableOf(m', d, i) == TableOf(m, k, i)
            && (forall x, j | x in dirs && !(x == d && j == i) :: TableOf(m', x, j) == TableOf(m, x, j))
            && (forall x, q | x in dirs && Normal(q) ::
                  Walk(m', x, q) == if x == d && q.pde == i then Walk(m, k, q) else Walk(m, x, q))
  {
    var m' := Set(m, d, i, e);
    assert TableOf(m', d, i) == TableOf(m, k, i);
    forall x, j | x in dirs && !(x == d && j == i) ensures TableOf(m', x, j) == TableOf(m, x, j) {
    }
    forall x, q | x in dirs && Normal(q)
      ensures Walk(m', x, q) == if x == d && q.pde == i then Walk(m, k, q) else Walk(m, x, q)
    {
      if TableOf(m', x, q.pde).Some? { assert TableOf(m', x, q.pde).value !in dirs; }
    }
    forall f | f in free ensures !IsTable(m', dirs, f) {
      forall x, j | x in dirs && 0 <= j < SELF ensures TableOf(m', x, j) != Some(f) {
        NotATable(m, dirs, f, x, j);
        NotATable(m, dirs, f, k, i);
      }
    }
  }

  // ------------------------------------------------------------- what destruction frees

  /** The present leaves among the first n entries of table t, in order. */
  function Leaves(m: Phys, t: int, n: nat): seq<int> {
    if n == 0 then []
    else Leaves(m, t, n - 1) + (if Get(m, t, n - 1).present then [Get(m, t, n - 1).frame] else [])
  }

  /** For each page table of d from index lo up to hi: its leaves, then the table itself. */
  function Released(m: Phys, d: int, lo: int, hi: int): seq<int>
    decreases hi - lo
  {
    if hi <= lo then [] else Released(m, d, lo, hi - 1) + ReleasedAt(m, d, hi - 1)
  }

  function ReleasedAt(m: Phys, d: int, i: int): seq<int> {
    match TableOf(m, d, i)
    case None => []
    case Some(t) => Leaves(m, t, 1024) + [t]
  }

  lemma {:induction false} SameLeaves(m: Phys, m': Phys, t: int, n: nat)
    requires n <= 1024 && forall k | 0 <= k < 1024 :: Leaf(Get(m', t, k)) == Leaf(Get(m, t, k))
    ensures Leaves(m', t, n) == Leaves(m, t, n)
  {
    if n > 0 {
      SameLeaves(m, m', t, n - 1);
      assert Leaf(Get(m', t, n - 1)) == Leaf(Get(m, t, n - 1));
    }
  }

  /** What is released depends on the translations of the range only. */
  lemma {:induction false} SameReleased(m: Phys, m': Phys, d: int, lo: int, hi: int)
    requires forall j | lo <= j < hi :: TableOf(m', d, j) == TableOf(m, d, j)
    requires forall q: Page | lo <= q.pde < hi && 0 <= q.pte < 1024 :: Walk(m', d, q) == Walk(m, d, q)
    ensures Released(m', d, lo, hi) == Released(m, d, lo, hi)
    decreases hi - lo
  {
    if lo < hi {
      SameReleased(m, m', d, lo, hi - 1);
      if TableOf(m, d, hi - 1).Some? {
        var t := TableOf(m, d, hi - 1).value;
        forall k | 0 <= k < 1024 ensures Leaf(Get(m', t, k)) == Leaf(Get(m, t, k)) {
          assert Walk(m', d, Page(hi - 1, k)) == Walk(m, d, Page(hi - 1, k));
        }
        SameLeaves(m, m', t, 1024);
      }
    }
  }

  /** A page table above the kernel's part is nobody's kernel table. */
  lemma KernelTablesStay(m: Phys, dirs: set<int>, d: int, i: int, x: int, j: int)
    requires Wf(m, dirs) && d in dirs && x in dirs && 256 <= i < SELF && 0 <= j < 256 && TableOf(m, d, i).Some?
    ensures TableOf(m, x, j) != TableOf(m, d, i)
  {
  }

  /** Frame f is the page table at index i or mapped by it. */
  ghost predicate Gives(m: Phys, d: int, i: int, f: int) {
    && TableOf(m, d, i).Some?
    && (f == TableOf(m, d, i).value || exists k :: 0 <= k < 1024 && Walk(m, d, Page(i, k)) == Some(f))
  }

  lemma GivesReleased(m: Phys, d: int, i: int, f: int)
    ensures f in ReleasedAt(m, d, i) <==> Gives(m, d, i, f)
  {
    if TableOf(m, d, i).Some? {
      var t := TableOf(m, d, i).value;
      if f in Leaves(m, t, 1024) {
        var k := LeafIndex(m, t, 1024, f);
        assert Walk(m, d, Page(i, k)) == Some(f);
      } else if f != t && Gives(m, d, i, f) {
        var k :| 0 <= k < 1024 && Walk(m, d, Page(i, k)) == Some(f);
        LeafListed(m, t, 1024, k);
      }
    }
  }

  /** What is released is exactly what the page tables of the range are and map. */
  lemma {:induction false} ReleasedIs(m: Phys, d: int, lo: int, hi: int, f: int)
    ensures f in Released(m, d, lo, hi) <==> exists i :: lo <= i < hi && Gives(m, d, i, f)
    decreases hi - lo
  {
    if lo < hi {
      ReleasedIs(m, d, lo, hi - 1, f);
      GivesReleased(m, d, hi - 1, f);
    }
  }

  /** So nothing is lost: every page of the range that is mapped and every page table gives its frame back. */
  lemma NothingLost(m: Phys, d: int, lo: int, hi: int)
    ensures forall q: Page | lo <= q.pde < hi && 0 <= q.pte < 1024 && Walk(m, d, q).Some? ::
              Walk(m, d, q).value in Released(m, d, lo, hi)
    ensures forall i | lo <= i < hi && TableOf(m, d, i).Some? :: TableOf(m, d, i).value in Released(m, d, lo, hi)
  {
    forall q: Page | lo <= q.pde < hi && 0 <= q.pte < 1024 && Walk(m, d, q).Some?
      ensures Walk(m, d, q).value in Released(m, d, lo, hi)
    {
      ReleasedIs(m, d, lo, hi, Walk(m, d, q).value);
      assert q == Page(q.pde, q.pte);
      assert Gives(m, d, q.pde, Walk(m, d, q).value);
    }
    forall i | lo <= i < hi && TableOf(m, d, i).Some? ensures TableOf(m, d, i).value in Released(m, d, lo, hi) {
      ReleasedIs(m, d, lo, hi, TableOf(m, d, i).value);
      assert Gives(m, d, i, TableOf(m, d, i).value);
    }
  }

  lemma {:induction false} LeafIndex(m: Phys, t: int, n: nat, f: int) returns (k: int)
    requires f in Leaves(m, t, n)
    ensures 0 <= k < n && Get(m, t, k).present && Get(m, t, k).frame == f
  {
    if f in Leaves(m, t, n - 1) { k := LeafIndex(m, t, n - 1, f); } else { k := n - 1; }
  }

  lemma {:induction false} LeafListed(m: Phys, t: int, n: nat, k: nat)
    requires k < n && Get(m, t, k).present
    ensures Get(m, t, k).frame in Leaves(m, t, n)
  {
    if k < n - 1 { LeafListed(m, t, n - 1, k); }
  }

  lemma {:induction false} LeafPlace(m: Phys, t: int, n: nat, k: nat)
    requires k < n && Get(m, t, k).present
    ensures Leaves(m, t, k) + [Get(m, t, k).frame] <= Leaves(m, t, n)
    decreases n
  {
    if k < n - 1 { LeafPlace(m, t, n - 1, k); }
  }

  lemma {:induction false} ReleasedPlace(m: Phys, d: int, lo: int, hi: int, i: int)
    requires lo <= i < hi
    ensures Released(m, d, lo, i) + ReleasedAt(m, d, i) <= Released(m, d, lo, hi)
    decreases hi - lo
  {
    if i < hi - 1 { ReleasedPlace(m, d, lo, hi - 1, i); }
  }

  /** Where the frame of a page stands among those released. */
  lemma PagePlace(m: Phys, d: int, lo: int, hi: int, q: Page) returns (i: nat)
    requires lo <= q.pde < hi && 0 <= q.pte < 1024 && Walk(m, d, q).Some?
    ensures TableOf(m, d, q.pde).Some?
    ensures i == |Released(m, d, lo, q.pde)| + |Leaves(m, TableOf(m, d, q.pde).value, q.pte)|
    ensures i < |Released(m, d, lo, hi)| && Released(m, d, lo, hi)[i] == Walk(m, d, q).value
  {
    var t := TableOf(m, d, q.pde).value;
    ReleasedPlace(m, d, lo, hi, q.pde);
    LeafPlace(m, t, 1024, q.pte);
    assert Get(m, t, q.pte).frame == Walk(m, d, q).value;
    var r, s := Released(m, d, lo, q.pde), ReleasedAt(m, d, q.pde);
    i := |r| + |Leaves(m, t, q.pte)|;
    hide *;
    assert (r + s)[i] == s[i - |r|];
  }

  lemma TablePlace(m: Phys, d: int, lo: int, hi: int, i: int) returns (k: nat)
    requires lo <= i < hi && TableOf(m, d, i).Some?
    ensures k == |Released(m, d, lo, i)| + |Leaves(m, TableOf(m, d, i).value, 1024)|
    ensures k < |Released(m, d, lo, hi)| && Released(m, d, lo, hi)[k] == TableOf(m, d, i).value
  {
    ReleasedPlace(m, d, lo, hi, i);
    var r, s := Released(m, d, lo, i), ReleasedAt(m, d, i);
    k := |r| + |s| - 1;
    assert (r + s)[k] == s[|s| - 1];
  }

  /** In order: the frame of a page before that of every page behind it, and the page table in between when
      that is another one's. */
  lemma ReleasedInOrder(m: Phys, d: int, lo: int, hi: int, p: Page, q: Page) returns (i: nat, j: nat)
    requires lo <= p.pde <= q.pde < hi && 0 <= p.pte < 1024 && 0 <= q.pte < 1024
    requires p.pde < q.pde || p.pte < q.pte
    requires Walk(m, d, p).Some? && Walk(m, d, q).Some?
    ensures var s := Released(m, d, lo, hi);
            && i < j < |s| && s[i] == Walk(m, d, p).value && s[j] == Walk(m, d, q).value
            && (p.pde < q.pde ==> exists k | i < k < j :: s[k] == TableOf(m, d, p.pde).value)
  {
    i := PagePlace(m, d, lo, hi, p);
    j := PagePlace(m, d, lo, hi, q);
    var t := TableOf(m, d, p.pde).value;
    if p.pde < q.pde {
      var k := TablePlace(m, d, lo, hi, p.pde);
      LeafPlace(m, t, 1024, p.pte);
      ReleasedPlace(m, d, lo, q.pde, p.pde);
      assert |ReleasedAt(m, d, p.pde)| == |Leaves(m, t, 1024)| + 1;
      assert i < k < j;
    } else {
      LeafPlace(m, t, q.pte, p.pte);
    }
  }
}
