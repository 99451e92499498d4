/** The segment the heap lives in: how it grows and shrinks by whole pages at its end. */
module Segment {
  import opened Words
  import opened BinMaps
  import opened Bins
  import opened Tries
  import opened BinIndex
  import opened Tiling
  import opened HeapState
  import opened Coalesce
  import opened Carving

  const PAGE_SIZE := 4096
  const HALF_MAX_SIZE_T := 0x7FFF_FFFF
  /** TOP_FOOT_SIZE + MALLOC_ALIGNMENT. */
  const SYS_ALLOC_PADDING := 48
  /** DEFAULT_TRIM_THRESHOLD, 2 MB. */
  const TRIM_THRESHOLD := 0x20_0000

  /** granularity_align, in 32 bits: the granularity is the page size. */
  function PageAlign(s: int): int { (s + 4095) % TWO32 / PAGE_SIZE * PAGE_SIZE }

  lemma PageAlignBounds(s: int)
    requires 0 <= s && s + 4095 < TWO32
    ensures s <= PageAlign(s) < s + 4096 && PageAlign(s) % 4096 == 0
  {
  }

  /** asize <= nb detects every wraparound of nb + padding, and nothing else. */
  lemma WrapCaught(nb: int)
    requires 16 <= nb < TWO32
    ensures var asize := PageAlign((nb + SYS_ALLOC_PADDING) % TWO32);
            asize <= nb <==> nb + SYS_ALLOC_PADDING + 4095 >= TWO32
  {
    if nb + SYS_ALLOC_PADDING < TWO32 {
      if nb + SYS_ALLOC_PADDING + 4095 < TWO32 {
        PageAlignBounds(nb + SYS_ALLOC_PADDING);
      } else {
        WrappedAlign(nb + SYS_ALLOC_PADDING);
      }
    } else {
      PageAlignBounds(nb + SYS_ALLOC_PADDING - TWO32);
    }
  }

  lemma WrappedAlign(s: int)
    requires s < TWO32 <= s + 4095
    ensures PageAlign(s) == 0
  {
  }

  /** The words of fresh pages are zero. */
  function Cleared(m: Mem, lo: int, hi: int): Mem {
    map a | a in m && !(lo <= a < hi) :: m[a]
  }

  /** init_top: the head of top and the head of the fake trailing chunk. */
  function InitTop(m: Mem, p: int, psize: int): Mem {
    m[p + 4 := psize + 1][p + psize + 4 := TOP_FOOT_SIZE]
  }

  lemma InitTopOK(m: Mem, p: int, psize: int)
    requires 0 < psize && psize % 8 == 0 && p + psize + 40 <= 0x4000_0000
    ensures TopOK(InitTop(m, p, psize), p, psize)
  {
    hide *;
    InitTopWords(m, p, psize);
    MakeTop(InitTop(m, p, psize), p, psize);
  }

  lemma InitTopWords(m: Mem, p: int, psize: int)
    requires 0 < psize
    ensures var m' := InitTop(m, p, psize);
            Head(m', p) == psize + 1 && Head(m', p + psize) == 40
            && forall a | a < p + 4 :: Rd(m', a) == Rd(m, a)
  {
  }

  /** Nothing below the head word of top changed. */
  ghost predicate SameBelow(m: Mem, m': Mem, top: int) {
    forall a | a < top + 4 :: Rd(m', a) == Rd(m, a)
  }

  /** Stores at top and above, with a new size for top, keep everything below it. */
  lemma AboveTopKeeps(h: Heap, m': Mem, ts: int)
    requires HeapInv(h) && SameBelow(h.mem, m', h.top) && TopOK(m', h.top, ts)
    ensures HeapInv(h.(mem := m', topsize := ts))
    ensures PayloadKept(h.mem, m', Lives(h.cs)) && TagsOnly(h.mem, m', h.binned)
  {
    hide *;
    InvParts(h);
    TagsBelow(h, m');
    PayloadBelow(h, m');
    OutsideAbove(h, m');
    MakeInv(h.(mem := m', topsize := ts));
  }

  lemma TagsBelow(h: Heap, m': Mem)
    requires Wf(h.cs, HEAP_BASE, h.top) && Tagged(h.mem, h.cs) && SameBelow(h.mem, m', h.top)
    ensures Tagged(m', h.cs)
  {
    forall q | q in h.cs ensures TagOK(m', h.cs, q) {
      BelowTop(h.cs, HEAP_BASE, h.top, q);
      assert TagOK(h.mem, h.cs, q);
    }
  }

  lemma PayloadBelow(h: Heap, m': Mem)
    requires Wf(h.cs, HEAP_BASE, h.top) && SameBelow(h.mem, m', h.top)
    ensures PayloadKept(h.mem, m', Lives(h.cs))
  {
    forall q | q in Lives(h.cs) ensures SameWords(h.mem, m', q + 8, q + Lives(h.cs)[q] + 4) {
      BelowTop(h.cs, HEAP_BASE, h.top, q);
    }
  }

  lemma OutsideAbove(h: Heap, m': Mem)
    requires Wf(h.cs, HEAP_BASE, h.top) && SameBelow(h.mem, m', h.top)
    requires forall x | x in h.binned :: x in h.cs && h.cs[x].size == h.binned[x]
    ensures TagsOnly(h.mem, m', h.binned)
  {
    TopAboveBase(h.cs, h.top);
    forall a ensures Rd(m', a) == Rd(h.mem, a) || OutsideBins(h.binned, a) {
      if a >= h.top + 4 {
        forall x | x in h.binned ensures !(x + 4 <= a < x + h.binned[x]) {
          BelowTop(h.cs, HEAP_BASE, h.top, x);
        }
      }
    }
  }

  lemma ClearedBelow(m: Mem, lo: int, hi: int, top: int)
    requires top + 4 <= lo
    ensures SameBelow(m, Cleared(m, lo, hi), top)
  {
  }

  /** Top extended by fresh pages. */
  lemma GrowTopKeeps(h: Heap, e: int, tsize: int)
    requires HeapInv(h) && e == h.top + h.topsize + 40 && 0 < tsize && tsize % 4096 == 0 && e + tsize <= 0x4000_0000
    ensures var m1 := Cleared(h.mem, e, e + tsize);
            var m2 := InitTop(m1, h.top, h.topsize + tsize);
            && HeapInv(h.(mem := m2, topsize := h.topsize + tsize))
            && PayloadKept(h.mem, m2, Lives(h.cs)) && TagsOnly(h.mem, m2, h.binned)
  {
    hide *;
    InvParts(h);
    TopParts(h.mem, h.top, h.topsize);
    PagesAligned(h.topsize, tsize);
    var m1 := Cleared(h.mem, e, e + tsize);
    var m2 := InitTop(m1, h.top, h.topsize + tsize);
    ClearedBelow(h.mem, e, e + tsize, h.top);
    InitTopWords(m1, h.top, h.topsize + tsize);
    BelowTransitive(h.mem, m1, m2, h.top);
    InitTopOK(m1, h.top, h.topsize + tsize);
    AboveTopKeeps(h, m2, h.topsize + tsize);
  }

  lemma PagesAligned(a: int, b: int)
    requires a % 8 == 0 && b % 4096 == 0
    ensures (a + b) % 8 == 0 && (a - b) % 8 == 0
  {
  }

  lemma BelowTransitive(m: Mem, m1: Mem, m2: Mem, top: int)
    requires SameBelow(m, m1, top) && forall a | a < top + 4 :: Rd(m2, a) == Rd(m1, a)
    ensures SameBelow(m, m2, top)
  {
  }

  /** Top cut back by whole pages. */
  lemma ShrinkTopKeeps(h: Heap, released: int)
    requires HeapInv(h) && 0 <= released < h.topsize && released % 4096 == 0
    ensures var m2 := InitTop(h.mem, h.top, h.topsize - released);
            && HeapInv(h.(mem := m2, topsize := h.topsize - released))
            && PayloadKept(h.mem, m2, Lives(h.cs)) && TagsOnly(h.mem, m2, h.binned)
  {
    hide *;
    InvParts(h);
    TopParts(h.mem, h.top, h.topsize);
    PagesAligned(h.topsize, released);
    var m2 := InitTop(h.mem, h.top, h.topsize - released);
    InitTopWords(h.mem, h.top, h.topsize - released);
    InitTopOK(h.mem, h.top, h.topsize - released);
    BelowReflexive(h.mem, m2, h.top);
    AboveTopKeeps(h, m2, h.topsize - released);
  }

  lemma BelowReflexive(m: Mem, m2: Mem, top: int)
    requires forall a | a < top + 4 :: Rd(m2, a) == Rd(m, a)
    ensures SameBelow(m, m2, top)
  {
  }

  // ----------------------------------------------------------------- the first time

  /** A malloc_state that has never allocated. */
  ghost predicate Fresh(h: Heap) {
    h.cs == map[] && h.top == 0 && h.topsize == 0 && h.dv == 0 && h.dvsize == 0 && h.binned == map[]
  }

  /** init_bins: every header points to itself. */
  function InitBins(m: Mem, n: nat): Mem {
    if n == 0 then m
    else
      var b := SmallBin(n - 1);
      InitBins(m, n - 1)[b + 8 := b][b + 12 := b]
  }

  lemma {:induction false} InitBinsFrame(m: Mem, n: nat, a: int)
    requires n <= NSMALLBINS && !(SMALLBINS + 8 <= a < TREEBINS)
    ensures Rd(InitBins(m, n), a) == Rd(m, a)
  {
    if n > 0 { InitBinsFrame(m, n - 1, a); }
  }

  lemma FirstTop(h: Heap, base: int, tsize: int)
    requires Fresh(h) && base == HEAP_BASE && 0 < tsize && tsize % 4096 == 0 && base + tsize <= HEAP_LIMIT
    ensures var m2 := InitTop(InitBins(Cleared(h.mem, base, base + tsize), NSMALLBINS), base, tsize - TOP_FOOT_SIZE);
            HeapInv(h.(mem := m2, top := base, topsize := tsize - TOP_FOOT_SIZE))
  {
    hide *;
    FirstSizes(tsize);
    var m1 := InitBins(Cleared(h.mem, base, base + tsize), NSMALLBINS);
    InitTopOK(m1, base, tsize - TOP_FOOT_SIZE);
    var m2 := InitTop(m1, base, tsize - TOP_FOOT_SIZE);
    NoChunks(h, m2, base);
    MakeInv(h.(mem := m2, top := base, topsize := tsize - TOP_FOOT_SIZE));
  }

  lemma FirstSizes(tsize: int)
    requires 0 < tsize && tsize % 4096 == 0
    ensures 40 == TOP_FOOT_SIZE < tsize && (tsize - TOP_FOOT_SIZE) % 8 == 0 && HEAP_LIMIT == 0x4000_0000
    ensures NSMALLBINS == 32
  {
    var k := tsize / 4096;
    assert tsize == 4096 * k && k >= 1;
    assert tsize - 40 == 8 * (512 * k - 5);
  }

  lemma NoChunks(h: Heap, m2: Mem, base: int)
    requires Fresh(h) && base == HEAP_BASE
    ensures Wf(h.cs, HEAP_BASE, base) && Tagged(m2, h.cs) && FreeFiled(h.cs, h.dv, h.dvsize, h.binned)
  {
  }

  lemma SmallMember(m: Mem, smallmap: BinMap, small: seq<seq<int>>, binned: Sizes, i: nat)
    requires SmallOK(m, smallmap, small, binned) && i < NSMALLBINS && small[i] != []
    ensures small[i][0] in binned
  {
    var x := small[i][0];
    assert x in small[i];
    assert x in binned;
  }

  lemma NoSmall(m: Mem, smallmap: BinMap, small: seq<seq<int>>, binned: Sizes, i: nat)
    requires SmallOK(m, smallmap, small, binned) && binned == map[] && i < NSMALLBINS
    ensures small[i] == [] && !smallmap[i]
  {
    if small[i] != [] { SmallMember(m, smallmap, small, binned, i); }
  }

  lemma RootHeld(t: Tree)
    requires t.Node?
    ensures Holds(t, t.addr, t.size)
  {
  }

  /** Nothing in the bins: both maps are clear. */
  lemma EmptyBins(m: Mem, smallmap: BinMap, small: seq<seq<int>>, treemap: BinMap, trees: seq<Tree>, binned: Sizes)
    requires BinsInv(m, smallmap, small, treemap, trees, binned) && binned == map[]
    ensures IsZero(smallmap) && IsZero(treemap)
    ensures forall i | 0 <= i < NSMALLBINS :: small[i] == []
    ensures forall i | 0 <= i < NTREEBINS :: trees[i].Leaf?
  {
    forall i | 0 <= i < NSMALLBINS ensures small[i] == [] && !smallmap[i] {
      NoSmall(m, smallmap, small, binned, i);
    }
    forall i | 0 <= i < NTREEBINS ensures trees[i].Leaf? && !treemap[i] {
      assert TreeBinOK(m, treemap[i], trees[i], i) && TreeContents(trees[i], i, binned);
      if trees[i].Node? { RootHeld(trees[i]); }
    }
  }

  /** Initialisation writes nothing that empty bins are read from. */
  lemma FirstBins(m: Mem, smallmap: BinMap, small: seq<seq<int>>, treemap: BinMap, trees: seq<Tree>, binned: Sizes,
        base: int, tsize: int)
    requires BinsInv(m, smallmap, small, treemap, trees, binned) && binned == map[]
    requires base == HEAP_BASE && 40 < tsize
    ensures BinsInv(InitTop(InitBins(Cleared(m, base, base + tsize), NSMALLBINS), base, tsize - TOP_FOOT_SIZE),
                    smallmap, small, treemap, trees, binned)
  {
    var m0 := Cleared(m, base, base + tsize);
    var m1 := InitBins(m0, NSMALLBINS);
    var m2 := InitTop(m1, base, tsize - TOP_FOOT_SIZE);
    EmptyBins(m, smallmap, small, treemap, trees, binned);
    forall i | 0 <= i < NTREEBINS ensures Rd(m2, TreeBin(i)) == Rd(m, TreeBin(i)) {
      InitBinsFrame(m0, NSMALLBINS, TreeBin(i));
    }
    hide InitBins, InitTop, Cleared;
    TreesFrame(m, m2, treemap, trees, binned);
  }

  // --------------------------------------------------------------------- trimming

  /** extra in sys_trim: whole pages, less than the surplus over pad. */
  function Extra(topsize: int, pad: int): int {
    ((topsize - pad + (PAGE_SIZE - 1)) / PAGE_SIZE - 1) * PAGE_SIZE
  }

  /** What is left of top is more than pad, and at most one page more. */
  lemma ExtraLeaves(topsize: int, pad: int)
    requires pad < topsize
    ensures 0 <= Extra(topsize, pad) && Extra(topsize, pad) % PAGE_SIZE == 0
    ensures pad < topsize - Extra(topsize, pad) <= pad + PAGE_SIZE
  {
  }

  /** How much sys_alloc asks of MORECORE. */
  function Demand(nb: int, contiguous: bool, top: int, topsize: int): int {
    if contiguous && top != 0 then PageAlign((nb - topsize + SYS_ALLOC_PADDING) % TWO32)
    else PageAlign((nb + SYS_ALLOC_PADDING) % TWO32)
  }

  /** The break did not move, or moved up by exactly what sys_alloc asks for. */
  predicate GrewBy(was: int, now: int, demand: int)
    ensures GrewBy(was, now, demand) <==> now == was || now == was + demand
  {
    now == was || now == was + demand
  }

  /** The least number of whole pages that make so much room. */
  ghost predicate LeastPages(g: int, room: int)
    ensures LeastPages(g, room) <==> g % 4096 == 0 && room <= g < room + 4096
  {
    g % 4096 == 0 && room <= g < room + 4096
  }

  /** sys_alloc asks for exactly the least number of pages with room for the request and the padding, less
      what top has, as long as the new space borders on top. */
  lemma DemandIsLeast(nb: int, contiguous: bool, top: int, topsize: int, g: int)
    requires 16 <= nb && nb + SYS_ALLOC_PADDING + 4095 < TWO32 && 0 <= topsize <= nb && (top == 0 ==> topsize == 0)
    ensures g == Demand(nb, contiguous, top, topsize) <==>
              LeastPages(g, nb + 48 - if contiguous && top != 0 then topsize else 0)
  {
    hide *;
    var room := nb + 48 - if contiguous && top != 0 then topsize else 0;
    DemandOf(nb, contiguous, top, topsize);
    PageAlignBounds(room);
    OneMultiple(g, PageAlign(room), room);
  }

  lemma DemandOf(nb: int, contiguous: bool, top: int, topsize: int)
    requires 16 <= nb && nb + SYS_ALLOC_PADDING + 4095 < TWO32 && 0 <= topsize <= nb && (top == 0 ==> topsize == 0)
    ensures var room := nb + 48 - if contiguous && top != 0 then topsize else 0;
            Demand(nb, contiguous, top, topsize) == PageAlign(room) && 0 <= room && room + 4095 < TWO32
  {
    hide PageAlign;
  }

  lemma OneMultiple(g: int, d: int, room: int)
    requires d % 4096 == 0 && room <= d < room + 4096
    ensures g % 4096 == 0 && room <= g < room + 4096 ==> g == d
  {
  }

  lemma DemandBounds(nb: int, contiguous: bool, top: int, topsize: int)
    requires 16 <= nb && nb + SYS_ALLOC_PADDING + 4095 < TWO32 && 0 <= topsize <= nb && (top == 0 ==> topsize == 0)
    ensures var d, a := Demand(nb, contiguous, top, topsize), PageAlign((nb + SYS_ALLOC_PADDING) % TWO32);
            && nb - topsize + SYS_ALLOC_PADDING <= d <= a && d % 4096 == 0 && a % 4096 == 0 && 0 < d
            && nb + SYS_ALLOC_PADDING <= a
  {
    PageAlignBounds(nb + SYS_ALLOC_PADDING);
    PageAlignBounds(nb - topsize + SYS_ALLOC_PADDING);
  }

  lemma NothingBinned()
    ensures BinsInv(map[], EMPTY, seq(32, _ => []), EMPTY, seq(32, _ => Leaf), map[])
  {
    var trees := seq(32, _ => Leaf);
    hide TreeIndex, BinLo, BinWidth;
    forall i | 0 <= i < NTREEBINS
      ensures TreeBinOK(map[], EMPTY[i], trees[i], i) && TreeContents(trees[i], i, map[])
    {
    }
  }
}
