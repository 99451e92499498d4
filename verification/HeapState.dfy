/** The whole heap invariant, and how stores to head and foot words keep it. */
module HeapState {
  import opened Words
  import opened Bins
  import opened Tiling

  const MIN_CHUNK_SIZE := 16
  const TOP_FOOT_SIZE := 40
  /** KERNEL_HEAP_TOP_VADDR. */
  const HEAP_LIMIT := 0x4000_0000

  /** The allocator's state as a value; cs is the tiling of the segment below top. */
  datatype Heap = Heap(mem: Mem, cs: Chunks, top: int, topsize: int, dv: int, dvsize: int, binned: Sizes)

  /** Every free chunk but dv and top is in the bins, with its size. */
  ghost predicate FreeFiled(cs: Chunks, dv: int, dvsize: int, binned: Sizes) {
    && (if dvsize == 0 then dv == 0 else dv in cs && !cs[dv].live && cs[dv].size == dvsize)
    && dv !in binned
    && (forall x | x in binned :: x in cs && !cs[x].live && cs[x].size == binned[x])
    && (forall x | x in cs && !cs[x].live :: x in binned || x == dv)
  }

  ghost predicate TopOK(m: Mem, top: int, topsize: int) {
    && 0 < topsize && topsize % 8 == 0 && top + topsize + TOP_FOOT_SIZE <= HEAP_LIMIT
    && Head(m, top) == HeadWord(topsize, false, true)
    && Head(m, top + topsize) == TOP_FOOT_SIZE
  }

  lemma TopParts(m: Mem, top: int, topsize: int)
    requires TopOK(m, top, topsize)
    ensures 0 < topsize && topsize % 8 == 0 && top + topsize + 40 <= 0x4000_0000
    ensures Head(m, top) == topsize + 1 && Head(m, top + topsize) == 40
  {
  }

  lemma MakeTop(m: Mem, top: int, topsize: int)
    requires 0 < topsize && topsize % 8 == 0 && top + topsize + 40 <= 0x4000_0000
    requires Head(m, top) == topsize + 1 && Head(m, top + topsize) == 40
    ensures TopOK(m, top, topsize)
  {
  }

  /** The chunk's own tag words are what the tiling says. */
  ghost predicate TagOK(m: Mem, cs: Chunks, q: int)
    requires q in cs
  {
    && Head(m, q) == HeadWord(cs[q].size, cs[q].live, cs[q].prevLive)
    && (!cs[q].live ==> PrevFoot(m, End(cs, q)) == cs[q].size)
  }

  lemma MakeTag(m: Mem, cs: Chunks, q: int)
    requires q in cs && Head(m, q) == HeadWord(cs[q].size, cs[q].live, cs[q].prevLive)
    requires !cs[q].live ==> PrevFoot(m, q + cs[q].size) == cs[q].size
    ensures TagOK(m, cs, q)
  {
  }

  lemma TagParts(m: Mem, cs: Chunks, q: int)
    requires q in cs && TagOK(m, cs, q)
    ensures Head(m, q) == HeadWord(cs[q].size, cs[q].live, cs[q].prevLive)
    ensures !cs[q].live ==> PrevFoot(m, q + cs[q].size) == cs[q].size
  {
  }

  /** A chunk that two tilings share is tagged for both. */
  lemma SameTags(m: Mem, cs: Chunks, cs': Chunks, changed: set<int>)
    requires forall q | q in cs' && q !in changed :: q in cs && cs'[q] == cs[q] && TagOK(m, cs, q)
    ensures forall q | q in cs' && q !in changed :: TagOK(m, cs', q)
  {
    forall q | q in cs' && q !in changed ensures TagOK(m, cs', q) {
      assert TagOK(m, cs, q);
    }
  }

  /** Reading a head word gives back the size and bits it was written with. */
  lemma HeadTells(m: Mem, cs: Chunks, q: int)
    requires q in cs && TagOK(m, cs, q) && cs[q].size % 8 == 0
    ensures SizeOf(Head(m, q)) == cs[q].size
    ensures Cinuse(Head(m, q)) == cs[q].live && Pinuse(Head(m, q)) == cs[q].prevLive
  {
    HeadWordFields(cs[q].size, cs[q].live, cs[q].prevLive);
  }

  lemma TopTells(m: Mem, top: int, topsize: int)
    requires TopOK(m, top, topsize)
    ensures SizeOf(Head(m, top)) == topsize && !Cinuse(Head(m, top)) && Pinuse(Head(m, top))
  {
    HeadWordFields(topsize, false, true);
  }

  /** The head words, and the foot words of free chunks, agree with the tiling. */
  ghost predicate Tagged(m: Mem, cs: Chunks) {
    forall q | q in cs :: TagOK(m, cs, q)
  }

  /** What do_check_malloc_state checks, the contents of the bins apart. */
  ghost predicate HeapInv(h: Heap) {
    && Wf(h.cs, HEAP_BASE, h.top)
    && Tagged(h.mem, h.cs)
    && TopOK(h.mem, h.top, h.topsize)
    && FreeFiled(h.cs, h.dv, h.dvsize, h.binned)
  }

  lemma BlocksFromTiling(cs: Chunks, top: int, b: Sizes)
    requires Wf(cs, HEAP_BASE, top) && top <= HEAP_LIMIT
    requires forall x | x in b :: x in cs && cs[x].size == b[x]
    ensures Blocks(b)
  {
    forall x | x in b
      ensures HEAP_BASE <= x && x % 8 == 0 && 16 <= b[x] < TWO32 && b[x] % 8 == 0
    {
      BelowTop(cs, HEAP_BASE, top, x);
    }
    forall x, y | x in b && y in b && x < y ensures x + b[x] <= y {
      EndsDiffer(cs, HEAP_BASE, top, x, y);
    }
  }

  // ----------------------------------------------------------- what bins may write

  /** The words of [lo, hi) are the same in m and m'. For a chunk q in use, [q + 8, End + 4) is
      its payload: all up to the head of the next chunk, whose prev_foot word is included. */
  ghost predicate SameWords(m: Mem, m': Mem, lo: int, hi: int) {
    forall a | lo <= a < hi :: Rd(m', a) == Rd(m, a)
  }

  lemma InteriorIsFree(cs: Chunks, top: int, binned: Sizes, q: int, a: int)
    requires Wf(cs, HEAP_BASE, top) && q in cs
    requires forall x | x in binned :: x in cs && !cs[x].live && cs[x].size == binned[x]
    requires a == q + 4 || a == End(cs, q) || (cs[q].live && q + 8 <= a < End(cs, q) + 4)
    ensures !Interior(binned, a)
  {
    forall x | x in binned ensures !(x + 8 <= a < x + binned[x]) {
      EndsDiffer(cs, HEAP_BASE, top, x, q);
      BelowTop(cs, HEAP_BASE, top, q);
      BelowTop(cs, HEAP_BASE, top, x);
    }
  }

  /** The chunks in use, with their sizes. */
  ghost function Lives(cs: Chunks): Sizes {
    map p | p in cs && cs[p].live :: cs[p].size
  }

  /** The payloads of these chunks are the same in m and m'. */
  ghost predicate PayloadKept(m: Mem, m': Mem, lives: Sizes) {
    forall q | q in lives :: SameWords(m, m', q + 8, q + lives[q] + 4)
  }

  /** The blocks malloc has given out: aligned, inside the segment, and apart from each other and from
      every free chunk, the shared word behind each included. */
  lemma LiveBlocks(h: Heap)
    requires HeapInv(h)
    ensures forall p | p in Lives(h.cs) :: (p + 8) % 8 == 0 && HEAP_BASE <= p && p + Lives(h.cs)[p] + 4 <= h.top + 4
    ensures forall p, q | p in Lives(h.cs) && q in h.cs && p < q :: p + Lives(h.cs)[p] + 4 <= q + 4
    ensures forall p, q | p in Lives(h.cs) && q in h.cs && !h.cs[q].live && q < p :: q + h.cs[q].size <= p
  {
    forall p | p in Lives(h.cs) ensures (p + 8) % 8 == 0 && HEAP_BASE <= p && p + Lives(h.cs)[p] <= h.top {
      BelowTop(h.cs, HEAP_BASE, h.top, p);
    }
    forall p, q | p in h.cs && q in h.cs && p < q ensures p + h.cs[p].size <= q {
      EndsDiffer(h.cs, HEAP_BASE, h.top, p, q);
    }
  }

  lemma KeptReflexive(m: Mem, lives: Sizes)
    ensures PayloadKept(m, m, lives)
  {
  }

  lemma KeptTransitive(m: Mem, m1: Mem, m2: Mem, lives: Sizes, more: Sizes)
    requires PayloadKept(m, m1, more) && PayloadKept(m1, m2, lives)
    requires forall q | q in lives :: q in more && more[q] == lives[q]
    ensures PayloadKept(m, m2, lives)
  {
    forall q | q in lives ensures SameWords(m, m2, q + 8, q + lives[q] + 4) {
      assert SameWords(m, m1, q + 8, q + more[q] + 4);
      assert SameWords(m1, m2, q + 8, q + lives[q] + 4);
    }
  }

  /** What the bins write leaves tags, top and live payloads alone. */
  lemma FrameKeeps(m: Mem, m': Mem, cs: Chunks, top: int, topsize: int, binned: Sizes)
    requires Wf(cs, HEAP_BASE, top) && BinsFrame(m, m', binned)
    requires forall x | x in binned :: x in cs && !cs[x].live && cs[x].size == binned[x]
    ensures forall q | q in cs && TagOK(m, cs, q) :: TagOK(m', cs, q)
    ensures TopOK(m, top, topsize) ==> TopOK(m', top, topsize)
    ensures PayloadKept(m, m', Lives(cs))
  {
    hide Wf, Interior;
    forall q | q in cs ensures TagOK(m, cs, q) ==> TagOK(m', cs, q) {
      InteriorIsFree(cs, top, binned, q, q + 4);
      InteriorIsFree(cs, top, binned, q, End(cs, q));
      BelowTop(cs, HEAP_BASE, top, q);
    }
    forall q | q in Lives(cs) ensures SameWords(m, m', q + 8, q + Lives(cs)[q] + 4) {
      BelowTop(cs, HEAP_BASE, top, q);
      forall a | q + 8 <= a < End(cs, q) + 4 ensures Rd(m', a) == Rd(m, a) {
        InteriorIsFree(cs, top, binned, q, a);
      }
    }
    if 0 < topsize && HEAP_BASE <= top {
      AboveTop(cs, top, binned, top + 4);
      AboveTop(cs, top, binned, top + topsize + 4);
    }
    TopAboveBase(cs, top);
  }

  lemma TopAboveBase(cs: Chunks, top: int)
    requires Wf(cs, HEAP_BASE, top)
    ensures HEAP_BASE <= top
  {
  }

  lemma AboveTop(cs: Chunks, top: int, binned: Sizes, a: int)
    requires Wf(cs, HEAP_BASE, top) && top <= a
    requires forall x | x in binned :: x in cs && cs[x].size == binned[x]
    ensures !Interior(binned, a)
  {
    forall x | x in binned ensures !(x + 8 <= a < x + binned[x]) {
      BelowTop(cs, HEAP_BASE, top, x);
    }
  }

  // ------------------------------------------------- stores to head and foot words

  /** Only head words of chunks in heads and foot words at addresses in feet changed. */
  ghost predicate OnlyTags(m: Mem, m': Mem, heads: set<int>, feet: set<int>) {
    forall a | a - 4 !in heads && a !in feet :: Rd(m', a) == Rd(m, a)
  }

  lemma Retag(m: Mem, m': Mem, cs: Chunks, top: int, heads: set<int>, feet: set<int>)
    requires Wf(cs, HEAP_BASE, top) && OnlyTags(m, m', heads, feet)
    requires forall x | x in heads :: x % 8 == 0
    requires forall x | x in feet :: x % 8 == 0
    requires forall q | q in cs && q !in heads :: TagOK(m, cs, q)
    requires forall q | q in cs && q !in heads && !cs[q].live :: End(cs, q) !in feet
    requires forall q | q in cs && q in heads :: TagOK(m', cs, q)
    ensures Tagged(m', cs)
  {
    forall q | q in cs ensures TagOK(m', cs, q) {
      if q !in heads {
        RetagOne(m, m', cs, top, heads, feet, q);
      }
    }
  }

  lemma RetagOne(m: Mem, m': Mem, cs: Chunks, top: int, heads: set<int>, feet: set<int>, q: int)
    requires Wf(cs, HEAP_BASE, top) && OnlyTags(m, m', heads, feet)
    requires forall x | x in heads :: x % 8 == 0
    requires forall x | x in feet :: x % 8 == 0
    requires q in cs && q !in heads && TagOK(m, cs, q)
    requires !cs[q].live ==> End(cs, q) !in feet
    ensures TagOK(m', cs, q)
  {
    BelowTop(cs, HEAP_BASE, top, q);
    hide Wf, Rd, HeadWord;
    assert (q + 4) - 4 == q && q + 4 !in feet;
    if !cs[q].live { assert End(cs, q) - 4 !in heads; }
  }

  /** Such stores keep the payload of chunks in use: no head or foot lies inside one. */
  lemma RetagKeeps(m: Mem, m': Mem, cs: Chunks, top: int, heads: set<int>, feet: set<int>)
    requires Wf(cs, HEAP_BASE, top) && OnlyTags(m, m', heads, feet)
    requires forall x | x in heads :: x in cs || x >= top
    requires forall f | f in feet :: exists z :: z in cs && !cs[z].live && End(cs, z) == f
    ensures PayloadKept(m, m', Lives(cs))
  {
    forall q | q in Lives(cs) ensures SameWords(m, m', q + 8, q + Lives(cs)[q] + 4) {
      BelowTop(cs, HEAP_BASE, top, q);
      forall a | q + 8 <= a < End(cs, q) + 4 ensures Rd(m', a) == Rd(m, a) {
        if a - 4 in heads && a - 4 in cs {
          EndsDiffer(cs, HEAP_BASE, top, q, a - 4);
          assert false;
        }
        if a in feet {
          var z :| z in cs && !cs[z].live && End(cs, z) == a;
          EndsDiffer(cs, HEAP_BASE, top, q, z);
          BelowTop(cs, HEAP_BASE, top, z);
          assert false;
        }
      }
    }
  }

  /** Such stores miss the bins. */
  lemma TagsOutside(m: Mem, m': Mem, cs: Chunks, top: int, binned: Sizes, heads: set<int>, feet: set<int>)
    requires Wf(cs, HEAP_BASE, top) && OnlyTags(m, m', heads, feet)
    requires forall x | x in binned :: x in cs && cs[x].size == binned[x]
    requires forall x | x in heads :: (x in cs && x !in binned) || x >= top
    requires forall f | f in feet :: exists z :: z in cs && End(cs, z) == f
    ensures TagsOnly(m, m', binned)
  {
    forall a ensures Rd(m', a) == Rd(m, a) || OutsideBins(binned, a) {
      if a - 4 in heads {
        HeadOutside(cs, top, binned, a - 4);
      } else if a in feet {
        var z :| z in cs && End(cs, z) == a;
        FootOutside(cs, top, binned, z);
      }
    }
  }

  lemma HeadOutside(cs: Chunks, top: int, binned: Sizes, p: int)
    requires Wf(cs, HEAP_BASE, top) && ((p in cs && p !in binned) || p >= top)
    requires forall x | x in binned :: x in cs && cs[x].size == binned[x]
    ensures OutsideBins(binned, p + 4)
  {
    TopAboveBase(cs, top);
    if p in cs { BelowTop(cs, HEAP_BASE, top, p); }
    forall x | x in binned ensures !(x + 4 <= p + 4 < x + binned[x]) {
      BelowTop(cs, HEAP_BASE, top, x);
      if p in cs {
        EndsDiffer(cs, HEAP_BASE, top, x, p);
      }
    }
  }

  lemma FootOutside(cs: Chunks, top: int, binned: Sizes, z: int)
    requires Wf(cs, HEAP_BASE, top) && z in cs
    requires forall x | x in binned :: x in cs && cs[x].size == binned[x]
    ensures OutsideBins(binned, End(cs, z))
  {
    BelowTop(cs, HEAP_BASE, top, z);
    forall x | x in binned ensures !(x + 4 <= End(cs, z) < x + binned[x]) {
      EndsDiffer(cs, HEAP_BASE, top, x, z);
      BelowTop(cs, HEAP_BASE, top, x);
    }
  }
}
