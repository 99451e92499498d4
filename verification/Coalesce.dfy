/** Freeing a chunk: joining it with its free neighbours, case by case. */
module Coalesce {
  import opened Words
  import opened Bins
  import opened Tiling
  import opened HeapState

  // ---------------------------------------------------------- live sizes of re-cuts

  lemma LivesJoinPrev(cs: Chunks, base: int, top: int, q: int)
    requires Wf(cs, base, top) && q in cs && !cs[q].live && End(cs, q) in cs && cs[End(cs, q)].live
    ensures Lives(JoinPrev(cs, q)) - {q} == Lives(cs) - {End(cs, q)}
    ensures End(cs, q) !in JoinPrev(cs, q)
  {
    BelowTop(cs, base, top, q);
  }

  lemma LivesJoinNext(cs: Chunks, base: int, top: int, p: int)
    requires Wf(cs, base, top) && p in cs && cs[p].live && End(cs, p) in cs && !cs[End(cs, p)].live
    ensures Lives(JoinNext(cs, p)) - {p} == Lives(cs) - {p}
    ensures JoinNext(cs, p)[p].live
    ensures End(cs, p) !in JoinNext(cs, p)
  {
    var n := End(cs, p);
    assert ChunkOK(cs, base, top, p) && ChunkOK(cs, base, top, n);
  }

  lemma LivesRelease(cs: Chunks, p: int)
    requires p in cs && cs[p].live && cs[p].size > 0
    ensures Lives(Release(cs, p)) == Lives(cs) - {p}
  {
  }

  // ------------------------------------------------------------ intermediate states

  /** Chunk p is being freed: it still counts as in use, is no longer read, and what lies before
      it is in use. It may be the old dv grown forward over the chunk behind it. */
  ghost predicate Mid(h: Heap, p: int) {
    && Wf(h.cs, HEAP_BASE, h.top)
    && p in h.cs && h.cs[p].live && h.cs[p].prevLive
    && (forall q | q in h.cs && q != p :: TagOK(h.mem, h.cs, q))
    && TopOK(h.mem, h.top, h.topsize)
    && (if h.dv == p then FreeFiled(h.cs, 0, 0, h.binned) && NextNotLive(h.cs, h.top, p)
        else FreeFiled(h.cs, h.dv, h.dvsize, h.binned))
  }

  ghost predicate NextNotLive(cs: Chunks, top: int, p: int)
    requires p in cs
  {
    End(cs, p) == top || (End(cs, p) in cs && !cs[End(cs, p)].live)
  }

  /** Chunk p is free and tagged so, but in no bin yet. */
  ghost predicate Loose(h: Heap, p: int) {
    && Wf(h.cs, HEAP_BASE, h.top)
    && p in h.cs && !h.cs[p].live && p !in h.binned && p != h.dv
    && Tagged(h.mem, h.cs)
    && TopOK(h.mem, h.top, h.topsize)
    && FreeFiled(h.cs, h.dv, h.dvsize, h.binned[p := h.cs[p].size])
  }

  /** Freed memory joins dv, never the other way round: the new dv covers the old one, unless that went
      into top. */
  ghost predicate DvCovers(dv: int, dvsize: int, dv': int, dvsize': int, top': int)
    ensures DvCovers(dv, dvsize, dv', dvsize', top') <==>
              if dvsize == 0 then dv' == 0 && dvsize' == 0
              else (dv' == 0 && dvsize' == 0 && top' <= dv) || (dv' <= dv && dv + dvsize <= dv' + dvsize')
  {
    if dvsize == 0 then dv' == 0 && dvsize' == 0
    else (dv' == 0 && dvsize' == 0 && top' <= dv) || (dv' <= dv && dv + dvsize <= dv' + dvsize')
  }

  // ------------------------------------------------------------ consolidate backward

  /** The free chunk before p is found through the prev_foot word, and joined. */
  lemma BackFacts(h: Heap, p: int)
    requires HeapInv(h) && p in h.cs && h.cs[p].live && !h.cs[p].prevLive
    ensures var q := p - PrevFoot(h.mem, p);
            && q in h.cs && !h.cs[q].live && End(h.cs, q) == p && q < p && h.cs[q].size == PrevFoot(h.mem, p)
            && (q != h.dv ==> q in h.binned && h.binned[q] == h.cs[q].size)
  {
    var q := FreePrev(h.cs, HEAP_BASE, h.top, p);
    assert TagOK(h.mem, h.cs, q);
  }

  /** After unlinking the chunk before p from its bin. */
  lemma BackBinned(h: Heap, m1: Mem, q: int)
    requires HeapInv(h) && q in h.cs && !h.cs[q].live && q != h.dv
    requires var p := End(h.cs, q); p in h.cs && h.cs[p].live
    requires BinsFrame(h.mem, m1, h.binned)
    ensures Mid(Heap(m1, JoinPrev(h.cs, q), h.top, h.topsize, h.dv, h.dvsize, h.binned - {q}), q)
    ensures PayloadKept(h.mem, m1, Lives(h.cs))
  {
    var p, cs' := End(h.cs, q), JoinPrev(h.cs, q);
    FreeHasLivePrev(h.cs, HEAP_BASE, h.top, q);
    FrameKeeps(h.mem, m1, h.cs, h.top, h.topsize, h.binned);
    JoinPrevWf(h.cs, HEAP_BASE, h.top, q);
    BelowTop(h.cs, HEAP_BASE, h.top, q);
    BackTags(h, m1, q);
    hide Wf, TagOK, TopOK, BinsFrame, PayloadKept;
  }

  lemma BackTags(h: Heap, m1: Mem, q: int)
    requires q in h.cs && End(h.cs, q) in h.cs && h.cs[q].size > 0
    requires forall x | x in h.cs :: TagOK(m1, h.cs, x)
    ensures forall x | x in JoinPrev(h.cs, q) && x != q :: TagOK(m1, JoinPrev(h.cs, q), x)
  {
    var cs' := JoinPrev(h.cs, q);
    forall x | x in cs' && x != q ensures TagOK(m1, cs', x) {
      assert TagOK(m1, h.cs, x);
      assert cs'[x] == h.cs[x] && End(cs', x) == End(h.cs, x);
    }
  }

  /** The chunk before p is dv and the one behind p is not in use: dv stays, to grow further. */
  lemma BackDv(h: Heap, q: int)
    requires HeapInv(h) && q in h.cs && !h.cs[q].live && q == h.dv
    requires var p := End(h.cs, q); p in h.cs && h.cs[p].live && NextNotLive(h.cs, h.top, p)
    ensures Mid(h.(cs := JoinPrev(h.cs, q)), q)
  {
    var p, cs' := End(h.cs, q), JoinPrev(h.cs, q);
    FreeHasLivePrev(h.cs, HEAP_BASE, h.top, q);
    JoinPrevWf(h.cs, HEAP_BASE, h.top, q);
    BelowTop(h.cs, HEAP_BASE, h.top, q);
    BelowTop(h.cs, HEAP_BASE, h.top, p);
    BackTags(h, h.mem, q);
    assert End(cs', q) == End(h.cs, p);
    if End(h.cs, p) in h.cs { BelowTop(h.cs, HEAP_BASE, h.top, End(h.cs, p)); }
    NullNotBinned(h);
    hide Wf, TagOK, TopOK;
  }

  lemma NullNotBinned(h: Heap)
    requires Wf(h.cs, HEAP_BASE, h.top) && forall x | x in h.binned :: x in h.cs
    ensures 0 !in h.binned && 0 !in h.cs
  {
    if 0 in h.cs { BelowTop(h.cs, HEAP_BASE, h.top, 0); assert false; }
  }

  /** The chunk before p is dv and the one behind p is in use: dv takes p in, and that is all. */
  function GrownDv(h: Heap, q: int): Heap
    requires q in h.cs && End(h.cs, q) in h.cs
  {
    var p := End(h.cs, q);
    var s := h.cs[q].size + h.cs[p].size;
    var cs' := JoinPrev(h.cs, q);
    h.(mem := SetFreeWithPinuse(h.mem, q, s, End(h.cs, p)), dvsize := s, cs := Release(cs', q))
  }

  lemma DvTakesIn(h: Heap, q: int)
    requires HeapInv(h) && q in h.cs && !h.cs[q].live && q == h.dv
    requires var p := End(h.cs, q); p in h.cs && h.cs[p].live && End(h.cs, p) in h.cs && h.cs[End(h.cs, p)].live
    ensures HeapInv(GrownDv(h, q))
    ensures Lives(GrownDv(h, q).cs) == Lives(h.cs) - {End(h.cs, q)}
    ensures PayloadKept(h.mem, GrownDv(h, q).mem, Lives(GrownDv(h, q).cs))
    ensures TagsOnly(h.mem, GrownDv(h, q).mem, h.binned)
  {
    var p := End(h.cs, q);
    var n := End(h.cs, p);
    var cs1 := JoinPrev(h.cs, q);
    BelowTop(h.cs, HEAP_BASE, h.top, q);
    BelowTop(h.cs, HEAP_BASE, h.top, p);
    FreeHasLivePrev(h.cs, HEAP_BASE, h.top, q);
    JoinPrevWf(h.cs, HEAP_BASE, h.top, q);
    LivesJoinPrev(h.cs, HEAP_BASE, h.top, q);
    BackTags(h, h.mem, q);
    assert cs1[n] == h.cs[n] && End(cs1, q) == n && cs1[q].live && cs1[q].prevLive;
    hide Wf, TagOK, TopOK, SetFreeWithPinuse, PayloadKept, Tagged;
    LivesRelease(cs1, q);
    ReleaseWf(cs1, HEAP_BASE, h.top, q);
    ReleaseTags(h.mem, cs1, h.top, h.topsize, q);
    GrownDvFiled(h, q);
    FreedOutside(h.mem, GrownDv(h, q).mem, Release(cs1, q), h.top, h.binned, q, n);
    hide FreeFiled, Lives, JoinPrev, Release, OnlyTags, TagsOnly;
  }

  /** The stores that set p free miss the bins, as long as p is not filed. */
  lemma FreedOutside(m: Mem, m': Mem, cs': Chunks, top: int, binned: Sizes, p: int, n: int)
    requires Wf(cs', HEAP_BASE, top) && OnlyTags(m, m', {p, n}, {n})
    requires forall x | x in binned :: x in cs' && !cs'[x].live && cs'[x].size == binned[x]
    requires p in cs' && p !in binned && End(cs', p) == n
    requires n in cs' && cs'[n].live
    ensures TagsOnly(m, m', binned)
  {
    TagsOutside(m, m', cs', top, binned, {p, n}, {n});
  }

  lemma GrownDvFiled(h: Heap, q: int)
    requires q in h.cs && !h.cs[q].live && q == h.dv && FreeFiled(h.cs, h.dv, h.dvsize, h.binned)
    requires h.cs[q].size > 0
    requires var p := End(h.cs, q);
              p in h.cs && h.cs[p].live && h.cs[p].size > 0 && End(h.cs, p) in h.cs &&
              h.cs[End(h.cs, p)].live
    ensures var h' := GrownDv(h, q); FreeFiled(h'.cs, h'.dv, h'.dvsize, h'.binned)
  {
  }

  /** set_free_with_pinuse on a chunk between chunks in use. */
  lemma ReleaseTags(m: Mem, cs: Chunks, top: int, topsize: int, p: int)
    requires Wf(cs, HEAP_BASE, top) && p in cs && cs[p].live && cs[p].prevLive
    requires End(cs, p) in cs && cs[End(cs, p)].live
    requires forall q | q in cs && q != p :: TagOK(m, cs, q)
    requires TopOK(m, top, topsize)
    ensures var m' := SetFreeWithPinuse(m, p, cs[p].size, End(cs, p));
            && Tagged(m', Release(cs, p)) && TopOK(m', top, topsize)
            && PayloadKept(m, m', Lives(Release(cs, p)))
            && OnlyTags(m, m', {p, End(cs, p)}, {End(cs, p)})
  {
    var n := End(cs, p);
    var cs' := Release(cs, p);
    var m' := SetFreeWithPinuse(m, p, cs[p].size, n);
    ReleaseWf(cs, HEAP_BASE, top, p);
    BelowTop(cs, HEAP_BASE, top, p);
    BelowTop(cs, HEAP_BASE, top, n);
    assert TagOK(m, cs, n) && ChunkOK(cs, HEAP_BASE, top, p);
    FreeWords(m, p, cs[p].size, n, cs[n]);
    ReleaseOthers(m, cs, top, p);
    assert TagOK(m', cs', p) && TagOK(m', cs', n);
    assert End(cs', p) == n && !cs'[p].live;
    TopAboveBase(cs, top);
    TopKept(m, m', top, topsize, {p, n}, {n});
    hide Wf, SetFreeWithPinuse, Release, TopOK, TagOK;
    Retag(m, m', cs', top, {p, n}, {n});
    RetagKeeps(m, m', cs', top, {p, n}, {n});
  }

  lemma ReleaseOthers(m: Mem, cs: Chunks, top: int, p: int)
    requires Wf(cs, HEAP_BASE, top) && p in cs && cs[p].live && cs[p].prevLive
    requires End(cs, p) in cs && cs[End(cs, p)].live
    requires forall q | q in cs && q != p :: TagOK(m, cs, q)
    ensures var cs', n := Release(cs, p), End(cs, p);
            forall q | q in cs' && q != p && q != n :: TagOK(m, cs', q) && End(cs', q) != n
  {
    var cs', n := Release(cs, p), End(cs, p);
    forall q | q in cs' && q != p && q != n ensures TagOK(m, cs', q) && End(cs', q) != n {
      EndsDiffer(cs, HEAP_BASE, top, p, q);
      assert cs'[q] == cs[q] && TagOK(m, cs, q);
    }
  }

  /** The words set_free_with_pinuse writes. */
  lemma FreeWords(m: Mem, p: int, s: int, n: int, c: Chunk)
    requires n == p + s && s % 8 == 0 && 16 <= s && c.prevLive && c.live && c.size % 8 == 0
    requires Head(m, n) == HeadWord(c.size, c.live, c.prevLive)
    ensures var m' := SetFreeWithPinuse(m, p, s, n);
            && Head(m', p) == HeadWord(s, false, true) && PrevFoot(m', n) == s
            && Head(m', n) == HeadWord(c.size, c.live, false)
            && OnlyTags(m, m', {p, n}, {n})
  {
    HeadWordFields(c.size, c.live, c.prevLive);
  }

  /** Tag stores below top leave top's two words alone. */
  lemma TopKept(m: Mem, m': Mem, top: int, topsize: int, heads: set<int>, feet: set<int>)
    requires TopOK(m, top, topsize) && OnlyTags(m, m', heads, feet)
    requires forall x | x in heads :: x < top
    requires forall x | x in feet :: x <= top
    ensures TopOK(m', top, topsize)
  {
    assert Rd(m', top + 4) == Rd(m, top + 4);
    assert Rd(m', top + topsize + 4) == Rd(m, top + topsize + 4);
  }

  // ------------------------------------------------------------- consolidate forward

  /** The chunk behind p is top: p becomes the start of top. */
  function MergedTop(h: Heap, p: int): Heap
    requires p in h.cs
  {
    var ts := h.topsize + h.cs[p].size;
    h.(mem := h.mem[p + 4 := ts + 1], cs := h.cs - {p}, top := p, topsize := ts,
       dv := if h.dv == p then 0 else h.dv, dvsize := if h.dv == p then 0 else h.dvsize)
  }

  lemma MultiplesOfEight(a: int, b: int)
    requires a % 8 == 0 && b % 8 == 0
    ensures (a + b) % 8 == 0
  {
  }

  lemma MergedTopIs(h: Heap, p: int)
    requires p in h.cs
    ensures var ts := h.topsize + h.cs[p].size;
            MergedTop(h, p) == Heap(h.mem[p + 4 := ts + 1], h.cs - {p}, p, ts,
                                    if h.dv == p then 0 else h.dv, if h.dv == p then 0 else h.dvsize, h.binned)
  {
  }

  /** The head word of a chunk next to top, rewritten as the head of a larger top. */
  lemma GrownTopOK(m: Mem, top: int, topsize: int, p: int, s: int)
    requires TopOK(m, top, topsize) && p + s == top && 16 <= s && (topsize + s) % 8 == 0
    ensures TopOK(m[p + 4 := topsize + s + 1], p, topsize + s)
  {
    var m', ts := m[p + 4 := topsize + s + 1], topsize + s;
    assert Head(m', p) == ts + 1;
    assert Head(m', p + ts) == Head(m, top + topsize);
    hide Head;
  }

  lemma MergeTopTags(m: Mem, cs: Chunks, top: int, topsize: int, p: int)
    requires Wf(cs, HEAP_BASE, top) && p in cs && cs[p].live && cs[p].prevLive && End(cs, p) == top
    requires forall q | q in cs && q != p :: TagOK(m, cs, q)
    requires TopOK(m, top, topsize)
    ensures var ts := topsize + cs[p].size;
            var m', cs' := m[p + 4 := ts + 1], cs - {p};
            && Wf(cs', HEAP_BASE, p) && Tagged(m', cs') && TopOK(m', p, ts)
            && PayloadKept(m, m', Lives(cs')) && OnlyTags(m, m', {p}, {})
  {
    var ts := topsize + cs[p].size;
    var m', cs' := m[p + 4 := ts + 1], cs - {p};
    BelowTop(cs, HEAP_BASE, top, p);
    ReleaseToTopWf(cs, HEAP_BASE, top, p);
    MultiplesOfEight(topsize, cs[p].size);
    GrownTopOK(m, top, topsize, p, cs[p].size);
    OneHead(m, p, ts + 1, top + topsize + 4);
    OthersTagged(m, cs, p);
    hide TopOK, Wf, TagOK, OnlyTags;
    Retag(m, m', cs', p, {p}, {});
    RetagKeeps(m, m', cs', p, {p}, {});
  }

  lemma OthersTagged(m: Mem, cs: Chunks, p: int)
    requires forall q | q in cs && q != p :: TagOK(m, cs, q)
    ensures forall q | q in cs - {p} :: TagOK(m, cs - {p}, q)
  {
    forall q | q in cs - {p} ensures TagOK(m, cs - {p}, q) {
      assert TagOK(m, cs, q);
    }
  }

  lemma OneHead(m: Mem, p: int, v: int, a: int)
    requires a > p + 4
    ensures OnlyTags(m, m[p + 4 := v], {p}, {})
    ensures Rd(m[p + 4 := v], a) == Rd(m, a) && Head(m[p + 4 := v], p) == v
  {
  }

  lemma MergeTop(h: Heap, p: int)
    requires Mid(h, p) && End(h.cs, p) == h.top
    ensures HeapInv(MergedTop(h, p))
    ensures PayloadKept(h.mem, MergedTop(h, p).mem, Lives(MergedTop(h, p).cs))
    ensures Lives(MergedTop(h, p).cs) == Lives(h.cs) - {p}
    ensures TagsOnly(h.mem, MergedTop(h, p).mem, h.binned)
  {
    hide *;
    MidParts(h, p);
    var h' := MergedTop(h, p);
    MergedTopIs(h, p);
    MergeTopTags(h.mem, h.cs, h.top, h.topsize, p);
    MergeTopFiled(h, p);
    TagsOutside(h.mem, h'.mem, h'.cs, p, h.binned, {p}, {});
    MakeInv(h');
    LivesLess(h.cs, p);
  }

  lemma LivesLess(cs: Chunks, p: int)
    ensures Lives(cs - {p}) == Lives(cs) - {p}
  {
  }

  lemma MergeTopFiled(h: Heap, p: int)
    requires Mid(h, p)
    ensures var h' := MergedTop(h, p);
            && FreeFiled(h'.cs, h'.dv, h'.dvsize, h'.binned)
            && (forall x | x in h.binned :: x in h'.cs && h'.cs[x].size == h.binned[x])
  {
    NullNotBinned(h);
    hide Wf, TagOK, TopOK;
    assert h.dv == p ==> forall x | x in h.cs && !h.cs[x].live :: x in h.binned;
  }

  /** What set_size_and_pinuse_of_free_chunk leaves when p has grown over the free chunk behind it. */
  function JoinedFree(cs: Chunks, p: int): Chunks
    requires p in cs && End(cs, p) in cs
  {
    Release(JoinNext(cs, p), p)
  }

  lemma JoinedFreeFacts(cs: Chunks, top: int, p: int)
    requires Wf(cs, HEAP_BASE, top) && p in cs && cs[p].live && cs[p].prevLive
    requires End(cs, p) in cs && !cs[End(cs, p)].live
    ensures var n := End(cs, p);
            var s := cs[p].size + cs[n].size;
            var cs' := JoinedFree(cs, p);
            && Wf(cs', HEAP_BASE, top)
            && Lives(cs') == Lives(cs) - {p}
            && p in cs' && cs'[p] == Chunk(s, false, true) && n !in cs'
            && cs'.Keys == cs.Keys - {n}
            && (forall q | q in cs' && q != p :: cs'[q] == cs[q] && End(cs', q) != p + s)
  {
    var n := End(cs, p);
    var n2 := End(cs, n);
    var cs1 := JoinNext(cs, p);
    BelowTop(cs, HEAP_BASE, top, p);
    BelowTop(cs, HEAP_BASE, top, n);
    assert ChunkOK(cs, HEAP_BASE, top, n);
    JoinNextWf(cs, HEAP_BASE, top, p);
    LivesJoinNext(cs, HEAP_BASE, top, p);
    LivesRelease(cs1, p);
    assert n2 in cs && n2 != n && n2 != p && cs[n2].live && !cs[n2].prevLive;
    assert End(cs1, p) == n2 && cs1[n2] == Chunk(cs[n2].size, true, true);
    ReleaseWf(cs1, HEAP_BASE, top, p);
    var cs' := JoinedFree(cs, p);
    forall q | q in cs' && q != p ensures cs'[q] == cs[q] && End(cs', q) != n2 {
      EndsDiffer(cs, HEAP_BASE, top, n, q);
    }
  }

  lemma JoinedTags(m: Mem, cs: Chunks, top: int, topsize: int, p: int)
    requires Wf(cs, HEAP_BASE, top) && p in cs && cs[p].live && cs[p].prevLive
    requires End(cs, p) in cs && !cs[End(cs, p)].live
    requires forall q | q in cs && q != p :: TagOK(m, cs, q)
    requires TopOK(m, top, topsize)
    ensures var s := cs[p].size + cs[End(cs, p)].size;
            var m' := SetFree(m, p, s);
            && Tagged(m', JoinedFree(cs, p)) && TopOK(m', top, topsize)
            && PayloadKept(m, m', Lives(JoinedFree(cs, p)))
            && OnlyTags(m, m', {p}, {p + s})
  {
    hide *;
    var n := End(cs, p);
    var s := cs[p].size + cs[n].size;
    var cs' := JoinedFree(cs, p);
    var m' := SetFree(m, p, s);
    JoinedFreeFacts(cs, top, p);
    BelowTop(cs', HEAP_BASE, top, p);
    EndIs(cs', p);
    SetFreeWords(m, p, s);
    forall q | q in cs' && q != p ensures TagOK(m, cs', q) {
      SameTag(m, cs, cs', q);
    }
    MakeTag(m', cs', p);
    TopAboveBase(cs, top);
    TopKept(m, m', top, topsize, {p}, {p + s});
    Retag(m, m', cs', top, {p}, {p + s});
    RetagKeeps(m, m', cs', top, {p}, {p + s});
  }

  lemma EndIs(cs: Chunks, p: int)
    requires p in cs
    ensures End(cs, p) == p + cs[p].size
  {
  }

  lemma SameTag(m: Mem, cs: Chunks, cs': Chunks, q: int)
    requires q in cs && q in cs' && cs'[q] == cs[q] && TagOK(m, cs, q)
    ensures TagOK(m, cs', q)
  {
  }

  lemma SetFreeWords(m: Mem, p: int, s: int)
    requires 16 <= s
    ensures var m' := SetFree(m, p, s);
            && Head(m', p) == HeadWord(s, false, true) && PrevFoot(m', p + s) == s
            && OnlyTags(m, m', {p}, {p + s})
  {
  }

  /** The chunk behind p is dv: dv now starts at p. */
  function GrownBackDv(h: Heap, p: int): Heap
    requires p in h.cs && End(h.cs, p) in h.cs
  {
    var s := h.dvsize + h.cs[p].size;
    h.(mem := SetFree(h.mem, p, s), dv := p, dvsize := s, cs := JoinedFree(h.cs, p))
  }

  lemma DvTakesFront(h: Heap, p: int)
    requires Mid(h, p) && End(h.cs, p) in h.cs && End(h.cs, p) == h.dv && !h.cs[h.dv].live
    ensures HeapInv(GrownBackDv(h, p))
    ensures PayloadKept(h.mem, GrownBackDv(h, p).mem, Lives(GrownBackDv(h, p).cs))
    ensures Lives(GrownBackDv(h, p).cs) == Lives(h.cs) - {p}
    ensures TagsOnly(h.mem, GrownBackDv(h, p).mem, h.binned)
  {
    hide *;
    MidParts(h, p);
    var h' := GrownBackDv(h, p);
    GrownBackDvIs(h, p);
    DvFrontFiled(h, p);
    JoinedFreeFacts(h.cs, h.top, p);
    JoinedTags(h.mem, h.cs, h.top, h.topsize, p);
    JoinedOutside(h.mem, h'.mem, h'.cs, h.top, h.binned, p, h'.dvsize);
    MakeInv(h');
  }

  lemma GrownBackDvIs(h: Heap, p: int)
    requires p in h.cs && End(h.cs, p) in h.cs
    ensures var s := h.dvsize + h.cs[p].size;
            GrownBackDv(h, p) == Heap(SetFree(h.mem, p, s), JoinedFree(h.cs, p), h.top, h.topsize, p, s, h.binned)
  {
  }

  lemma DvFrontFiled(h: Heap, p: int)
    requires Mid(h, p) && End(h.cs, p) in h.cs && End(h.cs, p) == h.dv && !h.cs[h.dv].live
    ensures h.dvsize == h.cs[h.dv].size
    ensures var h' := GrownBackDv(h, p);
            && FreeFiled(h'.cs, p, h'.dvsize, h.binned) && p !in h.binned
            && (forall x | x in h.binned :: x in h'.cs && h'.cs[x].size == h.binned[x])
  {
    BelowTop(h.cs, HEAP_BASE, h.top, p);
    NullNotBinned(h);
    JoinedFreeFacts(h.cs, h.top, p);
    hide Wf, TagOK, TopOK, JoinedFree;
  }

  /** The stores that set p free together with the free chunk behind it miss the bins. */
  lemma JoinedOutside(m: Mem, m': Mem, cs': Chunks, top: int, binned: Sizes, p: int, s: int)
    requires Wf(cs', HEAP_BASE, top) && OnlyTags(m, m', {p}, {p + s})
    requires forall x | x in binned :: x in cs' && cs'[x].size == binned[x]
    requires p in cs' && p !in binned && cs'[p].size == s
    ensures TagsOnly(m, m', binned)
  {
    assert End(cs', p) == p + s;
    TagsOutside(m, m', cs', top, binned, {p}, {p + s});
  }

  /** The chunk behind p is free and binned: after unlinking it, p takes it in. */
  function TakenNext(h: Heap, m1: Mem, p: int): Heap
    requires p in h.cs && End(h.cs, p) in h.cs
  {
    var n := End(h.cs, p);
    var s := h.cs[p].size + h.cs[n].size;
    Heap(SetFree(m1, p, s), JoinedFree(h.cs, p), h.top, h.topsize, h.dv, if h.dv == p then s else h.dvsize,
         h.binned - {n})
  }

  lemma TakenNextIs(h: Heap, m1: Mem, p: int)
    requires p in h.cs && End(h.cs, p) in h.cs
    ensures var s := h.cs[p].size + h.cs[End(h.cs, p)].size;
            TakenNext(h, m1, p) == Heap(SetFree(m1, p, s), JoinedFree(h.cs, p), h.top, h.topsize, h.dv,
                                        if h.dv == p then s else h.dvsize, h.binned - {End(h.cs, p)})
  {
  }

  lemma NextBinned(h: Heap, p: int)
    requires Mid(h, p) && End(h.cs, p) in h.cs && !h.cs[End(h.cs, p)].live && End(h.cs, p) != h.dv
    ensures var n := End(h.cs, p); n in h.binned && h.binned[n] == h.cs[n].size
  {
    NullNotBinned(h);
  }

  lemma TakeNext(h: Heap, m1: Mem, p: int)
    requires Mid(h, p) && End(h.cs, p) in h.cs && !h.cs[End(h.cs, p)].live && End(h.cs, p) != h.dv
    requires BinsFrame(h.mem, m1, h.binned)
    ensures var h' := TakenNext(h, m1, p);
            && (if h.dv == p then HeapInv(h') else Loose(h', p))
            && PayloadKept(h.mem, h'.mem, Lives(h'.cs))
            && Lives(h'.cs) == Lives(h.cs) - {p}
            && TagsOnly(m1, h'.mem, h'.binned)
  {
    hide *;
    MidParts(h, p);
    var h' := TakenNext(h, m1, p);
    var n := End(h.cs, p);
    TakenNextIs(h, m1, p);
    FrameKeeps(h.mem, m1, h.cs, h.top, h.topsize, h.binned);
    JoinedFreeFacts(h.cs, h.top, p);
    JoinedTags(m1, h.cs, h.top, h.topsize, p);
    KeptTransitive(h.mem, m1, h'.mem, Lives(h'.cs), Lives(h.cs));
    TakeNextFiled(h, p);
    JoinedOutside(m1, h'.mem, h'.cs, h.top, h'.binned, p, h.cs[p].size + h.cs[n].size);
    if h.dv == p { MakeInv(h'); } else { MakeLoose(h', p); }
  }

  lemma MidParts(h: Heap, p: int)
    requires Mid(h, p)
    ensures Wf(h.cs, HEAP_BASE, h.top) && TopOK(h.mem, h.top, h.topsize)
    ensures p in h.cs && h.cs[p].live && h.cs[p].prevLive
    ensures forall q | q in h.cs && q != p :: TagOK(h.mem, h.cs, q)
    ensures forall x | x in h.binned :: x in h.cs && !h.cs[x].live && h.cs[x].size == h.binned[x]
  {
  }

  lemma MakeInv(h: Heap)
    requires Wf(h.cs, HEAP_BASE, h.top) && Tagged(h.mem, h.cs) && TopOK(h.mem, h.top, h.topsize)
    requires FreeFiled(h.cs, h.dv, h.dvsize, h.binned)
    ensures HeapInv(h)
  {
  }

  lemma MakeLoose(h: Heap, p: int)
    requires Wf(h.cs, HEAP_BASE, h.top) && Tagged(h.mem, h.cs) && TopOK(h.mem, h.top, h.topsize)
    requires p in h.cs && !h.cs[p].live && p !in h.binned && p != h.dv
    requires FreeFiled(h.cs, h.dv, h.dvsize, h.binned[p := h.cs[p].size])
    ensures Loose(h, p)
  {
  }

  lemma TakeNextFiled(h: Heap, p: int)
    requires Mid(h, p) && End(h.cs, p) in h.cs && !h.cs[End(h.cs, p)].live && End(h.cs, p) != h.dv
    ensures var n := End(h.cs, p);
            var s := h.cs[p].size + h.cs[n].size;
            var cs', b := JoinedFree(h.cs, p), h.binned - {n};
            && (if h.dv == p then FreeFiled(cs', p, s, b)
                else FreeFiled(cs', h.dv, h.dvsize, b[p := s]) && p != h.dv)
            && p !in b && n != p && (forall x | x in b :: x in cs' && cs'[x].size == b[x])
  {
    var n := End(h.cs, p);
    BelowTop(h.cs, HEAP_BASE, h.top, p);
    BelowTop(h.cs, HEAP_BASE, h.top, n);
    NullNotBinned(h);
    JoinedFreeFacts(h.cs, h.top, p);
    hide Wf, JoinedFree, TagOK, TopOK;
  }

  /** The chunk behind p is in use: p is set free on its own. */
  function FreedAlone(h: Heap, p: int): Heap
    requires p in h.cs
  {
    h.(mem := SetFreeWithPinuse(h.mem, p, h.cs[p].size, End(h.cs, p)), cs := Release(h.cs, p))
  }

  lemma FreeAlone(h: Heap, p: int)
    requires Mid(h, p) && End(h.cs, p) in h.cs && h.cs[End(h.cs, p)].live
    ensures Loose(FreedAlone(h, p), p)
    ensures PayloadKept(h.mem, FreedAlone(h, p).mem, Lives(FreedAlone(h, p).cs))
    ensures Lives(FreedAlone(h, p).cs) == Lives(h.cs) - {p}
    ensures TagsOnly(h.mem, FreedAlone(h, p).mem, h.binned)
    ensures p in FreedAlone(h, p).cs && FreedAlone(h, p).cs[p].size == h.cs[p].size
  {
    BelowTop(h.cs, HEAP_BASE, h.top, p);
    hide Wf, TagOK, TopOK, SetFreeWithPinuse, PayloadKept, Tagged, OnlyTags, TagsOnly, FreeFiled;
    ReleaseWf(h.cs, HEAP_BASE, h.top, p);
    LivesRelease(h.cs, p);
    ReleaseTags(h.mem, h.cs, h.top, h.topsize, p);
    FreeAloneFiled(h, p);
    FreedOutside(h.mem, FreedAlone(h, p).mem, Release(h.cs, p), h.top, h.binned, p, End(h.cs, p));
  }

  lemma FreeAloneFiled(h: Heap, p: int)
    requires Mid(h, p) && End(h.cs, p) in h.cs && h.cs[End(h.cs, p)].live
    ensures var cs' := Release(h.cs, p);
            && FreeFiled(cs', h.dv, h.dvsize, h.binned[p := cs'[p].size]) && p !in h.binned && p != h.dv
            && (forall x | x in h.binned :: x in cs' && !cs'[x].live && cs'[x].size == h.binned[x])
            && End(cs', p) == End(h.cs, p) && cs'[End(h.cs, p)].live && !cs'[p].live
  {
    BelowTop(h.cs, HEAP_BASE, h.top, p);
    NotTop(h, End(h.cs, p));
    NullNotBinned(h);
    hide Wf, TagOK, TopOK;
  }

  /** Filing the loose chunk in its bin completes the invariant. */
  lemma FileLoose(h: Heap, m2: Mem, p: int)
    requires Loose(h, p) && BinsFrame(h.mem, m2, h.binned[p := h.cs[p].size])
    ensures HeapInv(h.(mem := m2, binned := h.binned[p := h.cs[p].size]))
    ensures PayloadKept(h.mem, m2, Lives(h.cs))
  {
    FrameKeeps(h.mem, m2, h.cs, h.top, h.topsize, h.binned[p := h.cs[p].size]);
  }

  lemma LooseBlock(h: Heap, p: int)
    requires Loose(h, p)
    ensures Blocks(h.binned[p := h.cs[p].size]) && SizeOf(Head(h.mem, p)) == h.cs[p].size && 16 <= h.cs[p].size
  {
    TopBelowLimit(h);
    BlocksFromTiling(h.cs, h.top, h.binned[p := h.cs[p].size]);
    BelowTop(h.cs, HEAP_BASE, h.top, p);
    assert TagOK(h.mem, h.cs, p);
    HeadWordFields(h.cs[p].size, h.cs[p].live, h.cs[p].prevLive);
  }

  lemma TopBelowLimit(h: Heap)
    requires TopOK(h.mem, h.top, h.topsize)
    ensures h.top <= HEAP_LIMIT
  {
  }

  // ----------------------------------------------------- what the tag words tell free

  /** What lies behind p, as its head word tells. */
  lemma BehindTells(h: Heap, p: int)
    requires Wf(h.cs, HEAP_BASE, h.top) && p in h.cs && TopOK(h.mem, h.top, h.topsize)
    requires forall q | q in h.cs && q != p :: TagOK(h.mem, h.cs, q)
    requires h.dvsize != 0 ==> h.dv in h.cs && (!h.cs[h.dv].live || h.dv == p)
    requires h.dvsize == 0 ==> h.dv == 0 || h.dv == p
    ensures var n := p + h.cs[p].size;
            if Cinuse(Head(h.mem, n)) then n in h.cs && h.cs[n].live && n != h.top && n != h.dv
            else NextNotLive(h.cs, h.top, p)
    ensures var n := p + h.cs[p].size;
            n in h.cs ==>
              n != h.top && SizeOf(Head(h.mem, n)) == h.cs[n].size &&
              (Pinuse(Head(h.mem, n)) <==> h.cs[p].live)
  {
    var n := End(h.cs, p);
    assert ChunkOK(h.cs, HEAP_BASE, h.top, p);
    BelowTop(h.cs, HEAP_BASE, h.top, p);
    if n in h.cs {
      BelowTop(h.cs, HEAP_BASE, h.top, n);
      HeadTells(h.mem, h.cs, n);
    } else {
      TopTells(h.mem, h.top, h.topsize);
    }
  }

  /** What dispose_chunk reads around a chunk p in use with q before and n behind it. */
  lemma DisposeTells(h: Heap, p: int, q: int, n: int)
    requires HeapInv(h) && p in h.cs && h.cs[p].live && n == p + h.cs[p].size && q == p - PrevFoot(h.mem, p)
    ensures Pinuse(Head(h.mem, p)) ==> Mid(h, p)
    ensures !Pinuse(Head(h.mem, p)) ==>
              && q in h.cs && !h.cs[q].live && End(h.cs, q) == p && End(h.cs, p) == n
              && h.cs[q].size == PrevFoot(h.mem, p)
              && (if Cinuse(Head(h.mem, n)) && Pinuse(Head(h.mem, n)) then n in h.cs && h.cs[n].live
                  else NextNotLive(h.cs, h.top, p))
              && q in JoinPrev(h.cs, q) && JoinPrev(h.cs, q)[q].size == h.cs[q].size + h.cs[p].size
              && Lives(JoinPrev(h.cs, q)) - {q} == Lives(h.cs) - {p}
  {
    BelowTop(h.cs, HEAP_BASE, h.top, p);
    HeadTells(h.mem, h.cs, p);
    NullNotBinned(h);
    BehindTells(h, p);
    if !h.cs[p].prevLive {
      BackFacts(h, p);
      LivesJoinPrev(h.cs, HEAP_BASE, h.top, q);
    }
    hide Wf, Tagged, TopOK;
  }

  /** What the second half of dispose_chunk reads behind p. */
  lemma ForwardTells(h: Heap, p: int, n: int)
    requires Mid(h, p) && n == p + h.cs[p].size
    ensures n == End(h.cs, p)
    ensures Cinuse(Head(h.mem, n)) ==> n in h.cs && h.cs[n].live && Release(h.cs, p)[p].size == h.cs[p].size
    ensures !Cinuse(Head(h.mem, n)) && n != h.top ==>
              && n in h.cs && !h.cs[n].live && SizeOf(Head(h.mem, n)) == h.cs[n].size
              && (n != h.dv ==> n in h.binned && h.binned[n] == h.cs[n].size)
              && p in JoinedFree(h.cs, p) && JoinedFree(h.cs, p)[p].size == h.cs[p].size + h.cs[n].size
  {
    NullNotBinned(h);
    BehindTells(h, p);
    if n in h.cs && !h.cs[n].live {
      JoinedFreeFacts(h.cs, h.top, p);
      if n != h.dv { NextBinned(h, p); }
    }
    hide Wf, TopOK, JoinedFree;
  }

  /** dv is null exactly when its size is zero. */
  lemma DvFacts(h: Heap)
    requires HeapInv(h)
    ensures 0 <= h.dvsize && (h.dvsize == 0 <==> h.dv == 0) &&
              (h.dvsize != 0 ==> h.dv in h.cs && h.cs[h.dv].size == h.dvsize && !h.cs[h.dv].live)
  {
    if h.dvsize != 0 { BelowTop(h.cs, HEAP_BASE, h.top, h.dv); }
  }

  lemma MidDvFacts(h: Heap, p: int, n: int)
    requires Mid(h, p) && n == p + h.cs[p].size
    ensures 0 < p && 0 < h.cs[p].size && (n in h.cs ==> 0 < h.cs[n].size) && h.top !in h.cs
    ensures h.dv != p ==> 0 <= h.dvsize && (h.dvsize == 0 <==> h.dv == 0)
    ensures h.dv == p && n != h.top ==> n in h.cs && !h.cs[n].live
  {
    BelowTop(h.cs, HEAP_BASE, h.top, p);
    TopNotChunk(h.cs, HEAP_BASE, h.top);
    if n in h.cs { BelowTop(h.cs, HEAP_BASE, h.top, n); }
    if h.dv != p && h.dvsize != 0 { BelowTop(h.cs, HEAP_BASE, h.top, h.dv); }
  }

  lemma NotTop(h: Heap, n: int)
    requires n in h.cs && Wf(h.cs, HEAP_BASE, h.top)
    ensures n != h.top
  {
    BelowTop(h.cs, HEAP_BASE, h.top, n);
  }
}
