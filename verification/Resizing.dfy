/** Changing the size of a chunk in use: cutting it, growing it over free space, and joining two
    chunks in use. */
module Resizing {
  import opened Words
  import opened Bins
  import opened Tiling
  import opened HeapState
  import opened Coalesce
  import opened Carving
  import opened Bytes

  // ------------------------------------------------------------------ cut in two in use

  /** What two set_inuse stores leave when they cut chunk p of size s at nb, in either order. */
  ghost predicate CutWords(m: Mem, m': Mem, p: int, nb: int, s: int, prevLive: bool) {
    && OnlyTags(m, m', {p, p + nb}, {})
    && Head(m', p) == HeadWord(nb, true, prevLive)
    && Head(m', p + nb) == HeadWord(s - nb, true, true)
  }

  lemma CutFacts(cs: Chunks, top: int, p: int, nb: int)
    requires Wf(cs, HEAP_BASE, top) && p in cs && cs[p].live
    requires 16 <= nb && nb % 8 == 0 && 16 <= cs[p].size - nb
    ensures var r, cs' := p + nb, Split(cs, p, nb);
            && Wf(cs', HEAP_BASE, top) && r !in cs && r < top && p < top && p % 8 == 0 && r % 8 == 0 && p != r
            && cs'.Keys == cs.Keys + {r}
            && cs'[p] == Chunk(nb, true, cs[p].prevLive) && cs'[r] == Chunk(cs[p].size - nb, true, true)
            && (forall q | q in cs && q != p :: cs'[q] == cs[q])
            && Lives(cs') == Lives(cs)[p := nb][r := cs[p].size - nb]
            && Lives(cs') - {r} == Lives(cs)[p := nb]
  {
    SplitWf(cs, HEAP_BASE, top, p, nb);
    BelowTop(cs, HEAP_BASE, top, p);
    hide Wf;
    var r, cs' := p + nb, Split(cs, p, nb);
    assert Lives(cs') == Lives(cs)[p := nb][r := cs[p].size - nb];
    hide Split;
    assert r !in Lives(cs)[p := nb];
  }

  lemma CutLive(h: Heap, m': Mem, p: int, nb: int)
    requires HeapInv(h) && p in h.cs && h.cs[p].live
    requires 16 <= nb && nb % 8 == 0 && 16 <= h.cs[p].size - nb
    requires CutWords(h.mem, m', p, nb, h.cs[p].size, h.cs[p].prevLive)
    ensures var h' := h.(mem := m', cs := Split(h.cs, p, nb));
            && HeapInv(h') && p + nb in h'.cs && h'.cs[p + nb] == Chunk(h.cs[p].size - nb, true, true)
            && p in h'.cs && h'.cs[p] == Chunk(nb, true, h.cs[p].prevLive)
            && Lives(h'.cs) - {p + nb} == Lives(h.cs)[p := nb]
            && p + nb !in Lives(h.cs)
    ensures TagsOnly(h.mem, m', h.binned)
    ensures PayloadKept(h.mem, m', Lives(h.cs) - {p}) && SameWords(h.mem, m', p + 8, p + nb + 4)
  {
    hide *;
    InvParts(h);
    var r, cs' := p + nb, Split(h.cs, p, nb);
    CutFacts(h.cs, h.top, p, nb);
    EachTagged(h.mem, h.cs);
    CutParts(h.mem, m', p, nb, h.cs[p].size, h.cs[p].prevLive);
    MakeTag(m', cs', p);
    MakeTag(m', cs', r);
    SameTags(h.mem, h.cs, cs', {p, r});
    Retag(h.mem, m', cs', h.top, {p, r}, {});
    TopKept(h.mem, m', h.top, h.topsize, {p, r}, {});
    CutFiled(h, p, r, cs');
    CutOutside(h, m', p, nb);
    CutKeeps(h, m', p, nb);
    CutSame(h.mem, m', p, nb);
    NotLive(h.cs, r);
    MakeInv(h.(mem := m', cs := cs'));
  }

  lemma NotLive(cs: Chunks, r: int)
    requires r !in cs
    ensures r !in Lives(cs)
  {
  }

  lemma CutParts(m: Mem, m': Mem, p: int, nb: int, s: int, prevLive: bool)
    requires CutWords(m, m', p, nb, s, prevLive)
    ensures OnlyTags(m, m', {p, p + nb}, {})
    ensures Head(m', p) == HeadWord(nb, true, prevLive) && Head(m', p + nb) == HeadWord(s - nb, true, true)
  {
  }

  lemma CutFiled(h: Heap, p: int, r: int, cs': Chunks)
    requires FreeFiled(h.cs, h.dv, h.dvsize, h.binned) && p in h.cs && h.cs[p].live && r !in h.cs
    requires cs'.Keys == h.cs.Keys + {r} && cs'[p].live && cs'[r].live
    requires forall q | q in h.cs && q != p :: cs'[q] == h.cs[q]
    ensures FreeFiled(cs', h.dv, h.dvsize, h.binned)
  {
  }

  lemma CutOutside(h: Heap, m': Mem, p: int, nb: int)
    requires Wf(h.cs, HEAP_BASE, h.top) && p in h.cs && h.cs[p].live && 16 <= nb && 16 <= h.cs[p].size - nb
    requires forall x | x in h.binned :: x in h.cs && !h.cs[x].live && h.cs[x].size == h.binned[x]
    requires OnlyTags(h.mem, m', {p, p + nb}, {})
    ensures TagsOnly(h.mem, m', h.binned)
  {
    BelowTop(h.cs, HEAP_BASE, h.top, p);
    forall a ensures Rd(m', a) == Rd(h.mem, a) || OutsideBins(h.binned, a) {
      if a == p + 4 || a == p + nb + 4 {
        forall x | x in h.binned ensures !(x + 4 <= a < x + h.binned[x]) {
          EndsDiffer(h.cs, HEAP_BASE, h.top, p, x);
        }
      }
    }
  }

  lemma CutKeeps(h: Heap, m': Mem, p: int, nb: int)
    requires Wf(h.cs, HEAP_BASE, h.top) && p in h.cs && 16 <= nb && 16 <= h.cs[p].size - nb
    requires OnlyTags(h.mem, m', {p, p + nb}, {})
    ensures PayloadKept(h.mem, m', Lives(h.cs) - {p})
  {
    hide *;
    forall q | q in h.cs && q != p ensures SameWords(h.mem, m', q + 8, q + h.cs[q].size + 4) {
      EndsDiffer(h.cs, HEAP_BASE, h.top, p, q);
      CutMisses(h.cs, p, nb, q);
      CutClear(h.mem, m', p, p + nb, q + 8, q + h.cs[q].size + 4);
    }
    AllKept(h.mem, m', h.cs, p);
  }

  lemma AllKept(m: Mem, m': Mem, cs: Chunks, p: int)
    requires forall q | q in cs && q != p :: SameWords(m, m', q + 8, q + cs[q].size + 4)
    ensures PayloadKept(m, m', Lives(cs) - {p})
  {
    hide SameWords;
  }

  lemma CutMisses(cs: Chunks, p: int, nb: int, q: int)
    requires p in cs && q in cs && p != q && 16 <= nb && 16 <= cs[p].size - nb
    requires (p < q ==> End(cs, p) <= q) && (q < p ==> End(cs, q) <= p)
    ensures !(q + 8 <= p + 4 < q + cs[q].size + 4) && !(q + 8 <= p + nb + 4 < q + cs[q].size + 4)
  {
  }

  /** Words between whose bounds no tag was written. */
  lemma CutClear(m: Mem, m': Mem, p: int, r: int, lo: int, hi: int)
    requires OnlyTags(m, m', {p, r}, {}) && !(lo <= p + 4 < hi) && !(lo <= r + 4 < hi)
    ensures SameWords(m, m', lo, hi)
  {
  }

  lemma CutSame(m: Mem, m': Mem, p: int, nb: int)
    requires OnlyTags(m, m', {p, p + nb}, {}) && 16 <= nb
    ensures SameWords(m, m', p + 8, p + nb + 4)
  {
  }

  // ------------------------------------------------- grown over the free chunk behind it

  /** set_inuse over p and the loose free chunk n behind it. */
  function Grown(h: Heap, p: int): Heap
    requires p in h.cs && End(h.cs, p) in h.cs
  {
    h.(mem := SetInuse(h.mem, p, h.cs[p].size + h.cs[End(h.cs, p)].size), cs := JoinNext(h.cs, p))
  }

  lemma GrownIs(h: Heap, p: int)
    requires p in h.cs && End(h.cs, p) in h.cs
    ensures Grown(h, p) == h.(mem := SetInuse(h.mem, p, h.cs[p].size + h.cs[End(h.cs, p)].size),
              cs := JoinNext(h.cs, p))
  {
  }

  lemma GrownFacts(cs: Chunks, top: int, p: int)
    requires Wf(cs, HEAP_BASE, top) && p in cs && cs[p].live
    requires End(cs, p) in cs && !cs[End(cs, p)].live
    ensures var n := End(cs, p);
            var n2, s, cs' := End(cs, n), cs[p].size + cs[n].size, JoinNext(cs, p);
            && Wf(cs', HEAP_BASE, top)
            && n2 in cs && cs[n2].live && !cs[n2].prevLive && cs[n2].size % 8 == 0 && n2 == p + s && n2 < top && p < top
            && p % 8 == 0 && n2 % 8 == 0 && p != n2 && n2 != n && p != n && 32 <= s && s % 8 == 0 && n == p + cs[p].size
            && 16 <= cs[p].size && cs[p].size % 8 == 0
            && cs'.Keys == cs.Keys - {n}
            && cs'[p] == Chunk(s, true, cs[p].prevLive) && cs'[n2] == Chunk(cs[n2].size, true, true)
            && (forall q | q in cs' && q != p && q != n2 :: cs'[q] == cs[q])
            && Lives(cs') == Lives(cs)[p := s]
  {
    var n := End(cs, p);
    assert ChunkOK(cs, HEAP_BASE, top, p) && ChunkOK(cs, HEAP_BASE, top, n);
    BelowTop(cs, HEAP_BASE, top, p);
    BelowTop(cs, HEAP_BASE, top, n);
    var n2 := End(cs, n);
    BelowTop(cs, HEAP_BASE, top, n2);
    JoinNextWf(cs, HEAP_BASE, top, p);
    LivesJoinNext(cs, HEAP_BASE, top, p);
    hide Wf, ChunkOK;
    LivesGrown(cs, JoinNext(cs, p), p, cs[p].size + cs[n].size);
  }

  lemma LivesGrown(cs: Chunks, cs': Chunks, p: int, s: int)
    requires Lives(cs') - {p} == Lives(cs) - {p} && p in cs' && cs'[p].live && cs'[p].size == s
    ensures Lives(cs') == Lives(cs)[p := s]
  {
    forall q ensures (q in Lives(cs') <==> q in Lives(cs)[p := s]) &&
      (q in Lives(cs') ==> Lives(cs')[q] == Lives(cs)[p := s][q]) {
      if q != p {
        assert q in Lives(cs') - {p} <==> q in Lives(cs) - {p};
        assert q in Lives(cs') ==> (Lives(cs') - {p})[q] == (Lives(cs) - {p})[q];
      }
    }
  }

  lemma GrownWords(m: Mem, p: int, s: int, prevLive: bool, was: int, c: Chunk)
    requires 16 <= s && s % 8 == 0 && was % 8 == 0 && c.live && !c.prevLive && c.size % 8 == 0
    requires Head(m, p) == HeadWord(was, true, prevLive) && Head(m, p + s) == HeadWord(c.size, c.live, c.prevLive)
    ensures var m' := SetInuse(m, p, s);
            && Head(m', p) == HeadWord(s, true, prevLive) && Head(m', p + s) == HeadWord(c.size, true, true)
            && OnlyTags(m, m', {p, p + s}, {})
  {
    HeadWordFields(was, true, prevLive);
    HeadWordFields(c.size, c.live, c.prevLive);
  }

  lemma GrowLoose(h: Heap, p: int)
    requires p in h.cs && h.cs[p].live && End(h.cs, p) in h.cs && Loose(h, End(h.cs, p))
    ensures var h' := Grown(h, p);
            var s := h.cs[p].size + h.cs[End(h.cs, p)].size;
            && HeapInv(h') && p in h'.cs && h'.cs[p] == Chunk(s, true, h.cs[p].prevLive)
            && Lives(h'.cs) == Lives(h.cs)[p := s]
            && PayloadKept(h.mem, h'.mem, Lives(h.cs)) && TagsOnly(h.mem, h'.mem, h.binned)
  {
    hide *;
    var n := End(h.cs, p);
    LooseParts(h, n);
    GrownIs(h, p);
    GrownFacts(h.cs, h.top, p);
    var n2 := End(h.cs, n);
    var s, cs' := h.cs[p].size + h.cs[n].size, JoinNext(h.cs, p);
    var m' := SetInuse(h.mem, p, s);
    EachTagged(h.mem, h.cs);
    TagParts(h.mem, h.cs, p);
    TagParts(h.mem, h.cs, n2);
    GrownWords(h.mem, p, s, h.cs[p].prevLive, h.cs[p].size, h.cs[n2]);
    MakeTag(m', cs', p);
    MakeTag(m', cs', n2);
    SameTags(h.mem, h.cs, cs', {p, n2});
    Retag(h.mem, m', cs', h.top, {p, n2}, {});
    RetagKeeps(h.mem, m', h.cs, h.top, {p, n2}, {});
    TopKept(h.mem, m', h.top, h.topsize, {p, n2}, {});
    LiveNotBinned(h, p, n2);
    TagsOutside(h.mem, m', h.cs, h.top, h.binned, {p, n2}, {});
    GrownFiled(h, p, n, n2, cs');
    MakeInv(Grown(h, p));
  }

  lemma LiveNotBinned(h: Heap, p: int, n2: int)
    requires p in h.cs && h.cs[p].live && n2 in h.cs && h.cs[n2].live
    requires forall x | x in h.binned :: x in h.cs && !h.cs[x].live && h.cs[x].size == h.binned[x]
    ensures p !in h.binned && n2 !in h.binned
  {
  }

  lemma GrownFiled(h: Heap, p: int, n: int, n2: int, cs': Chunks)
    requires n in h.cs && p in h.cs && h.cs[p].live && n2 in h.cs && h.cs[n2].live && n !in h.binned && n != h.dv
    requires FreeFiled(h.cs, h.dv, h.dvsize, h.binned[n := h.cs[n].size])
    requires cs'.Keys == h.cs.Keys - {n} && p in cs' && cs'[p].live && n2 in cs' && cs'[n2].live
    requires forall q | q in cs' && q != p && q != n2 :: cs'[q] == h.cs[q]
    ensures FreeFiled(cs', h.dv, h.dvsize, h.binned)
  {
    var b := h.binned[n := h.cs[n].size];
    assert forall x | x in h.binned :: x in b && b[x] == h.binned[x];
    forall x | x in cs' && !cs'[x].live ensures x in h.binned || x == h.dv {
      assert x in b || x == h.dv;
    }
  }

  // ------------------------------------------------------------- grown into top

  /** Part of top given to the chunk p before it: p gets size nb, the rest stays top. */
  function GrownTop(h: Heap, m': Mem, p: int, nb: int): Heap
    requires p in h.cs
  {
    Heap(m', h.cs[p := h.cs[p].(size := nb)], p + nb, h.cs[p].size + h.topsize - nb, h.dv, h.dvsize, h.binned)
  }

  lemma GrownTopChunk(cs: Chunks, top: int, p: int, nb: int, q: int)
    requires Wf(cs, HEAP_BASE, top) && p in cs && cs[p].live && End(cs, p) == top
    requires cs[p].size <= nb && nb % 8 == 0 && q in cs
    ensures ChunkOK(cs[p := cs[p].(size := nb)], HEAP_BASE, p + nb, q)
  {
    assert ChunkOK(cs, HEAP_BASE, top, p) && ChunkOK(cs, HEAP_BASE, top, q);
    EndsDiffer(cs, HEAP_BASE, top, p, q);
    hide Wf;
  }

  lemma GrownTopWf(cs: Chunks, top: int, p: int, nb: int)
    requires Wf(cs, HEAP_BASE, top) && p in cs && cs[p].live && End(cs, p) == top
    requires cs[p].size <= nb && nb % 8 == 0
    ensures var cs' := cs[p := cs[p].(size := nb)];
            Wf(cs', HEAP_BASE, p + nb) && Lives(cs') == Lives(cs)[p := nb]
  {
    var cs' := cs[p := cs[p].(size := nb)];
    BelowTop(cs, HEAP_BASE, top, p);
    MultiplesOfEight(p, nb);
    forall x, y | x in cs' && y in cs' && x < y ensures End(cs', x) <= y {
      EndsDiffer(cs, HEAP_BASE, top, x, y);
      BelowTop(cs, HEAP_BASE, top, y);
    }
    hide ChunkOK, NoOverlap;
    forall q | q in cs' ensures ChunkOK(cs', HEAP_BASE, p + nb, q) {
      GrownTopChunk(cs, top, p, nb, q);
    }
  }

  /** The stores: the head of p, and the head of the new top. */
  ghost predicate TopCutWords(m: Mem, m': Mem, p: int, nb: int, ts: int, prevLive: bool) {
    && OnlyTags(m, m', {p, p + nb}, {})
    && Head(m', p) == HeadWord(nb, true, prevLive) && Head(m', p + nb) == ts + 1
  }

  lemma GrowIntoTop(h: Heap, m': Mem, p: int, nb: int)
    requires HeapInv(h) && p in h.cs && h.cs[p].live && End(h.cs, p) == h.top
    requires h.cs[p].size <= nb < h.cs[p].size + h.topsize && nb % 8 == 0
    requires TopCutWords(h.mem, m', p, nb, h.cs[p].size + h.topsize - nb, h.cs[p].prevLive)
    ensures var h' := GrownTop(h, m', p, nb);
            && HeapInv(h') && Lives(h'.cs) == Lives(h.cs)[p := nb]
            && h'.top + h'.topsize == h.top + h.topsize
    ensures TagsOnly(h.mem, m', h.binned) && PayloadKept(h.mem, m', Lives(h.cs))
  {
    hide *;
    InvParts(h);
    var h' := GrownTop(h, m', p, nb);
    GrownTopIs(h, m', p, nb);
    GrownTopSizes(h, p, nb);
    GrownTopWf(h.cs, h.top, p, nb);
    TopCutParts(h.mem, m', p, nb, h'.topsize, h.cs[p].prevLive);
    TopParts(h.mem, h.top, h.topsize);
    FarHead(h.mem, m', p, nb, h.top + h.topsize);
    MakeTop(m', p + nb, h'.topsize);
    EachTagged(h.mem, h.cs);
    GrownTopKeeps(h.cs, p, nb);
    MakeTag(m', h'.cs, p);
    SameTags(h.mem, h.cs, h'.cs, {p});
    Retag(h.mem, m', h'.cs, p + nb, {p, p + nb}, {});
    RetagKeeps(h.mem, m', h.cs, h.top, {p, p + nb}, {});
    LiveNotBinned(h, p, p);
    TagsOutside(h.mem, m', h.cs, h.top, h.binned, {p, p + nb}, {});
    GrownTopFiled(h, p, h'.cs);
    MakeInv(h');
  }

  lemma GrownTopIs(h: Heap, m': Mem, p: int, nb: int)
    requires p in h.cs
    ensures GrownTop(h, m', p, nb) ==
            Heap(m', h.cs[p := h.cs[p].(size := nb)], p + nb, h.cs[p].size + h.topsize - nb, h.dv, h.dvsize, h.binned)
  {
  }

  lemma GrownTopSizes(h: Heap, p: int, nb: int)
    requires Wf(h.cs, HEAP_BASE, h.top) && p in h.cs && End(h.cs, p) == h.top && TopOK(h.mem, h.top, h.topsize)
    requires h.cs[p].size <= nb < h.cs[p].size + h.topsize && nb % 8 == 0
    ensures (h.cs[p].size + h.topsize - nb) % 8 == 0 && p + h.cs[p].size == h.top && 16 <= nb
    ensures p % 8 == 0 && (p + nb) % 8 == 0 && p + nb !in h.cs && p + nb >= h.top
  {
    BelowTop(h.cs, HEAP_BASE, h.top, p);
    if p + nb in h.cs { BelowTop(h.cs, HEAP_BASE, h.top, p + nb); }
    hide Wf;
    MultiplesOfEight(p, nb);
  }

  lemma TopCutParts(m: Mem, m': Mem, p: int, nb: int, ts: int, prevLive: bool)
    requires TopCutWords(m, m', p, nb, ts, prevLive)
    ensures OnlyTags(m, m', {p, p + nb}, {})
    ensures Head(m', p) == HeadWord(nb, true, prevLive) && Head(m', p + nb) == ts + 1
  {
  }

  lemma FarHead(m: Mem, m': Mem, p: int, nb: int, a: int)
    requires OnlyTags(m, m', {p, p + nb}, {}) && a > p + nb && 0 <= nb
    ensures Head(m', a) == Head(m, a)
  {
  }

  lemma GrownTopKeeps(cs: Chunks, p: int, nb: int)
    requires p in cs
    ensures var cs' := cs[p := cs[p].(size := nb)];
            cs'[p] == Chunk(nb, cs[p].live, cs[p].prevLive) && forall q | q in cs' && q != p ::
              q in cs && cs'[q] == cs[q]
  {
  }

  lemma GrownTopFiled(h: Heap, p: int, cs': Chunks)
    requires FreeFiled(h.cs, h.dv, h.dvsize, h.binned) && p in h.cs && h.cs[p].live
    requires cs'.Keys == h.cs.Keys && cs'[p].live && forall q | q in cs' && q != p :: cs'[q] == h.cs[q]
    ensures FreeFiled(cs', h.dv, h.dvsize, h.binned)
  {
  }

  // ------------------------------------------------- joined with the chunk in use behind it

  lemma JoinLiveFacts(cs: Chunks, top: int, p: int)
    requires Wf(cs, HEAP_BASE, top) && p in cs && cs[p].live && End(cs, p) in cs && cs[End(cs, p)].live
    ensures var n := End(cs, p);
            var s, cs' := cs[p].size + cs[n].size, JoinLive(cs, p);
            && Wf(cs', HEAP_BASE, top) && p % 8 == 0 && p < top && 32 <= s && s % 8 == 0 && p + s <= top
            && cs[p].size % 8 == 0 && n != p && n == p + cs[p].size
            && (if p + s == top then true else p + s in cs && cs[p + s].prevLive && cs[p + s].size % 8 == 0)
            && cs'[p] == Chunk(s, true, cs[p].prevLive)
            && (forall q | q in cs' && q != p :: q in cs && cs'[q] == cs[q])
            && cs'.Keys == cs.Keys - {n}
            && Lives(cs') == (Lives(cs) - {n})[p := s]
  {
    var n := End(cs, p);
    assert ChunkOK(cs, HEAP_BASE, top, p) && ChunkOK(cs, HEAP_BASE, top, n);
    BelowTop(cs, HEAP_BASE, top, p);
    BelowTop(cs, HEAP_BASE, top, n);
    if End(cs, n) != top { BelowTop(cs, HEAP_BASE, top, End(cs, n)); }
    JoinLiveWf(cs, HEAP_BASE, top, p);
    hide Wf, ChunkOK;
  }

  /** The chunk or top behind a chunk in use has its pinuse bit set. */
  lemma BehindPinuse(h: Heap, n: int)
    requires Wf(h.cs, HEAP_BASE, h.top) && TopOK(h.mem, h.top, h.topsize)
    requires if n == h.top then true else
              n in h.cs && h.cs[n].prevLive && h.cs[n].size % 8 == 0 &&
              TagOK(h.mem, h.cs, n)
    ensures Pinuse(Head(h.mem, n))
  {
    if n == h.top { TopTells(h.mem, h.top, h.topsize); } else { HeadTells(h.mem, h.cs, n); }
  }

  lemma InuseWords(m: Mem, p: int, s: int, prevLive: bool, was: int)
    requires 16 <= s && s % 8 == 0 && was % 8 == 0
    requires Head(m, p) == HeadWord(was, true, prevLive) && Pinuse(Head(m, p + s))
    ensures var m' := SetInuse(m, p, s);
            Head(m', p) == HeadWord(s, true, prevLive) && OnlyTags(m, m', {p}, {})
  {
    HeadWordFields(was, true, prevLive);
  }

  lemma MergeLive(h: Heap, p: int)
    requires HeapInv(h) && p in h.cs && h.cs[p].live && End(h.cs, p) in h.cs && h.cs[End(h.cs, p)].live
    ensures var n := End(h.cs, p);
            var s, m' := h.cs[p].size + h.cs[n].size, SetInuse(h.mem, p, h.cs[p].size + h.cs[n].size);
            var h' := h.(mem := m', cs := JoinLive(h.cs, p));
            && HeapInv(h') && p in h'.cs && h'.cs[p] == Chunk(s, true, h.cs[p].prevLive)
            && Lives(h'.cs) == (Lives(h.cs) - {n})[p := s] && n != p
            && TagsOnly(h.mem, m', h.binned) && PayloadKept(h.mem, m', Lives(h.cs))
  {
    hide *;
    InvParts(h);
    JoinLiveFacts(h.cs, h.top, p);
    var n := End(h.cs, p);
    var s := h.cs[p].size + h.cs[n].size;
    var m', cs' := SetInuse(h.mem, p, s), JoinLive(h.cs, p);
    EachTagged(h.mem, h.cs);
    TagParts(h.mem, h.cs, p);
    BehindPinuse(h, p + s);
    InuseWords(h.mem, p, s, h.cs[p].prevLive, h.cs[p].size);
    MakeTag(m', cs', p);
    SameTags(h.mem, h.cs, cs', {p});
    Retag(h.mem, m', cs', h.top, {p}, {});
    RetagKeeps(h.mem, m', h.cs, h.top, {p}, {});
    TopKept(h.mem, m', h.top, h.topsize, {p}, {});
    LiveNotBinned(h, p, p);
    TagsOutside(h.mem, m', h.cs, h.top, h.binned, {p}, {});
    JoinedLiveFiled(h, p, n, cs');
    MakeInv(h.(mem := m', cs := cs'));
  }

  lemma JoinedLiveFiled(h: Heap, p: int, n: int, cs': Chunks)
    requires FreeFiled(h.cs, h.dv, h.dvsize, h.binned) && p in h.cs && h.cs[p].live && n in h.cs && h.cs[n].live
    requires n != p
    requires cs'.Keys == h.cs.Keys - {n} && cs'[p].live && forall q | q in cs' && q != p :: cs'[q] == h.cs[q]
    ensures FreeFiled(cs', h.dv, h.dvsize, h.binned)
  {
  }

  // ---------------------------------------------------- memories that read the same

  ghost predicate SameMem(m: Mem, m': Mem) {
    forall a :: Rd(m', a) == Rd(m, a)
  }

  lemma SameMemLoose(h: Heap, m': Mem, r: int)
    requires Loose(h, r) && SameMem(h.mem, m')
    ensures Loose(h.(mem := m'), r)
  {
    forall q | q in h.cs ensures TagOK(m', h.cs, q) {
      assert TagOK(h.mem, h.cs, q);
    }
  }

  // ------------------------------------------------------------ what users may write

  /** Only words of the payload of p changed. */
  ghost predicate OnlyPayload(m: Mem, m': Mem, p: int, s: int) {
    forall a | !(p + 8 <= a < p + s + 4) :: Rd(m', a) == Rd(m, a)
  }

  /** Whatever a user stores in the payload of a chunk in use, the heap invariant holds. */
  lemma UserWrites(h: Heap, m': Mem, p: int)
    requires HeapInv(h) && p in h.cs && h.cs[p].live && OnlyPayload(h.mem, m', p, h.cs[p].size)
    ensures HeapInv(h.(mem := m')) && TagsOnly(h.mem, m', h.binned)
    ensures PayloadKept(h.mem, m', Lives(h.cs) - {p})
  {
    hide *;
    InvParts(h);
    UserTags(h, m', p);
    UserOutside(h, m', p);
    UserOthers(h, m', p);
    MakeInv(h.(mem := m'));
  }

  lemma UserTags(h: Heap, m': Mem, p: int)
    requires Wf(h.cs, HEAP_BASE, h.top) && Tagged(h.mem, h.cs) && TopOK(h.mem, h.top, h.topsize)
    requires p in h.cs && h.cs[p].live && OnlyPayload(h.mem, m', p, h.cs[p].size)
    ensures Tagged(m', h.cs) && TopOK(m', h.top, h.topsize)
  {
    BelowTop(h.cs, HEAP_BASE, h.top, p);
    forall q | q in h.cs ensures TagOK(m', h.cs, q) {
      UserTag(h, m', p, q);
    }
    hide Wf;
  }

  lemma UserTag(h: Heap, m': Mem, p: int, q: int)
    requires Wf(h.cs, HEAP_BASE, h.top) && Tagged(h.mem, h.cs)
    requires p in h.cs && h.cs[p].live && OnlyPayload(h.mem, m', p, h.cs[p].size) && q in h.cs
    ensures TagOK(m', h.cs, q)
  {
    BelowTop(h.cs, HEAP_BASE, h.top, p);
    BelowTop(h.cs, HEAP_BASE, h.top, q);
    EndsDiffer(h.cs, HEAP_BASE, h.top, p, q);
    assert TagOK(h.mem, h.cs, q);
    hide Wf;
  }

  lemma UserOutside(h: Heap, m': Mem, p: int)
    requires Wf(h.cs, HEAP_BASE, h.top) && p in h.cs && h.cs[p].live && OnlyPayload(h.mem, m', p, h.cs[p].size)
    requires forall x | x in h.binned :: x in h.cs && !h.cs[x].live && h.cs[x].size == h.binned[x]
    ensures TagsOnly(h.mem, m', h.binned)
  {
    BelowTop(h.cs, HEAP_BASE, h.top, p);
    forall a ensures Rd(m', a) == Rd(h.mem, a) || OutsideBins(h.binned, a) {
      if p + 8 <= a < End(h.cs, p) + 4 {
        forall x | x in h.binned ensures !(x + 4 <= a < x + h.binned[x]) {
          EndsDiffer(h.cs, HEAP_BASE, h.top, p, x);
        }
      }
    }
  }

  lemma UserOthers(h: Heap, m': Mem, p: int)
    requires Wf(h.cs, HEAP_BASE, h.top) && p in h.cs && OnlyPayload(h.mem, m', p, h.cs[p].size)
    ensures PayloadKept(h.mem, m', Lives(h.cs) - {p})
  {
    var lives := Lives(h.cs) - {p};
    forall q | q in lives ensures SameWords(h.mem, m', q + 8, q + lives[q] + 4) {
      EndsDiffer(h.cs, HEAP_BASE, h.top, p, q);
      BelowTop(h.cs, HEAP_BASE, h.top, p);
      BelowTop(h.cs, HEAP_BASE, h.top, q);
    }
  }

  // --------------------------------------------------------------- what realloc may do

  /** Whether chunk p can be resized in place to nb: it is large enough, or what is behind it is. */
  ghost predicate Extends(h: Heap, p: int, nb: int)
    requires p in h.cs
  {
    var s, n := h.cs[p].size, End(h.cs, p);
    || nb <= s
    || (n == h.top && nb < s + h.topsize)
    || (n != h.top && n in h.cs && !h.cs[n].live && nb <= s + h.cs[n].size)
  }

  /** From tiling cs to cs' only chunk p changed its size, to one that fits nb. */
  ghost predicate Resized(cs: Chunks, cs': Chunks, p: int, nb: int) {
    && p in cs' && cs'[p].live && nb <= cs'[p].size < nb + MIN_CHUNK_SIZE
    && Lives(cs') == Lives(cs)[p := cs'[p].size]
  }

  /** And no more of it, or of the free chunk behind it, was taken than had to be. */
  ghost predicate Fitted(cs: Chunks, cs': Chunks, p: int, nb: int)
    requires p in cs
  {
    && p in cs'
    && var s, n := cs[p].size, End(cs, p);
       cs'[p].size ==
         if nb <= s then if s < nb + 16 then s else nb
         else if n in cs && s + cs[n].size < nb + 16 then s + cs[n].size
         else nb
  }

  lemma MakeResized(cs: Chunks, cs': Chunks, p: int, s: int, nb: int)
    requires Lives(cs') == Lives(cs)[p := s] && nb <= s < nb + 16
    ensures Resized(cs, cs', p, nb) && p in cs' && cs'[p].size == s
  {
    assert p in Lives(cs') && Lives(cs')[p] == s;
  }

  /** What set_inuse stores. */
  lemma SetInuseStores(m: Mem, p: int, s: int)
    requires 16 <= s
    ensures var m' := SetInuse(m, p, s);
            && Head(m', p) == Head(m, p) % 2 + s + 2
            && Head(m', p + s) == (if Pinuse(Head(m, p + s)) then Head(m, p + s) else Head(m, p + s) + 1)
            && Pinuse(Head(m', p + s))
            && (forall a | a != p + 4 && a != p + s + 4 :: Rd(m', a) == Rd(m, a))
  {
  }

  lemma PinuseBit(size: int, prevLive: bool, h: int)
    requires size % 8 == 0
    ensures HeadWord(size, true, prevLive) % 2 == (if prevLive then 1 else 0)
    ensures Pinuse(h) ==> h % 2 == 1
  {
    HeadWordFields(size, true, prevLive);
    hide HeadWord;
  }

  lemma InuseHead(b: int, s: int, prevLive: bool)
    requires b == if prevLive then 1 else 0
    ensures b + s + 2 == HeadWord(s, true, prevLive)
  {
  }

  lemma MakeCutWords(m: Mem, m': Mem, p: int, nb: int, s: int, prevLive: bool)
    requires forall a | a != p + 4 && a != p + nb + 4 :: Rd(m', a) == Rd(m, a)
    requires Head(m', p) == HeadWord(nb, true, prevLive) && Head(m', p + nb) == HeadWord(s - nb, true, true)
    ensures CutWords(m, m', p, nb, s, prevLive)
  {
  }

  /** The words stored by set_inuse at p and then at p + nb, or the other way round. */
  lemma CutStores(m: Mem, p: int, nb: int, rs: int, prevLive: bool)
    requires 16 <= nb && 16 <= rs && (nb + rs) % 8 == 0
    requires Head(m, p) == HeadWord(nb + rs, true, prevLive) && Pinuse(Head(m, p + nb + rs))
    ensures CutWords(m, SetInuse(SetInuse(m, p, nb), p + nb, rs), p, nb, nb + rs, prevLive)
  {
    hide *;
    var r := p + nb;
    var m1 := SetInuse(m, p, nb);
    var m2 := SetInuse(m1, r, rs);
    SetInuseStores(m, p, nb);
    SetInuseStores(m1, r, rs);
    PinuseBit(nb + rs, prevLive, Head(m1, r));
    InuseHead(Head(m, p) % 2, nb, prevLive);
    InuseHead(1, rs, true);
    CutRest(m, m1, m2, p, r, r + rs);
    MakeCutWords(m, m2, p, nb, nb + rs, prevLive);
  }

  lemma CutStoresBack(m: Mem, p: int, nb: int, rs: int, prevLive: bool)
    requires 16 <= nb && 16 <= rs && (nb + rs) % 8 == 0
    requires Head(m, p) == HeadWord(nb + rs, true, prevLive) && Pinuse(Head(m, p + nb + rs))
    ensures var m2 := SetInuse(SetInuse(m, p + nb, rs), p, nb);
            && Head(m2, p) == HeadWord(nb, true, prevLive) && Pinuse(Head(m2, p + nb))
            && (Head(m2, p + nb) == rs + 2 || Head(m2, p + nb) == rs + 3 || rs % 8 != 0)
            && OnlyTags(m, m2, {p, p + nb}, {})
  {
    hide *;
    var r := p + nb;
    var m1 := SetInuse(m, r, rs);
    var m2 := SetInuse(m1, p, nb);
    SetInuseStores(m, r, rs);
    SetInuseStores(m1, p, nb);
    OtherHead(m, m1, p, r, r + rs);
    PinuseBit(nb + rs, prevLive, Head(m, p));
    InuseHead(Head(m, p) % 2, nb, prevLive);
    BackRest(m, m1, m2, p, r, r + rs);
    TwoOrThree(Head(m, r) % 2, rs, Head(m1, r), Head(m2, r));
  }

  lemma OtherHead(m: Mem, m1: Mem, p: int, r: int, n: int)
    requires p < r < n && forall a | a != r + 4 && a != n + 4 :: Rd(m1, a) == Rd(m, a)
    ensures Head(m1, p) == Head(m, p)
  {
  }

  lemma TwoOrThree(bit: int, rs: int, h1: int, h2: int)
    requires 0 <= bit <= 1 && h1 == bit + rs + 2
    requires h2 == (if Pinuse(h1) then h1 else h1 + 1) && Pinuse(h2)
    ensures rs % 8 == 0 ==> h2 == rs + 3
    ensures h2 == rs + 2 || h2 == rs + 3 || rs % 8 != 0
  {
    if rs % 8 == 0 {
      LowBits(rs / 8, 1, bit);
    }
  }

  lemma CutRest(m: Mem, m1: Mem, m2: Mem, p: int, r: int, n: int)
    requires forall a | a != p + 4 && a != r + 4 :: Rd(m1, a) == Rd(m, a)
    requires forall a | a != r + 4 && a != n + 4 :: Rd(m2, a) == Rd(m1, a)
    requires p < r < n && Pinuse(Head(m, n))
    requires Head(m2, n) == if Pinuse(Head(m1, n)) then Head(m1, n) else Head(m1, n) + 1
    ensures forall a | a != p + 4 && a != r + 4 :: Rd(m2, a) == Rd(m, a)
    ensures Head(m2, p) == Head(m1, p)
  {
  }

  lemma BackRest(m: Mem, m1: Mem, m2: Mem, p: int, r: int, n: int)
    requires forall a | a != r + 4 && a != n + 4 :: Rd(m1, a) == Rd(m, a)
    requires forall a | a != p + 4 && a != r + 4 :: Rd(m2, a) == Rd(m1, a)
    requires p < r < n && Pinuse(Head(m, n))
    requires Head(m1, n) == if Pinuse(Head(m, n)) then Head(m, n) else Head(m, n) + 1
    ensures OnlyTags(m, m2, {p, r}, {})
  {
  }

  lemma CutReady(h: Heap, p: int, nb: int, rs: int)
    requires HeapInv(h) && p in h.cs && h.cs[p].live && h.cs[p].size == nb + rs
    requires 16 <= nb && nb % 8 == 0 && 16 <= rs
    ensures CutWords(h.mem, SetInuse(SetInuse(h.mem, p, nb), p + nb, rs), p, nb, nb + rs, h.cs[p].prevLive)
    ensures CutWords(h.mem, SetInuse(SetInuse(h.mem, p + nb, rs), p, nb), p, nb, nb + rs, h.cs[p].prevLive)
  {
    hide *;
    InvParts(h);
    EachTagged(h.mem, h.cs);
    TagParts(h.mem, h.cs, p);
    LiveEnd(h.cs, h.top, p, nb, rs);
    BehindPinuse(h, p + nb + rs);
    CutStores(h.mem, p, nb, rs, h.cs[p].prevLive);
    CutStoresBack(h.mem, p, nb, rs, h.cs[p].prevLive);
    MakeCutBack(h.mem, SetInuse(SetInuse(h.mem, p + nb, rs), p, nb), p, nb, rs, h.cs[p].prevLive);
  }

  lemma MakeCutBack(m: Mem, m2: Mem, p: int, nb: int, rs: int, prevLive: bool)
    requires rs % 8 == 0 && OnlyTags(m, m2, {p, p + nb}, {}) && Head(m2, p) == HeadWord(nb, true, prevLive)
    requires Pinuse(Head(m2, p + nb)) && (Head(m2, p + nb) == rs + 2 || Head(m2, p + nb) == rs + 3)
    ensures CutWords(m, m2, p, nb, nb + rs, prevLive)
  {
  }

  lemma LiveEnd(cs: Chunks, top: int, p: int, nb: int, rs: int)
    requires Wf(cs, HEAP_BASE, top) && p in cs && cs[p].live && cs[p].size == nb + rs && nb % 8 == 0
    ensures var n := p + nb + rs; n == top || (n in cs && cs[n].prevLive && cs[n].size % 8 == 0)
    ensures (nb + rs) % 8 == 0 && rs % 8 == 0
  {
    assert ChunkOK(cs, HEAP_BASE, top, p);
    if p + nb + rs != top { BelowTop(cs, HEAP_BASE, top, p + nb + rs); }
  }

  lemma TopCutStores(m: Mem, p: int, nb: int, ts: int, was: int, prevLive: bool)
    requires 16 <= nb && nb % 8 == 0 && was % 8 == 0 && Head(m, p) == HeadWord(was, true, prevLive)
    ensures TopCutWords(m, SetInuse(m, p, nb)[p + nb + 4 := ts + 1], p, nb, ts, prevLive)
  {
    HeadWordFields(was, true, prevLive);
  }

  lemma TopCutReady(h: Heap, p: int, nb: int, ts: int)
    requires HeapInv(h) && p in h.cs && h.cs[p].live && 16 <= nb && nb % 8 == 0
    ensures TopCutWords(h.mem, SetInuse(h.mem, p, nb)[p + nb + 4 := ts + 1], p, nb, ts, h.cs[p].prevLive)
  {
    hide *;
    InvParts(h);
    EachTagged(h.mem, h.cs);
    TagParts(h.mem, h.cs, p);
    SizeAligned(h.cs, h.top, p);
    TopCutStores(h.mem, p, nb, ts, h.cs[p].size, h.cs[p].prevLive);
  }

  lemma SizeAligned(cs: Chunks, top: int, p: int)
    requires Wf(cs, HEAP_BASE, top) && p in cs
    ensures cs[p].size % 8 == 0 && 16 <= cs[p].size && p % 8 == 0
  {
    BelowTop(cs, HEAP_BASE, top, p);
  }

  /** What is stored when dv, behind p, is split: p ends at r, which is free and ends at n2. */
  ghost predicate DvSplitWords(m: Mem, m': Mem, p: int, r: int, n2: int, nb: int, ds: int, prevLive: bool, c: int) {
    && Head(m', p) == HeadWord(nb, true, prevLive) && Head(m', r) == ds + 1
    && Rd(m', n2) == ds && Head(m', n2) == c + 2
    && forall a | a != p + 4 && a != r + 4 && a != n2 && a != n2 + 4 :: Rd(m', a) == Rd(m, a)
  }

  lemma DvSplitSame(m: Mem, a: Mem, b: Mem, p: int, r: int, n2: int, nb: int, ds: int, prevLive: bool, c: int)
    requires DvSplitWords(m, a, p, r, n2, nb, ds, prevLive, c) && DvSplitWords(m, b, p, r, n2, nb, ds, prevLive, c)
    ensures SameMem(a, b)
  {
  }

  /** The stores of the code. */
  lemma DvSplitCode(m: Mem, p: int, nb: int, ds: int, prevLive: bool, was: int, c: int)
    requires 16 <= nb && 16 <= ds && was % 8 == 0 && c % 8 == 0
    requires Head(m, p) == HeadWord(was, true, prevLive) && Head(m, p + nb + ds) == HeadWord(c, true, false)
    ensures DvSplitWords(m, ClearPinuse(SetFree(SetInuse(m, p, nb), p + nb, ds), p + nb + ds), p, p + nb, p + nb + ds,
              nb, ds, prevLive, c)
  {
    hide *;
    var r, n2 := p + nb, p + nb + ds;
    var m1 := SetInuse(m, p, nb);
    SetInuseStores(m, p, nb);
    PinuseBit(was, prevLive, 0);
    InuseHead(Head(m, p) % 2, nb, prevLive);
    DvSplitEnd(m, m1, p, r, n2, nb, ds, prevLive, c);
  }

  lemma DvSplitEnd(m: Mem, m1: Mem, p: int, r: int, n2: int, nb: int, ds: int, prevLive: bool, c: int)
    requires 16 <= nb && 16 <= ds && r == p + nb && n2 == r + ds && c % 8 == 0
    requires Head(m1, p) == HeadWord(nb, true, prevLive) && Head(m, n2) == HeadWord(c, true, false)
    requires forall a | a != p + 4 && a != r + 4 :: Rd(m1, a) == Rd(m, a)
    ensures DvSplitWords(m, ClearPinuse(SetFree(m1, r, ds), n2), p, r, n2, nb, ds, prevLive, c)
  {
    HeadWordFields(c, true, false);
  }

  /** As if p first took all of dv and then gave r back. */
  lemma DvSplitStaged(m: Mem, m1: Mem, m2: Mem, p: int, nb: int, ds: int, prevLive: bool, c: int)
    requires 16 <= nb && 16 <= ds && c % 8 == 0
    requires OnlyTags(m, m1, {p, p + nb + ds}, {}) && Head(m1, p + nb + ds) == HeadWord(c, true, true)
    requires CutWords(m1, m2, p, nb, nb + ds, prevLive)
    ensures DvSplitWords(m, SetFreeWithPinuse(m2, p + nb, ds, p + nb + ds), p, p + nb, p + nb + ds, nb, ds, prevLive, c)
  {
    hide *;
    var r, n2 := p + nb, p + nb + ds;
    CutParts(m1, m2, p, nb, nb + ds, prevLive);
    TagsAt(m1, m2, p, r, n2);
    GivenBack(m2, p, r, ds, n2, c);
    DvSplitJoin(m, m1, m2, SetFreeWithPinuse(m2, r, ds, n2), p, r, n2, nb, ds, prevLive, c);
  }

  lemma TagsAt(m: Mem, m': Mem, p: int, r: int, n: int)
    requires OnlyTags(m, m', {p, r}, {}) && n != p && n != r
    ensures Head(m', n) == Head(m, n)
  {
  }

  lemma GivenBack(m: Mem, p: int, r: int, ds: int, n2: int, c: int)
    requires Head(m, n2) == HeadWord(c, true, true) && c % 8 == 0 && n2 == r + ds && p < r && 16 <= ds
    ensures var m' := SetFreeWithPinuse(m, r, ds, n2);
            && Head(m', r) == ds + 1 && Rd(m', n2) == ds && Head(m', n2) == c + 2 && Head(m', p) == Head(m, p)
            && forall a | a != r + 4 && a != n2 && a != n2 + 4 :: Rd(m', a) == Rd(m, a)
  {
    HeadWordFields(c, true, true);
  }

  lemma DvSplitJoin(m: Mem, m1: Mem, m2: Mem, a: Mem, p: int, r: int, n2: int, nb: int, ds: int, prevLive: bool, c: int)
    requires OnlyTags(m, m1, {p, n2}, {}) && OnlyTags(m1, m2, {p, r}, {})
    requires Head(a, r) == ds + 1 && Rd(a, n2) == ds && Head(a, n2) == c + 2
    requires Head(a, p) == HeadWord(nb, true, prevLive)
    requires forall x | x != r + 4 && x != n2 && x != n2 + 4 :: Rd(a, x) == Rd(m2, x)
    ensures DvSplitWords(m, a, p, r, n2, nb, ds, prevLive, c)
  {
  }

  lemma TagsTransitive(m: Mem, m1: Mem, m2: Mem, binned: Sizes)
    requires TagsOnly(m, m1, binned) && (TagsOnly(m1, m2, binned) || SameMem(m1, m2))
    ensures TagsOnly(m, m2, binned)
  {
  }

  /** The stores of realloc when it splits the free chunk behind p. */
  lemma GrowCutWords(m: Mem, m1: Mem, p: int, nb: int, rs: int, prevLive: bool, was: int, c: int)
    requires 16 <= nb && 16 <= rs && was % 8 == 0 && c % 8 == 0
    requires Head(m, p) == HeadWord(was, true, prevLive) && Head(m, p + nb + rs) == HeadWord(c, true, false)
    requires OnlyTags(m, m1, {p, p + nb + rs}, {}) && Head(m1, p + nb + rs) == HeadWord(c, true, true)
    ensures CutWords(m1, SetInuse(SetInuse(m, p, nb), p + nb, rs), p, nb, nb + rs, prevLive)
  {
    hide *;
    var r, n := p + nb, p + nb + rs;
    var a := SetInuse(m, p, nb);
    var b := SetInuse(a, r, rs);
    SetInuseStores(m, p, nb);
    SetInuseStores(a, r, rs);
    PinuseBit(was, prevLive, Head(a, r));
    InuseHead(Head(m, p) % 2, nb, prevLive);
    InuseHead(1, rs, true);
    GrowCutRest(m, m1, a, b, p, r, n, c);
    MakeCutWords(m1, b, p, nb, nb + rs, prevLive);
  }

  lemma GrowCutRest(m: Mem, m1: Mem, a: Mem, b: Mem, p: int, r: int, n: int, c: int)
    requires p < r < n && c % 8 == 0
    requires Head(m, n) == HeadWord(c, true, false) && Head(m1, n) == HeadWord(c, true, true)
    requires OnlyTags(m, m1, {p, n}, {})
    requires forall x | x != p + 4 && x != r + 4 :: Rd(a, x) == Rd(m, x)
    requires forall x | x != r + 4 && x != n + 4 :: Rd(b, x) == Rd(a, x)
    requires Head(b, n) == if Pinuse(Head(a, n)) then Head(a, n) else Head(a, n) + 1
    ensures forall x | x != p + 4 && x != r + 4 :: Rd(b, x) == Rd(m1, x)
    ensures Head(b, p) == Head(a, p)
  {
    HeadWordFields(c, true, false);
  }

  /** Chunk p grown over the loose free chunk behind it, and cut at nb. */
  function GrownCut(h: Heap, p: int, nb: int): Heap
    requires p in h.cs && End(h.cs, p) in h.cs
  {
    var rs := h.cs[p].size + h.cs[End(h.cs, p)].size - nb;
    h.(mem := SetInuse(SetInuse(h.mem, p, nb), p + nb, rs), cs := Split(JoinNext(h.cs, p), p, nb))
  }

  lemma GrownCutIs(h: Heap, p: int, nb: int)
    requires p in h.cs && End(h.cs, p) in h.cs
    ensures p in JoinNext(h.cs, p)
    ensures var rs := h.cs[p].size + h.cs[End(h.cs, p)].size - nb;
            GrownCut(h, p, nb) == h.(mem := SetInuse(SetInuse(h.mem, p, nb), p + nb, rs),
              cs := Split(JoinNext(h.cs, p), p, nb))
  {
  }

  lemma GrowCut(h: Heap, p: int, nb: int)
    requires p in h.cs && h.cs[p].live && End(h.cs, p) in h.cs && Loose(h, End(h.cs, p))
    requires h.cs[p].size < nb && nb % 8 == 0 && 16 <= nb && 16 <= h.cs[p].size + h.cs[End(h.cs, p)].size - nb
    ensures var h', r := GrownCut(h, p, nb), p + nb;
            var rs := h.cs[p].size + h.cs[End(h.cs, p)].size - nb;
            && HeapInv(h') && r in h'.cs && h'.cs[r] == Chunk(rs, true, true)
            && Lives(h'.cs) - {r} == Lives(h.cs)[p := nb]
            && TagsOnly(h.mem, h'.mem, h.binned) && PayloadKept(h.mem, h'.mem, Lives(h.cs))
  {
    hide *;
    GrowLoose(h, p);
    GrownIs(h, p);
    GrownCutIs(h, p, nb);
    var n := End(h.cs, p);
    LooseParts(h, n);
    GrownFacts(h.cs, h.top, p);
    var n2, rs := End(h.cs, n), h.cs[p].size + h.cs[n].size - nb;
    var h1, h' := Grown(h, p), GrownCut(h, p, nb);
    EachTagged(h.mem, h.cs);
    TagParts(h.mem, h.cs, p);
    TagParts(h.mem, h.cs, n2);
    GrownWords(h.mem, p, nb + rs, h.cs[p].prevLive, h.cs[p].size, h.cs[n2]);
    GrowCutWords(h.mem, h1.mem, p, nb, rs, h.cs[p].prevLive, h.cs[p].size, h.cs[n2].size);
    CutLive(h1, h'.mem, p, nb);
    TagsTransitive(h.mem, h1.mem, h'.mem, h.binned);
    LiveSize(h.cs, p);
    KeptGrownCut(h.mem, h1.mem, h'.mem, Lives(h.cs), p, h.cs[p].size, nb + rs, nb);
  }

  lemma LiveSize(cs: Chunks, p: int)
    requires p in cs && cs[p].live
    ensures p in Lives(cs) && Lives(cs)[p] == cs[p].size
  {
  }

  lemma KeptGrownCut(m: Mem, m1: Mem, m2: Mem, lives: Sizes, p: int, was: int, s: int, nb: int)
    requires PayloadKept(m, m1, lives) && PayloadKept(m1, m2, lives[p := s] - {p})
    requires SameWords(m1, m2, p + 8, p + nb + 4)
    requires p in lives ==> lives[p] == was <= nb
    ensures PayloadKept(m, m2, lives)
  {
    forall q | q in lives ensures SameWords(m, m2, q + 8, q + lives[q] + 4) {
      assert SameWords(m, m1, q + 8, q + lives[q] + 4);
      if q != p { assert SameWords(m1, m2, q + 8, q + (lives[p := s] - {p})[q] + 4); }
    }
  }

  // ------------------------------------------------------------------- dv split for p

  function DvSplit(h: Heap, p: int, nb: int): Heap
    requires p in h.cs && End(h.cs, p) in h.cs
  {
    var n := End(h.cs, p);
    var r, ds, n2 := p + nb, h.cs[p].size + h.cs[n].size - nb, End(h.cs, n);
    var cs1 := Split(JoinNext(h.cs, p), p, nb);
    Heap(ClearPinuse(SetFree(SetInuse(h.mem, p, nb), r, ds), n2), if r in cs1 then Release(cs1, r) else cs1,
         h.top, h.topsize, r, ds, h.binned)
  }

  lemma DvSplitIs(h: Heap, p: int, nb: int)
    requires p in h.cs && End(h.cs, p) in h.cs
    ensures p in JoinNext(h.cs, p)
    ensures var n := End(h.cs, p);
            var r, ds, n2 := p + nb, h.cs[p].size + h.cs[n].size - nb, End(h.cs, n);
            var cs1 := Split(JoinNext(h.cs, p), p, nb);
            && r in cs1
            && DvSplit(h, p, nb) == Heap(ClearPinuse(SetFree(SetInuse(h.mem, p, nb), r, ds), n2), Release(cs1, r),
                                         h.top, h.topsize, r, ds, h.binned)
  {
  }

  /** p takes a part of dv, which is the chunk behind it; the rest is the new dv. */
  lemma SplitDvFor(h: Heap, p: int, nb: int)
    requires HeapInv(h) && p in h.cs && h.cs[p].live && h.dvsize != 0 && End(h.cs, p) == h.dv
    requires h.cs[p].size < nb && nb % 8 == 0 && 16 <= nb && 16 <= h.cs[p].size + h.dvsize - nb
    ensures h.dv in h.cs && h.cs[h.dv].size == h.dvsize
    ensures var h' := DvSplit(h, p, nb);
            && HeapInv(h') && Lives(h'.cs) == Lives(h.cs)[p := nb]
            && TagsOnly(h.mem, h'.mem, h.binned) && PayloadKept(h.mem, h'.mem, Lives(h.cs))
  {
    hide *;
    DvLoose(h);
    var n, h0 := h.dv, h.(dv := 0, dvsize := 0);
    LooseParts(h0, n);
    GrowCut(h0, p, nb);
    GrownCutIs(h0, p, nb);
    GrownFacts(h.cs, h.top, p);
    DvSplitIs(h, p, nb);
    var r, ds, n2 := p + nb, h.cs[p].size + h.cs[n].size - nb, End(h.cs, n);
    var h2, h' := GrownCut(h0, p, nb), DvSplit(h, p, nb);
    SplitEnd(h.cs, h.top, p, nb);
    CutMid(h2, r);
    FreeAlone(h2, r);
    FreedAloneIs(h2, r);
    EachTagged(h.mem, h.cs);
    TagParts(h.mem, h.cs, p);
    TagParts(h.mem, h.cs, n2);
    StagedWords(h.mem, p, nb, ds, h.cs[p].prevLive, h.cs[p].size, h.cs[n2]);
    DvSplitCode(h.mem, p, nb, ds, h.cs[p].prevLive, h.cs[p].size, h.cs[n2].size);
    var a := SetFreeWithPinuse(h2.mem, r, ds, n2);
    DvSplitSame(h.mem, a, h'.mem, p, r, n2, nb, ds, h.cs[p].prevLive, h.cs[n2].size);
    SameMemLoose(FreedAlone(h2, r), h'.mem, r);
    LooseDv(FreedAlone(h2, r).(mem := h'.mem), r);
    TagsTransitive(h.mem, h2.mem, a, h.binned);
    TagsTransitive(h.mem, a, h'.mem, h.binned);
    LiveSize(h.cs, p);
    KeptTwice(h.mem, h2.mem, a, h'.mem, Lives(h.cs), p, h.cs[p].size, nb);
  }

  lemma SplitEnd(cs: Chunks, top: int, p: int, nb: int)
    requires Wf(cs, HEAP_BASE, top) && p in cs && cs[p].live && End(cs, p) in cs && !cs[End(cs, p)].live
    requires 16 <= nb && 16 <= cs[p].size + cs[End(cs, p)].size - nb && p in JoinNext(cs, p)
    ensures var n := End(cs, p);
            var cs1, r, n2 := Split(JoinNext(cs, p), p, nb), p + nb, End(cs, n);
            r in cs1 && End(cs1, r) == n2 && n2 in cs1 && cs1[n2].live
  {
    GrownFacts(cs, top, p);
    hide JoinNext, Wf;
  }

  lemma CutMid(h: Heap, r: int)
    requires HeapInv(h) && r in h.cs && h.cs[r].live && h.cs[r].prevLive
    ensures Mid(h, r)
  {
    NullNotBinned(h);
    hide Wf, TopOK, TagOK;
  }

  lemma FreedAloneIs(h: Heap, p: int)
    requires p in h.cs
    ensures FreedAlone(h, p) == h.(mem := SetFreeWithPinuse(h.mem, p, h.cs[p].size, End(h.cs, p)),
              cs := Release(h.cs, p))
  {
  }

  lemma StagedWords(m: Mem, p: int, nb: int, ds: int, prevLive: bool, was: int, c: Chunk)
    requires 16 <= nb && 16 <= ds && (nb + ds) % 8 == 0 && was % 8 == 0 && c.size % 8 == 0 && c.live && !c.prevLive
    requires Head(m, p) == HeadWord(was, true, prevLive) && Head(m, p + nb + ds) == HeadWord(c.size, c.live, c.prevLive)
    ensures var n2 := p + nb + ds;
            DvSplitWords(m, SetFreeWithPinuse(SetInuse(SetInuse(m, p, nb), p + nb, ds), p + nb, ds, n2),
                         p, p + nb, n2, nb, ds, prevLive, c.size)
  {
    hide *;
    var n2 := p + nb + ds;
    var m1 := SetInuse(m, p, nb + ds);
    GrownWords(m, p, nb + ds, prevLive, was, c);
    GrowCutWords(m, m1, p, nb, ds, prevLive, was, c.size);
    DvSplitStaged(m, m1, SetInuse(SetInuse(m, p, nb), p + nb, ds), p, nb, ds, prevLive, c.size);
  }

  lemma KeptTwice(m: Mem, m1: Mem, a: Mem, b: Mem, lives: Sizes, p: int, was: int, nb: int)
    requires PayloadKept(m, m1, lives) && PayloadKept(m1, a, lives[p := nb]) && SameMem(a, b)
    requires p in lives && lives[p] == was <= nb
    ensures PayloadKept(m, b, lives)
  {
    forall q | q in lives ensures SameWords(m, b, q + 8, q + lives[q] + 4) {
      assert SameWords(m, m1, q + 8, q + lives[q] + 4);
      assert SameWords(m1, a, q + 8, q + lives[p := nb][q] + 4);
    }
  }

  // ----------------------------------------------- what resizing keeps of the payloads

  /** Chunk p may have changed size; what it had, up to nb, and all other payloads are kept. */
  ghost predicate ContentsKept(m: Mem, m': Mem, lives: Sizes, p: int, nb: int) {
    && PayloadKept(m, m', lives - {p})
    && (p in lives ==> SameWords(m, m', p + 8, p + (if lives[p] < nb then lives[p] else nb) + 4))
  }

  lemma ContentsWhole(m: Mem, m': Mem, lives: Sizes, p: int, nb: int)
    requires PayloadKept(m, m', lives)
    ensures ContentsKept(m, m', lives, p, nb)
  {
    forall q | q in lives - {p} ensures SameWords(m, m', q + 8, q + lives[q] + 4) {
      assert q in lives;
    }
    assert p in lives ==> SameWords(m, m', p + 8, p + lives[p] + 4);
  }

  /** First p was cut at nb or more words of it kept, then its surplus was disposed of. */
  lemma ContentsCut(m: Mem, m1: Mem, m2: Mem, lives: Sizes, p: int, nb: int)
    requires p in lives && ContentsKept(m, m1, lives, p, nb) && PayloadKept(m1, m2, lives[p := nb])
    ensures ContentsKept(m, m2, lives, p, nb)
  {
    forall q | q in lives - {p} ensures SameWords(m, m2, q + 8, q + lives[q] + 4) {
      assert SameWords(m, m1, q + 8, q + (lives - {p})[q] + 4);
      assert SameWords(m1, m2, q + 8, q + lives[p := nb][q] + 4);
    }
    assert SameWords(m1, m2, p + 8, p + lives[p := nb][p] + 4);
  }

  lemma MakeContents(m: Mem, m': Mem, lives: Sizes, p: int, nb: int)
    requires PayloadKept(m, m', lives - {p}) && p in lives && nb <= lives[p] && SameWords(m, m', p + 8, p + nb + 4)
    ensures ContentsKept(m, m', lives, p, nb)
  {
  }

  lemma ContentsAfter(m: Mem, m1: Mem, m2: Mem, lives: Sizes, p: int, nb: int)
    requires PayloadKept(m, m1, lives) && PayloadKept(m1, m2, lives)
    ensures ContentsKept(m, m2, lives, p, nb)
  {
    KeptTransitive(m, m1, m2, lives, lives);
    ContentsWhole(m, m2, lives, p, nb);
  }

  /** What lies behind p, for realloc. */
  lemma ReallocTells(h: Heap, p: int, n: int)
    requires HeapInv(h) && p in h.cs && h.cs[p].live && n == p + h.cs[p].size
    ensures n == End(h.cs, p) && 0 < p && SizeOf(Head(h.mem, p)) == h.cs[p].size && 16 <= h.cs[p].size
    ensures p in Lives(h.cs) && Lives(h.cs)[p] == h.cs[p].size
    ensures n == h.top ==> n !in h.cs && n != h.dv
    ensures n != h.top && n == h.dv ==> n in h.cs && !h.cs[n].live && h.cs[n].size == h.dvsize && 0 < h.dvsize
    ensures n != h.top && n != h.dv && !Cinuse(Head(h.mem, n)) ==>
              n in h.cs && !h.cs[n].live && n in h.binned && h.binned[n] == h.cs[n].size &&
                SizeOf(Head(h.mem, n)) == h.cs[n].size
    ensures n != h.top && Cinuse(Head(h.mem, n)) ==> n in h.cs && h.cs[n].live
    ensures n in h.cs ==> 16 <= h.cs[n].size && n != h.top
  {
    BelowTop(h.cs, HEAP_BASE, h.top, p);
    HeadTells(h.mem, h.cs, p);
    NullNotBinned(h);
    BehindTells(h, p);
    if n in h.cs { BelowTop(h.cs, HEAP_BASE, h.top, n); }
    hide Wf, Tagged, TopOK;
  }

  /** In place or not: what decides, case by case. */
  lemma ExtendsMeans(h: Heap, p: int, nb: int)
    requires p in h.cs
    ensures var s, n := h.cs[p].size, End(h.cs, p);
            Extends(h, p, nb) <==>
              || nb <= s || (n == h.top && nb < s + h.topsize)
              || (n != h.top && n in h.cs && !h.cs[n].live && nb <= s + h.cs[n].size)
  {
  }

  // ------------------------------------------------------------------- realloc by moving

  /** Between cs and cs' block p was given up and block q, which fits nb, came in its place. */
  ghost predicate Moved(cs: Chunks, cs': Chunks, p: int, q: int, nb: int) {
    && q in cs' && cs'[q].live && nb <= cs'[q].size < nb + MIN_CHUNK_SIZE
    && (q == p || q !in Lives(cs))
    && Lives(cs') == (Lives(cs) - {p})[q := cs'[q].size]
  }

  lemma ResizedMoved(cs: Chunks, cs': Chunks, p: int, nb: int)
    requires Resized(cs, cs', p, nb)
    ensures Moved(cs, cs', p, p, nb)
  {
    assert (Lives(cs) - {p})[p := cs'[p].size] == Lives(cs)[p := cs'[p].size];
  }

  /** The bytes realloc keeps: the smaller of what the old block could hold and what is asked. */
  function Kept(size: int, bytes: int): int { if size - 4 < bytes then size - 4 else bytes }

  lemma ResizedBytes(h: Heap, m': Mem, p: int, nb: int, bytes: int)
    requires HeapInv(h) && p in h.cs && h.cs[p].live && ContentsKept(h.mem, m', Lives(h.cs), p, nb) && bytes + 4 <= nb
    ensures SameBytes(h.mem, p + 8, m', p + 8, Kept(h.cs[p].size, bytes))
    ensures PayloadKept(h.mem, m', Lives(h.cs) - {p})
  {
    hide *;
    InvParts(h);
    BelowTop(h.cs, HEAP_BASE, h.top, p);
    BlockWords(h.mem, m', h.cs, p, nb);
    EightIsFour(p);
    var n := Kept(h.cs[p].size, bytes);
    KeptFits(h.cs[p].size, bytes, nb);
    SomeWords(h.mem, m', p + 8, p + (if h.cs[p].size < nb then h.cs[p].size else nb) + 4, n);
    WordsToBytes(h.mem, m', p + 8, n);
  }

  lemma BlockWords(m: Mem, m': Mem, cs: Chunks, p: int, nb: int)
    requires ContentsKept(m, m', Lives(cs), p, nb) && p in cs && cs[p].live
    ensures PayloadKept(m, m', Lives(cs) - {p})
    ensures SameWords(m, m', p + 8, p + (if cs[p].size < nb then cs[p].size else nb) + 4)
  {
    assert p in Lives(cs) && Lives(cs)[p] == cs[p].size;
    hide PayloadKept, SameWords;
  }

  lemma KeptFits(size: int, bytes: int, nb: int)
    requires bytes + 4 <= nb
    ensures Kept(size, bytes) + 4 <= if size < nb then size else nb
  {
  }

  lemma SomeWords(m: Mem, m': Mem, lo: int, hi: int, n: int)
    requires SameWords(m, m', lo, hi) && lo + n <= hi
    ensures forall a | lo <= a < lo + n :: Rd(m', a) == Rd(m, a)
  {
    hide Rd;
  }

  /** What a new block q and the old block p look like after malloc. */
  lemma AfterGrant(h: Heap, h1: Heap, p: int, q: int, nb: int, bytes: int)
    requires HeapInv(h1) && p in Lives(h.cs) && Grants(h.cs, h1.cs, q, nb) && bytes + 4 <= nb
    ensures p in h1.cs && h1.cs[p].live && h1.cs[p].size == Lives(h.cs)[p] && p != q && 0 < p
    ensures q in h1.cs && h1.cs[q].live && nb <= h1.cs[q].size && q % 8 == 0 && p % 8 == 0
    ensures SizeOf(Head(h1.mem, p)) == h1.cs[p].size
    ensures var n := Kept(h1.cs[p].size, bytes);
            && (p + 8 + n <= q + 8 || q + 8 + n <= p + 8)
            && n <= h1.cs[q].size - 4 && n <= h1.cs[p].size - 4
    ensures Lives(h1.cs) - {q} == Lives(h.cs)
  {
    assert p in Lives(h1.cs) && Lives(h1.cs)[p] == Lives(h.cs)[p];
    BelowTop(h1.cs, HEAP_BASE, h1.top, p);
    BelowTop(h1.cs, HEAP_BASE, h1.top, q);
    EndsDiffer(h1.cs, HEAP_BASE, h1.top, p, q);
    assert TagOK(h1.mem, h1.cs, p);
    HeadTells(h1.mem, h1.cs, p);
    hide Wf, Tagged, TopOK, FreeFiled;
  }

  lemma BytesOfPayload(m: Mem, m': Mem, lives: Sizes, p: int, n: int)
    requires PayloadKept(m, m', lives) && p in lives && n <= lives[p] - 4 && p % 8 == 0
    ensures SameBytes(m, p + 8, m', p + 8, n)
  {
    assert SameWords(m, m', p + 8, p + lives[p] + 4);
    hide PayloadKept, SameBytes;
    assert (p + 8) % 4 == 0 by { EightIsFour(p); }
    WordsToBytes(m, m', p + 8, n);
  }

  lemma Eights(p: int)
    requires p % 8 == 0
    ensures p + 8 == 4 * (2 * (p / 8) + 2)
  {
  }

  lemma EightIsFour(p: int)
    requires p % 8 == 0
    ensures (p + 8) % 4 == 0
  {
    RestOfFour(2 * (p / 8) + 2);
    Eights(p);
    hide *;
  }

  lemma MakeMoved(cs: Chunks, cs1: Chunks, cs': Chunks, p: int, q: int, nb: int)
    requires Grants(cs, cs1, q, nb) && p in Lives(cs) && Lives(cs') == Lives(cs1) - {p}
    ensures Moved(cs, cs', p, q, nb) && q in Lives(cs') && Lives(cs')[q] == cs1[q].size
  {
    assert q in Lives(cs1) && Lives(cs1)[q] == cs1[q].size;
    assert q in Lives(cs') && Lives(cs')[q] == cs1[q].size;
    assert (Lives(cs) - {p})[q := cs1[q].size] == Lives(cs)[q := cs1[q].size] - {p};
  }

  /** Everything else that was in use kept its payload through malloc, copy and free. */
  lemma KeptMoved(m: Mem, m1: Mem, m2: Mem, m3: Mem, lives: Sizes, lives': Sizes, p: int, q: int, s: int)
    requires PayloadKept(m, m1, lives) && PayloadKept(m1, m2, lives) && PayloadKept(m2, m3, lives')
    requires lives' == (lives - {p})[q := s] && q !in lives
    ensures PayloadKept(m, m3, lives - {p})
  {
    forall x | x in lives - {p} ensures SameWords(m, m3, x + 8, x + (lives - {p})[x] + 4) {
      assert SameWords(m, m1, x + 8, x + lives[x] + 4);
      assert SameWords(m1, m2, x + 8, x + lives[x] + 4);
      assert SameWords(m2, m3, x + 8, x + lives'[x] + 4);
    }
  }

  lemma MakePayload(m: Mem, m': Mem, q: int, s: int, n: int)
    requires n <= s - 4 && forall a | !(q + 8 <= a < q + 8 + n) :: Rd(m', a) == Rd(m, a)
    ensures OnlyPayload(m, m', q, s)
  {
  }
}
