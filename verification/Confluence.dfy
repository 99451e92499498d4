/** Coalescing is confluent: the chunks in use determine the whole tiling. */
module Confluence {
  import opened Carving
  import opened Coalesce
  import opened Bins
  import opened Tiling
  import opened HeapState

  /** Two tilings that start at the same base and have the same chunks in use. */
  ghost predicate SameLives(cs: Chunks, top: int, cs': Chunks, top': int, base: int) {
    Wf(cs, base, top) && Wf(cs', base, top') && Lives(cs) == Lives(cs')
  }

  lemma SameLivesBack(cs: Chunks, top: int, cs': Chunks, top': int, base: int)
    requires SameLives(cs, top, cs', top', base)
    ensures SameLives(cs', top', cs, top, base)
  {
  }

  /** A chunk in use of one is a chunk in use of the other, with the same end. */
  lemma LiveInBoth(cs: Chunks, top: int, cs': Chunks, top': int, base: int, p: int)
    requires SameLives(cs, top, cs', top', base) && p in cs && cs[p].live
    ensures p in cs' && cs'[p].live && cs'[p].size == cs[p].size && End(cs', p) == End(cs, p)
  {
    assert p in Lives(cs) && Lives(cs)[p] == cs[p].size;
    assert p in Lives(cs');
    hide Wf;
  }

  /** Top lies behind the last chunk in use. */
  lemma TopNotAbove(cs: Chunks, top: int, cs': Chunks, top': int, base: int)
    requires SameLives(cs, top, cs', top', base)
    ensures top <= top'
  {
    if top != base {
      var q := PrevChunk(cs, base, top, top);
      assert ChunkOK(cs, base, top, q);
      LiveInBoth(cs, top, cs', top', base, q);
      BelowTop(cs', base, top', q);
    }
  }

  /** Whether the chunk before p is in use is the same in both. */
  lemma PrevInBoth(cs: Chunks, top: int, cs': Chunks, top': int, base: int, p: int)
    requires SameLives(cs, top, cs', top', base) && p in cs && p in cs' && cs[p].prevLive
    ensures cs'[p].prevLive
  {
    assert ChunkOK(cs, base, top, p) && ChunkOK(cs', base, top', p);
    if p != base {
      var q := PrevChunk(cs, base, top, p);
      assert ChunkOK(cs, base, top, q);
      LiveInBoth(cs, top, cs', top', base, q);
      assert ChunkOK(cs', base, top', q);
    }
  }

  /** A free chunk of cs ends where a free chunk of cs' ends that does not start before it. */
  lemma FreeEndsInBoth(cs: Chunks, top: int, cs': Chunks, top': int, base: int, p: int) returns (q: int)
    requires SameLives(cs, top, cs', top', base) && p in cs && !cs[p].live
    ensures q in cs' && !cs'[q].live && End(cs', q) == End(cs, p) && p <= q
  {
    var n := End(cs, p);
    assert ChunkOK(cs, base, top, p);
    BelowTop(cs, base, top, n);
    LiveInBoth(cs, top, cs', top', base, n);
    SameLivesBack(cs, top, cs', top', base);
    if cs'[n].prevLive { PrevInBoth(cs', top', cs, top, base, n); }
    q := FreePrev(cs', base, top', n);
    BelowTop(cs', base, top', q);
    if p != base {
      FreeHasLivePrev(cs, base, top, p);
      var r := PrevChunk(cs, base, top, p);
      assert ChunkOK(cs, base, top, r);
      LiveInBoth(cs, top, cs', top', base, r);
      EndsDiffer(cs', base, top', q, r);
    }
    hide Wf;
  }

  lemma FreeInBoth(cs: Chunks, top: int, cs': Chunks, top': int, base: int, p: int)
    requires SameLives(cs, top, cs', top', base) && p in cs && !cs[p].live
    ensures p in cs' && cs'[p] == cs[p]
  {
    var q := FreeEndsInBoth(cs, top, cs', top', base, p);
    SameLivesBack(cs, top, cs', top', base);
    var p2 := FreeEndsInBoth(cs', top', cs, top, base, q);
    EndsDiffer(cs, base, top, p, p2);
    FreeHasLivePrev(cs, base, top, p);
    FreeHasLivePrev(cs', base, top', q);
    hide Wf;
  }

  lemma ChunkInBoth(cs: Chunks, top: int, cs': Chunks, top': int, base: int, p: int)
    requires SameLives(cs, top, cs', top', base) && p in cs
    ensures p in cs' && cs'[p] == cs[p]
  {
    if cs[p].live {
      LiveInBoth(cs, top, cs', top', base, p);
      SameLivesBack(cs, top, cs', top', base);
      if cs[p].prevLive { PrevInBoth(cs, top, cs', top', base, p); }
      if cs'[p].prevLive { PrevInBoth(cs', top', cs, top, base, p); }
    } else {
      FreeInBoth(cs, top, cs', top', base, p);
    }
  }

  /** The chunks in use determine every free chunk and the start of top. */
  lemma TilingDetermined(cs: Chunks, top: int, cs': Chunks, top': int, base: int)
    requires SameLives(cs, top, cs', top', base)
    ensures cs == cs' && top == top'
  {
    hide *;
    SameLivesBack(cs, top, cs', top', base);
    TopNotAbove(cs, top, cs', top', base);
    TopNotAbove(cs', top', cs, top, base);
    forall p | p in cs ensures p in cs' && cs'[p] == cs[p] {
      ChunkInBoth(cs, top, cs', top', base, p);
    }
    forall p | p in cs' ensures p in cs {
      ChunkInBoth(cs', top', cs, top, base, p);
    }
  }

  /** The same chunks, the same top, and the same free chunks to offer, be they binned or dv. */
  ghost predicate Agree(h: Heap, h': Heap) {
    h.cs == h'.cs && h.top == h'.top && FreeSizes(h) == FreeSizes(h')
  }

  /** Whatever malloc, free and realloc did, and in whatever order: two heaps with the same blocks
      in use agree, and only the size of top can differ, by what was trimmed. */
  lemma HeapsAgree(h: Heap, h': Heap)
    requires HeapInv(h) && HeapInv(h') && Lives(h.cs) == Lives(h'.cs)
    ensures Agree(h, h')
    ensures h.topsize - h'.topsize == (h.top + h.topsize) - (h'.top + h'.topsize)
  {
    TilingDetermined(h.cs, h.top, h'.cs, h'.top, HEAP_BASE);
    FreeAreOffered(h);
    FreeAreOffered(h');
  }

  /** What the bins and dv hold together. */
  ghost function FreeSizes(h: Heap): Sizes {
    if h.dvsize == 0 then h.binned else h.binned[h.dv := h.dvsize]
  }

  ghost function FreeChunks(cs: Chunks): Sizes {
    map p | p in cs && !cs[p].live :: cs[p].size
  }

  lemma FreeAreOffered(h: Heap)
    requires HeapInv(h)
    ensures FreeSizes(h) == FreeChunks(h.cs)
  {
    if 0 in h.cs { BelowTop(h.cs, HEAP_BASE, h.top, 0); }
    hide Wf, Tagged, TopOK;
    var a, b := FreeSizes(h), FreeChunks(h.cs);
    forall p ensures (p in a <==> p in b) && (p in a ==> a[p] == b[p]) {
    }
  }

  // ------------------------------------------------------- malloc and free leave no choice

  /** Given the chunk that malloc took, there is one heap it can leave behind. */
  lemma MallocDetermined(h: Heap, h1: Heap, h2: Heap, nb: int, p: int)
    requires HeapInv(h1) && HeapInv(h2) && h1.top + h1.topsize == h2.top + h2.topsize
    requires Grants(h.cs, h1.cs, p, nb) && Grants(h.cs, h2.cs, p, nb) && Tight(h.cs, h1.cs, p, nb)
    requires Tight(h.cs, h2.cs, p, nb)
    requires DvAfter(h, nb, p, h1.dv, h1.dvsize) && DvAfter(h, nb, p, h2.dv, h2.dvsize)
    ensures h1 == h2.(mem := h1.mem)
  {
    HeapsAgree(h1, h2);
    SameBinned(h1, h2);
  }

  /** There is one heap that free can leave behind. */
  lemma FreeDetermined(h: Heap, h1: Heap, h2: Heap, p: int)
    requires HeapInv(h1) && HeapInv(h2) && h1.top + h1.topsize == h2.top + h2.topsize
    requires Lives(h1.cs) == Lives(h.cs) - {p} == Lives(h2.cs) && 0 <= h.dvsize
    requires DvCovers(h.dv, h.dvsize, h1.dv, h1.dvsize, h1.top) && DvCovers(h.dv, h.dvsize, h2.dv, h2.dvsize, h2.top)
    ensures h1 == h2.(mem := h1.mem)
  {
    HeapsAgree(h1, h2);
    DvInTiling(h1);
    DvInTiling(h2);
    if h1.dv != 0 && h2.dv != 0 { EndsDiffer(h1.cs, HEAP_BASE, h1.top, h1.dv, h2.dv); }
    SameBinned(h1, h2);
  }

  lemma DvInTiling(h: Heap)
    requires HeapInv(h)
    ensures if h.dv == 0 then h.dvsize == 0 else h.dv in h.cs && h.cs[h.dv].size == h.dvsize && h.dv + h.dvsize <= h.top
  {
    if h.dv != 0 { BelowTop(h.cs, HEAP_BASE, h.top, h.dv); }
    DvFacts(h);
  }

  lemma SameBinned(h1: Heap, h2: Heap)
    requires HeapInv(h1) && HeapInv(h2) && FreeSizes(h1) == FreeSizes(h2)
    ensures h1.dv == h2.dv && h1.dvsize == h2.dvsize ==> h1.binned == h2.binned
  {
    assert h1.dv !in h1.binned && h2.dv !in h2.binned;
    if h1.dv == h2.dv && h1.dvsize == h2.dvsize {
      forall x ensures (x in h1.binned <==> x in h2.binned) && (x in h1.binned ==> h1.binned[x] == h2.binned[x]) {
        assert x in FreeSizes(h1) <==> x in FreeSizes(h2);
      }
    }
  }

  // ------------------------------------------------------------------------ runs of frees

  /** What free promises of the heap when it is given the block at p. */
  ghost predicate Freed(h: Heap, h': Heap, p: int) {
    HeapInv(h') && p in Lives(h.cs) && Lives(h'.cs) == Lives(h.cs) - {p}
  }

  /** The blocks ps freed one after another. */
  ghost predicate FreeRun(hs: seq<Heap>, ps: seq<int>) {
    && |hs| == |ps| + 1 && HeapInv(hs[0])
    && forall i | 0 <= i < |ps| :: Freed(hs[i], hs[i + 1], ps[i])
  }

  ghost function Elements(ps: seq<int>): set<int> {
    set p | p in ps
  }

  lemma {:induction false} FreeRunLives(hs: seq<Heap>, ps: seq<int>)
    requires FreeRun(hs, ps)
    ensures HeapInv(hs[|ps|]) && Lives(hs[|ps|].cs) == Lives(hs[0].cs) - Elements(ps)
  {
    if ps != [] {
      var n := |ps| - 1;
      assert Freed(hs[n], hs[n + 1], ps[n]);
      FreeRunLives(hs[..|ps|], ps[..n]);
      assert ps == ps[..n] + [ps[n]];
      assert Elements(ps) == Elements(ps[..n]) + {ps[n]};
    }
  }

  /** The order of frees does not matter: blocks freed in one order and in another leave heaps that
      agree, however often each of the two runs was trimmed. */
  lemma OrderIrrelevant(hs: seq<Heap>, ps: seq<int>, hs': seq<Heap>, ps': seq<int>)
    requires FreeRun(hs, ps) && FreeRun(hs', ps') && multiset(ps) == multiset(ps')
    requires Lives(hs[0].cs) == Lives(hs'[0].cs)
    ensures Agree(hs[|ps|], hs'[|ps'|])
  {
    FreeRunLives(hs, ps);
    FreeRunLives(hs', ps');
    forall p ensures p in Elements(ps) <==> p in Elements(ps') {
      assert p in ps <==> p in multiset(ps);
      assert p in ps' <==> p in multiset(ps');
    }
    assert Elements(ps) == Elements(ps');
    HeapsAgree(hs[|ps|], hs'[|ps'|]);
  }

  /** What a bulk free of ps leaves agrees with what single frees leave, in any order. */
  lemma BulkIsFrees(hs: seq<Heap>, ps: seq<int>, h': Heap, freed: set<int>)
    requires FreeRun(hs, ps) && freed == Elements(ps)
    requires HeapInv(h') && Lives(h'.cs) == Lives(hs[0].cs) - freed
    ensures Agree(hs[|ps|], h')
  {
    FreeRunLives(hs, ps);
    HeapsAgree(hs[|ps|], h');
  }

  /** In a run no block is freed twice. */
  lemma FreeRunDistinct(hs: seq<Heap>, ps: seq<int>, i: nat, j: nat)
    requires FreeRun(hs, ps) && i < j < |ps|
    ensures ps[i] != ps[j]
  {
    var before := ps[..j];
    assert FreeRun(hs[..j + 1], before);
    FreeRunLives(hs[..j + 1], before);
    assert Freed(hs[j], hs[j + 1], ps[j]);
    assert before[i] in Elements(before);
  }

  lemma FreeRunStart(h: Heap)
    requires HeapInv(h)
    ensures FreeRun([h], [])
  {
  }

  lemma FreeRunStep(hs: seq<Heap>, ps: seq<int>, h': Heap, p: int)
    requires FreeRun(hs, ps) && Freed(hs[|ps|], h', p)
    ensures FreeRun(hs + [h'], ps + [p])
  {
  }
}
