/** Putting free space to use: whole chunks, the first part of a chunk, and the bottom of top. */
module Carving {
  import opened Words
  import opened Bins
  import opened Tiling
  import opened HeapState
  import opened Coalesce

  lemma InvParts(h: Heap)
    requires HeapInv(h)
    ensures Wf(h.cs, HEAP_BASE, h.top) && Tagged(h.mem, h.cs) && TopOK(h.mem, h.top, h.topsize)
    ensures FreeFiled(h.cs, h.dv, h.dvsize, h.binned)
    ensures forall x | x in h.binned :: x in h.cs && !h.cs[x].live && h.cs[x].size == h.binned[x]
    ensures h.top <= HEAP_LIMIT
  {
  }

  lemma LooseParts(h: Heap, p: int)
    requires Loose(h, p)
    ensures Wf(h.cs, HEAP_BASE, h.top) && Tagged(h.mem, h.cs) && TopOK(h.mem, h.top, h.topsize)
    ensures p in h.cs && !h.cs[p].live && p !in h.binned && p != h.dv
    ensures FreeFiled(h.cs, h.dv, h.dvsize, h.binned[p := h.cs[p].size])
    ensures forall x | x in h.binned :: x in h.cs && !h.cs[x].live && h.cs[x].size == h.binned[x]
    ensures h.top <= HEAP_LIMIT && HEAP_BASE <= p && p % 8 == 0 && 16 <= h.cs[p].size && h.cs[p].size % 8 == 0
  {
    BelowTop(h.cs, HEAP_BASE, h.top, p);
    var b := h.binned[p := h.cs[p].size];
    hide Wf, TagOK, TopOK;
    forall x | x in h.binned ensures x in h.cs && !h.cs[x].live && h.cs[x].size == h.binned[x] {
      assert x in b;
    }
  }

  /** A binned chunk after it left its bin. */
  lemma Unfile(h: Heap, m1: Mem, p: int)
    requires HeapInv(h) && p in h.binned && BinsFrame(h.mem, m1, h.binned)
    ensures Loose(h.(mem := m1, binned := h.binned - {p}), p)
    ensures PayloadKept(h.mem, m1, Lives(h.cs)) && h.cs[p].size == h.binned[p]
  {
    hide *;
    InvParts(h);
    FrameKeeps(h.mem, m1, h.cs, h.top, h.topsize, h.binned);
    var h' := h.(mem := m1, binned := h.binned - {p});
    UnfiledFree(h, p);
    AllTagged(h.mem, m1, h.cs);
    MakeLoose(h', p);
  }

  lemma UnfiledFree(h: Heap, p: int)
    requires FreeFiled(h.cs, h.dv, h.dvsize, h.binned) && p in h.binned
    ensures p in h.cs && !h.cs[p].live && p != h.dv && h.cs[p].size == h.binned[p]
    ensures FreeFiled(h.cs, h.dv, h.dvsize, (h.binned - {p})[p := h.cs[p].size])
  {
    assert (h.binned - {p})[p := h.cs[p].size] == h.binned;
  }

  lemma AllTagged(m: Mem, m': Mem, cs: Chunks)
    requires Tagged(m, cs) && forall q | q in cs && TagOK(m, cs, q) :: TagOK(m', cs, q)
    ensures Tagged(m', cs)
  {
    hide TagOK;
  }

  /** dv given up as designated victim. */
  lemma DvLoose(h: Heap)
    requires HeapInv(h) && h.dvsize != 0
    ensures Loose(h.(dv := 0, dvsize := 0), h.dv) && h.cs[h.dv].size == h.dvsize
  {
    NullNotBinned(h);
    hide Wf, TagOK, TopOK;
  }

  /** A loose chunk chosen as designated victim. */
  lemma LooseDv(h: Heap, r: int)
    requires Loose(h, r) && h.dvsize == 0
    ensures HeapInv(h.(dv := r, dvsize := h.cs[r].size))
  {
    BelowTop(h.cs, HEAP_BASE, h.top, r);
    if 0 in h.cs { BelowTop(h.cs, HEAP_BASE, h.top, 0); }
    var b := h.binned[r := h.cs[r].size];
    hide Wf, TagOK, TopOK;
    forall x | x in h.binned ensures x in h.cs && !h.cs[x].live && h.cs[x].size == h.binned[x] {
      assert x in b;
    }
    forall x | x in h.cs && !h.cs[x].live ensures x in h.binned || x == r {
      assert x in b || x == h.dv;
    }
  }

  // ---------------------------------------------------------------- the whole chunk

  function Taken(h: Heap, p: int): Heap
    requires p in h.cs
  {
    h.(mem := SetInuseAndPinuse(h.mem, p, h.cs[p].size), cs := Take(h.cs, p))
  }

  lemma TakeWords(m: Mem, p: int, s: int, c: Chunk)
    requires 16 <= s && s % 8 == 0 && c.live && !c.prevLive && c.size % 8 == 0
    requires Head(m, p + s) == HeadWord(c.size, c.live, c.prevLive)
    ensures var m' := SetInuseAndPinuse(m, p, s);
            && Head(m', p) == HeadWord(s, true, true)
            && Head(m', p + s) == HeadWord(c.size, true, true)
            && OnlyTags(m, m', {p, p + s}, {})
  {
    HeadWordFields(c.size, c.live, c.prevLive);
  }

  lemma TakeFacts(cs: Chunks, top: int, p: int)
    requires Wf(cs, HEAP_BASE, top) && p in cs && !cs[p].live
    ensures var n := End(cs, p);
            && n in cs && n == p + cs[p].size && n != p && cs[n].live && !cs[n].prevLive && cs[n].size % 8 == 0 &&
              n < top
            && p % 8 == 0 && n % 8 == 0 && 16 <= cs[p].size && cs[p].size % 8 == 0
            && Take(cs, p).Keys == cs.Keys
            && Take(cs, p)[p] == Chunk(cs[p].size, true, true)
            && Take(cs, p)[n] == Chunk(cs[n].size, true, true)
            && (forall q | q in cs && q != p && q != n :: Take(cs, p)[q] == cs[q])
            && Lives(Take(cs, p)) == Lives(cs)[p := cs[p].size]
  {
    var n := End(cs, p);
    assert ChunkOK(cs, HEAP_BASE, top, p);
    BelowTop(cs, HEAP_BASE, top, p);
    BelowTop(cs, HEAP_BASE, top, n);
    FreeHasLivePrev(cs, HEAP_BASE, top, p);
    hide Wf;
  }

  lemma TakeTags(m: Mem, cs: Chunks, top: int, p: int)
    requires Wf(cs, HEAP_BASE, top) && p in cs && !cs[p].live && Tagged(m, cs)
    ensures var m' := SetInuseAndPinuse(m, p, cs[p].size);
            && Tagged(m', Take(cs, p)) && OnlyTags(m, m', {p, End(cs, p)}, {})
  {
    hide *;
    var n := End(cs, p);
    var m', cs' := SetInuseAndPinuse(m, p, cs[p].size), Take(cs, p);
    TakeFacts(cs, top, p);
    TakeWf(cs, HEAP_BASE, top, p);
    EachTagged(m, cs);
    TagParts(m, cs, n);
    TakeWords(m, p, cs[p].size, cs[n]);
    MakeTag(m', cs', p);
    MakeTag(m', cs', n);
    SameTags(m, cs, cs', {p, n});
    Retag(m, m', cs', top, {p, n}, {});
  }

  lemma EachTagged(m: Mem, cs: Chunks)
    requires Tagged(m, cs)
    ensures forall q | q in cs :: TagOK(m, cs, q)
  {
  }

  lemma TakeLoose(h: Heap, p: int)
    requires Loose(h, p)
    ensures var h' := Taken(h, p);
            && HeapInv(h') && Lives(h'.cs) == Lives(h.cs)[p := h.cs[p].size]
            && PayloadKept(h.mem, h'.mem, Lives(h.cs)) && TagsOnly(h.mem, h'.mem, h.binned)
  {
    hide *;
    LooseParts(h, p);
    var n := End(h.cs, p);
    var m', cs' := SetInuseAndPinuse(h.mem, p, h.cs[p].size), Take(h.cs, p);
    var h' := Taken(h, p);
    TakenIs(h, p);
    TakeFacts(h.cs, h.top, p);
    TakeWf(h.cs, HEAP_BASE, h.top, p);
    TakeTags(h.mem, h.cs, h.top, p);
    RetagKeeps(h.mem, m', h.cs, h.top, {p, n}, {});
    TagsOutside(h.mem, m', h.cs, h.top, h.binned, {p, n}, {});
    LooseBelow(h, p, n);
    TopKept(h.mem, m', h.top, h.topsize, {p, n}, {});
    TakenFiled(h.cs, h.dv, h.dvsize, h.binned, p, cs');
    MakeInv(h');
  }

  lemma TakenIs(h: Heap, p: int)
    requires p in h.cs
    ensures Taken(h, p) == h.(mem := SetInuseAndPinuse(h.mem, p, h.cs[p].size), cs := Take(h.cs, p))
  {
  }

  lemma LooseBelow(h: Heap, p: int, n: int)
    requires Wf(h.cs, HEAP_BASE, h.top) && p in h.cs && n in h.cs
    ensures p < h.top && n < h.top
  {
    BelowTop(h.cs, HEAP_BASE, h.top, p);
    BelowTop(h.cs, HEAP_BASE, h.top, n);
  }

  lemma TakenFiled(cs: Chunks, dv: int, dvsize: int, binned: Sizes, p: int, cs': Chunks)
    requires p in cs && p !in binned && p != dv && FreeFiled(cs, dv, dvsize, binned[p := cs[p].size])
    requires cs'.Keys == cs.Keys && cs'[p].live
    requires forall q | q in cs && q != p :: cs'[q].live == cs[q].live && cs'[q].size == cs[q].size
    ensures FreeFiled(cs', dv, dvsize, binned)
  {
    var b := binned[p := cs[p].size];
    assert forall x | x in binned :: x in b;
    forall x | x in cs' && !cs'[x].live ensures x in binned || x == dv {
      assert x in b || x == dv;
    }
  }

  // ------------------------------------------------------- the first part of a chunk

  function Carved(h: Heap, p: int, nb: int): Heap
    requires p in h.cs
  {
    h.(mem := SetFree(SetInuseChunk(h.mem, p, nb), p + nb, h.cs[p].size - nb), cs := Carve(h.cs, p, nb))
  }

  lemma CarvedIs(h: Heap, p: int, nb: int)
    requires p in h.cs
    ensures Carved(h, p, nb) ==
            h.(mem := SetFree(SetInuseChunk(h.mem, p, nb), p + nb, h.cs[p].size - nb), cs := Carve(h.cs, p, nb))
  {
  }

  lemma CarveWords(m: Mem, p: int, nb: int, rs: int)
    requires 16 <= nb && 16 <= rs
    ensures var m' := SetFree(SetInuseChunk(m, p, nb), p + nb, rs);
            && Head(m', p) == HeadWord(nb, true, true) && Head(m', p + nb) == HeadWord(rs, false, true)
            && PrevFoot(m', p + nb + rs) == rs
            && OnlyTags(m, m', {p, p + nb}, {p + nb + rs})
  {
  }

  lemma CarveFacts(cs: Chunks, top: int, p: int, nb: int)
    requires Wf(cs, HEAP_BASE, top) && p in cs && !cs[p].live
    requires 16 <= nb && nb % 8 == 0 && 16 <= cs[p].size - nb
    ensures var r, n, cs' := p + nb, End(cs, p), Carve(cs, p, nb);
            && r !in cs && n <= top && n == p + cs[p].size && p % 8 == 0 && r % 8 == 0 && n % 8 == 0
            && cs'.Keys == cs.Keys + {r}
            && cs'[p] == Chunk(nb, true, true) && cs'[r] == Chunk(cs[p].size - nb, false, true)
            && (forall q | q in cs && q != p :: cs'[q] == cs[q] && End(cs', q) != n)
            && Lives(cs') == Lives(cs)[p := nb]
  {
    var n := End(cs, p);
    BelowTop(cs, HEAP_BASE, top, p);
    CarveWf(cs, HEAP_BASE, top, p, nb);
    forall q | q in cs && q != p ensures Carve(cs, p, nb)[q] == cs[q] && End(Carve(cs, p, nb), q) != n {
      EndsDiffer(cs, HEAP_BASE, top, p, q);
    }
    hide Wf;
  }

  lemma CarveTags(m: Mem, cs: Chunks, top: int, p: int, nb: int)
    requires Wf(cs, HEAP_BASE, top) && p in cs && !cs[p].live && Tagged(m, cs)
    requires 16 <= nb && nb % 8 == 0 && 16 <= cs[p].size - nb
    ensures var rs := cs[p].size - nb;
            var m' := SetFree(SetInuseChunk(m, p, nb), p + nb, rs);
            && Tagged(m', Carve(cs, p, nb)) && OnlyTags(m, m', {p, p + nb}, {End(cs, p)})
  {
    hide *;
    var r, n, rs := p + nb, End(cs, p), cs[p].size - nb;
    var m', cs' := SetFree(SetInuseChunk(m, p, nb), r, rs), Carve(cs, p, nb);
    CarveFacts(cs, top, p, nb);
    CarveWf(cs, HEAP_BASE, top, p, nb);
    CarveWords(m, p, nb, rs);
    EachTagged(m, cs);
    MakeTag(m', cs', p);
    MakeTag(m', cs', r);
    SameTags(m, cs, cs', {p, r});
    Retag(m, m', cs', top, {p, r}, {n});
  }

  lemma CarveLoose(h: Heap, p: int, nb: int)
    requires Loose(h, p) && 16 <= nb && nb % 8 == 0 && 16 <= h.cs[p].size - nb
    ensures var h', r := Carved(h, p, nb), p + nb;
            && Loose(h', r) && Lives(h'.cs) == Lives(h.cs)[p := nb]
            && PayloadKept(h.mem, h'.mem, Lives(h.cs)) && TagsOnly(h.mem, h'.mem, h.binned)
            && r in h'.cs && h'.cs[r].size == h.cs[p].size - nb
  {
    hide *;
    LooseParts(h, p);
    var r, n := p + nb, End(h.cs, p);
    var m', cs' := SetFree(SetInuseChunk(h.mem, p, nb), r, h.cs[p].size - nb), Carve(h.cs, p, nb);
    var h' := Carved(h, p, nb);
    CarvedIs(h, p, nb);
    CarveFacts(h.cs, h.top, p, nb);
    CarveWf(h.cs, HEAP_BASE, h.top, p, nb);
    CarveTags(h.mem, h.cs, h.top, p, nb);
    CarveInside(h, p, nb);
    CarveKeeps(h.mem, m', h.cs, h.top, p, nb);
    CarveOutside(h.mem, m', h.cs, h.top, h.binned, p, nb);
    TopKept(h.mem, m', h.top, h.topsize, {p, r}, {n});
    CarvedFiled(h.cs, h.dv, h.dvsize, h.binned, p, r, cs');
    MakeLoose(h', r);
  }

  lemma CarveInside(h: Heap, p: int, nb: int)
    requires Wf(h.cs, HEAP_BASE, h.top) && p in h.cs && !h.cs[p].live && 16 <= nb && 16 <= h.cs[p].size - nb
    ensures p < h.top && p + nb < h.top && End(h.cs, p) <= h.top && p + nb != 0 && nb != 0
  {
    BelowTop(h.cs, HEAP_BASE, h.top, p);
  }

  /** What happens inside a free chunk does not touch a payload. */
  lemma CarveKeeps(m: Mem, m': Mem, cs: Chunks, top: int, p: int, nb: int)
    requires Wf(cs, HEAP_BASE, top) && p in cs && !cs[p].live && 16 <= nb && 16 <= cs[p].size - nb
    requires OnlyTags(m, m', {p, p + nb}, {End(cs, p)})
    ensures PayloadKept(m, m', Lives(cs))
  {
    forall q | q in Lives(cs) ensures SameWords(m, m', q + 8, q + Lives(cs)[q] + 4) {
      EndsDiffer(cs, HEAP_BASE, top, p, q);
      BelowTop(cs, HEAP_BASE, top, q);
    }
  }

  lemma CarveOutside(m: Mem, m': Mem, cs: Chunks, top: int, binned: Sizes, p: int, nb: int)
    requires Wf(cs, HEAP_BASE, top) && p in cs && p !in binned && 16 <= nb && 16 <= cs[p].size - nb
    requires forall x | x in binned :: x in cs && cs[x].size == binned[x]
    requires OnlyTags(m, m', {p, p + nb}, {End(cs, p)})
    ensures TagsOnly(m, m', binned)
  {
    BelowTop(cs, HEAP_BASE, top, p);
    forall a ensures Rd(m', a) == Rd(m, a) || OutsideBins(binned, a) {
      if a == p + 4 || a == p + nb + 4 || a == End(cs, p) {
        forall x | x in binned ensures !(x + 4 <= a < x + binned[x]) {
          EndsDiffer(cs, HEAP_BASE, top, p, x);
        }
      }
    }
  }

  lemma CarvedFiled(cs: Chunks, dv: int, dvsize: int, binned: Sizes, p: int, r: int, cs': Chunks)
    requires p in cs && p !in binned && p != dv && FreeFiled(cs, dv, dvsize, binned[p := cs[p].size])
    requires r !in cs && cs'.Keys == cs.Keys + {r} && cs'[p].live && !cs'[r].live && r != 0 && p != r
    requires forall q | q in cs && q != p :: cs'[q] == cs[q]
    ensures FreeFiled(cs', dv, dvsize, binned[r := cs'[r].size]) && r !in binned && r != dv
  {
    var b := binned[p := cs[p].size];
    assert forall x | x in binned :: x in b;
    forall x | x in cs' && !cs'[x].live ensures x in binned[r := cs'[r].size] || x == dv {
      if x != r { assert x in b || x == dv; }
    }
  }

  // -------------------------------------------------------------------- replace_dv

  /** The old dv filed in its bin while r is still loose. */
  lemma FileDv(h: Heap, m2: Mem, r: int)
    requires Loose(h, r) && h.dvsize != 0
    requires BinsFrame(h.mem, m2, h.binned[h.dv := h.dvsize])
    ensures Loose(h.(mem := m2, binned := h.binned[h.dv := h.dvsize], dv := 0, dvsize := 0), r)
    ensures PayloadKept(h.mem, m2, Lives(h.cs))
  {
    hide *;
    LooseParts(h, r);
    DvFiled(h, r);
    var b := h.binned[h.dv := h.dvsize];
    FrameKeeps(h.mem, m2, h.cs, h.top, h.topsize, b);
    AllTagged(h.mem, m2, h.cs);
    MakeLoose(h.(mem := m2, binned := b, dv := 0, dvsize := 0), r);
  }

  lemma DvFiled(h: Heap, r: int)
    requires Loose(h, r) && h.dvsize != 0
    ensures var b := h.binned[h.dv := h.dvsize];
            && h.dv in h.cs && !h.cs[h.dv].live && h.cs[h.dv].size == h.dvsize && h.dv !in h.binned && r !in b && r != 0
            && (forall x | x in b :: x in h.cs && !h.cs[x].live && h.cs[x].size == b[x])
            && FreeFiled(h.cs, 0, 0, b[r := h.cs[r].size])
  {
    LooseParts(h, r);
    BelowTop(h.cs, HEAP_BASE, h.top, h.dv);
    hide Wf, TagOK, TopOK, Tagged;
    var b0, b := h.binned[r := h.cs[r].size], h.binned[h.dv := h.dvsize];
    forall x | x in h.cs && !h.cs[x].live ensures x in b[r := h.cs[r].size] {
      assert x in b0 || x == h.dv;
    }
    if 0 in h.cs { BelowTop(h.cs, HEAP_BASE, h.top, 0); }
  }

  /** The chunk dv may be filed: it does not overlap the binned ones. */
  lemma DvBlock(h: Heap, r: int)
    requires Loose(h, r) && h.dvsize != 0
    ensures h.dv !in h.binned && Blocks(h.binned[h.dv := h.dvsize])
  {
    DvFiled(h, r);
    LooseParts(h, r);
    hide Loose;
    BlocksFromTiling(h.cs, h.top, h.binned[h.dv := h.dvsize]);
  }

  // ------------------------------------------------------------------ the top chunk

  function TopSplit(h: Heap, nb: int): Heap {
    h.(mem := h.mem[h.top + nb + 4 := h.topsize - nb + 1][h.top + 4 := nb + 3],
       cs := TakeTop(h.cs, h.top, nb), top := h.top + nb, topsize := h.topsize - nb)
  }

  lemma TopSplitIs(h: Heap, nb: int)
    ensures TopSplit(h, nb) ==
            Heap(h.mem[h.top + nb + 4 := h.topsize - nb + 1][h.top + 4 := nb + 3],
                 TakeTop(h.cs, h.top, nb), h.top + nb, h.topsize - nb, h.dv, h.dvsize, h.binned)
  {
  }

  lemma TopWords(m: Mem, top: int, topsize: int, nb: int)
    requires TopOK(m, top, topsize) && 16 <= nb < topsize && (topsize - nb) % 8 == 0
    ensures var m' := m[top + nb + 4 := topsize - nb + 1][top + 4 := nb + 3];
            && TopOK(m', top + nb, topsize - nb)
            && Head(m', top) == nb + 3
            && OnlyTags(m, m', {top, top + nb}, {})
  {
    hide *;
    var m' := m[top + nb + 4 := topsize - nb + 1][top + 4 := nb + 3];
    TopParts(m, top, topsize);
    TwoHeads(m, top, nb, topsize - nb + 1, nb + 3, top + topsize);
    MakeTop(m', top + nb, topsize - nb);
  }

  lemma TwoHeads(m: Mem, top: int, nb: int, v: int, w: int, a: int)
    requires 16 <= nb && a > top + nb
    ensures var m' := m[top + nb + 4 := v][top + 4 := w];
            && Head(m', top + nb) == v && Head(m', top) == w && Head(m', a) == Head(m, a)
            && OnlyTags(m, m', {top, top + nb}, {})
  {
  }

  lemma TopTags(m: Mem, m': Mem, cs: Chunks, top: int, nb: int)
    requires Wf(cs, HEAP_BASE, top) && Tagged(m, cs) && 16 <= nb && nb % 8 == 0
    requires (top + nb) % 8 == 0 && OnlyTags(m, m', {top, top + nb}, {}) && Head(m', top) == nb + 3
    ensures Tagged(m', TakeTop(cs, top, nb)) && Wf(TakeTop(cs, top, nb), HEAP_BASE, top + nb)
  {
    hide *;
    TakeTopWf(cs, HEAP_BASE, top, nb);
    TopNotChunk(TakeTop(cs, top, nb), HEAP_BASE, top + nb);
    TopAligned(cs, top);
    EachTagged(m, cs);
    TakeTopKeeps(cs, top, nb);
    SameTags(m, cs, TakeTop(cs, top, nb), {top});
    TopTag(m', cs, top, nb);
    Retag(m, m', TakeTop(cs, top, nb), top + nb, {top, top + nb}, {});
  }

  lemma TopAligned(cs: Chunks, top: int)
    requires Wf(cs, HEAP_BASE, top)
    ensures top % 8 == 0
  {
  }

  lemma TakeTopKeeps(cs: Chunks, top: int, nb: int)
    ensures forall q | q in TakeTop(cs, top, nb) && q != top :: q in cs && TakeTop(cs, top, nb)[q] == cs[q]
  {
  }

  lemma TopTag(m': Mem, cs: Chunks, top: int, nb: int)
    requires Head(m', top) == nb + 3
    ensures top in TakeTop(cs, top, nb) && TagOK(m', TakeTop(cs, top, nb), top)
  {
  }

  lemma TopFiled(h: Heap, nb: int)
    requires FreeFiled(h.cs, h.dv, h.dvsize, h.binned) && h.top !in h.cs
    ensures FreeFiled(TakeTop(h.cs, h.top, nb), h.dv, h.dvsize, h.binned)
    ensures Lives(TakeTop(h.cs, h.top, nb)) == Lives(h.cs)[h.top := nb]
  {
  }

  lemma SplitTop(h: Heap, nb: int)
    requires HeapInv(h) && 16 <= nb < h.topsize && nb % 8 == 0
    ensures var h' := TopSplit(h, nb);
            && HeapInv(h') && Lives(h'.cs) == Lives(h.cs)[h.top := nb] && h.top !in h.cs
            && PayloadKept(h.mem, h'.mem, Lives(h.cs)) && TagsOnly(h.mem, h'.mem, h.binned)
  {
    hide *;
    InvParts(h);
    var h' := TopSplit(h, nb);
    TopSplitIs(h, nb);
    TopSizes(h, nb);
    TopWords(h.mem, h.top, h.topsize, nb);
    TopTags(h.mem, h'.mem, h.cs, h.top, nb);
    TopFiled(h, nb);
    RetagKeeps(h.mem, h'.mem, h.cs, h.top, {h.top, h.top + nb}, {});
    TagsOutside(h.mem, h'.mem, h.cs, h.top, h.binned, {h.top, h.top + nb}, {});
    MakeInv(h');
  }

  lemma TopSizes(h: Heap, nb: int)
    requires Wf(h.cs, HEAP_BASE, h.top) && TopOK(h.mem, h.top, h.topsize) && nb % 8 == 0
    ensures (h.topsize - nb) % 8 == 0 && (h.top + nb) % 8 == 0 && h.top !in h.cs && HEAP_BASE <= h.top && h.top % 8 == 0
  {
    TopNotChunk(h.cs, HEAP_BASE, h.top);
    TopAboveBase(h.cs, h.top);
  }

  // ------------------------------------------------------------------ what malloc gives

  /** From tiling cs to tiling cs' exactly one chunk p came into use, of a size that fits nb. */
  ghost predicate Grants(cs: Chunks, cs': Chunks, p: int, nb: int) {
    && p in cs' && cs'[p].live && p !in Lives(cs)
    && nb <= cs'[p].size < nb + MIN_CHUNK_SIZE
    && Lives(cs') == Lives(cs)[p := cs'[p].size]
  }

  /** And no more of a free chunk was taken than had to be: all of it only if the rest could not be a
      chunk. */
  ghost predicate Tight(cs: Chunks, cs': Chunks, p: int, nb: int) {
    p in cs' && cs'[p].size == if p in cs && cs[p].size < nb + MIN_CHUNK_SIZE then cs[p].size else nb
  }

  lemma GrantWhole(cs: Chunks, cs': Chunks, p: int, s: int, nb: int)
    requires p in cs && !cs[p].live && Lives(cs') == Lives(cs)[p := s] && nb <= s < nb + 16 && cs[p].size == s
    ensures Grants(cs, cs', p, nb) && Tight(cs, cs', p, nb)
  {
    assert p in Lives(cs') && Lives(cs')[p] == s;
  }

  lemma GrantPart(cs: Chunks, cs': Chunks, p: int, nb: int)
    requires p !in cs || (!cs[p].live && nb + 16 <= cs[p].size)
    requires Lives(cs') == Lives(cs)[p := nb]
    ensures Grants(cs, cs', p, nb) && Tight(cs, cs', p, nb)
  {
    assert p in Lives(cs') && Lives(cs')[p] == nb;
  }

  /** Payload kept through two steps, the first of which took p into use. */
  lemma KeptWith(m: Mem, m1: Mem, m2: Mem, lives: Sizes, p: int, s: int)
    requires PayloadKept(m, m1, lives) && PayloadKept(m1, m2, lives[p := s]) && p !in lives
    ensures PayloadKept(m, m2, lives)
  {
    forall q | q in lives ensures SameWords(m, m2, q + 8, q + lives[q] + 4) {
      assert SameWords(m, m1, q + 8, q + lives[q] + 4);
      assert SameWords(m1, m2, q + 8, q + lives[p := s][q] + 4);
    }
  }

  // ---------------------------------------------------------------- sizes of requests

  const MAX_REQUEST := 0xFFFF_FFC0
  const MAX_SMALL_REQUEST := 244
  const MIN_REQUEST := 11

  /** pad_request: room for the overhead, rounded up to the alignment. */
  function PadRequest(req: int): int { (req + 11) % TWO32 / 8 * 8 }

  function Request2Size(req: int): int { if req < MIN_REQUEST then MIN_CHUNK_SIZE else PadRequest(req) }

  /** The chunk for a request is the least one with room for it and the overhead. */
  lemma RequestSizes(req: int)
    requires 0 <= req < MAX_REQUEST
    ensures var nb := Request2Size(req);
            && 16 <= nb < TWO32 && nb % 8 == 0 && req + 4 <= nb && (nb == 16 || nb <= req + 11)
            && (req <= MAX_SMALL_REQUEST <==> nb < 256)
            && (req <= MAX_SMALL_REQUEST <==> req <= 244) && (11 <= req ==> nb == PadRequest(req))
  {
  }

  /** No binned chunk, no free chunk, is large enough. */
  ghost predicate NoneBinned(binned: Sizes, nb: int) {
    forall x | x in binned :: binned[x] < nb
  }

  /** A binned chunk that fits, and no binned chunk fits better. */
  ghost predicate LeastFit(binned: Sizes, nb: int, p: int) {
    p in binned && nb <= binned[p] && forall x | x in binned && nb <= binned[x] :: binned[p] <= binned[x]
  }

  /** From this size on a binned chunk is no better than a dv that fits: a small request prefers a
      small bin when nothing would remain, a large one any chunk that is smaller than dv. */
  function Preferred(h: Heap, nb: int): int {
    if nb >= 256 then h.dvsize else if nb + 16 < 256 then nb + 16 else 256
  }

  /** The bins have nothing that is better than dv, or than top and the system when dv does not fit. */
  ghost predicate LeftToRest(h: Heap, nb: int) {
    if nb <= h.dvsize then forall x | x in h.binned && nb <= h.binned[x] :: Preferred(h, nb) <= h.binned[x]
    else NoneBinned(h.binned, nb)
  }

  /** Where dlmalloc takes nb bytes from: the best binned chunk, unless dv is preferred to it; else the
      bottom of top, grown if need be. */
  ghost predicate Placed(h: Heap, nb: int, p: int) {
    if p in h.binned then LeastFit(h.binned, nb, p) && (nb <= h.dvsize ==> h.binned[p] < Preferred(h, nb))
    else LeftToRest(h, nb) && p == if nb <= h.dvsize then h.dv else if h.top == 0 then HEAP_BASE else h.top
  }

  /** When dv fits, a binned chunk is taken instead only from the bin of a small request or the next one, or
      when it is large and closer in size. */
  lemma PlacedMeans(h: Heap, nb: int, p: int)
    requires Placed(h, nb, p) && nb <= h.dvsize
    ensures p in h.binned && nb < 256 ==> nb <= h.binned[p] < nb + 16 && h.binned[p] < 256
    ensures p in h.binned && 256 <= nb ==> nb <= h.binned[p] < h.dvsize
    ensures p !in h.binned ==> p == h.dv
    ensures p !in h.binned && nb < 256 ==>
              forall x | x in h.binned && nb <= h.binned[x] :: nb + 16 <= h.binned[x] || 256 <= h.binned[x]
    ensures p !in h.binned && 256 <= nb ==> forall x | x in h.binned && nb <= h.binned[x] :: h.dvsize <= h.binned[x]
  {
  }

  /** What becomes of dv: a small request that splits a binned chunk makes the remainder the new dv, dv
      itself shrinks to its remainder or is used up, and nothing else changes dv. */
  ghost predicate DvAfter(h: Heap, nb: int, p: int, dv: int, dvsize: int) {
    if p in h.binned then
      if nb < 256 && nb + 16 <= h.binned[p] then dv == p + nb && dvsize == h.binned[p] - nb
      else dv == h.dv && dvsize == h.dvsize
    else if nb <= h.dvsize then
      if nb + 16 <= h.dvsize then dv == p + nb && dvsize == h.dvsize - nb else dv == 0 && dvsize == 0
    else dv == h.dv && dvsize == h.dvsize
  }

  lemma DvAfterIs(h: Heap, nb: int, p: int, dv: int, dvsize: int)
    ensures DvAfter(h, nb, p, dv, dvsize) <==>
              if p in h.binned then
                if nb < 256 && nb + 16 <= h.binned[p] then dv == p + nb && dvsize == h.binned[p] - nb
                else dv == h.dv && dvsize == h.dvsize
              else if nb <= h.dvsize then
                if nb + 16 <= h.dvsize then dv == p + nb && dvsize == h.dvsize - nb else dv == 0 && dvsize == 0
              else dv == h.dv && dvsize == h.dvsize
  {
  }

  lemma DvAfterBinned(h: Heap, nb: int, p: int, dv: int, dvsize: int)
    requires p in h.binned && nb < 256
    requires if nb + 16 <= h.binned[p] then dv == p + nb && dvsize == h.binned[p] - nb
             else dv == h.dv && dvsize == h.dvsize
    ensures DvAfter(h, nb, p, dv, dvsize)
  {
  }

  lemma PlacedInRest(h: Heap, nb: int, p: int)
    requires h.binned == map[] || HeapInv(h)
    requires LeftToRest(h, nb) && p == if nb <= h.dvsize then h.dv else if h.top == 0 then HEAP_BASE else h.top
    requires 16 <= nb && (nb <= h.dvsize || h.top != 0 || h.binned == map[])
    ensures Placed(h, nb, p) && p !in h.binned
  {
    if HeapInv(h) {
      TopNotChunk(h.cs, HEAP_BASE, h.top);
      assert h.top !in h.binned && h.dv !in h.binned;
    }
  }

  ghost predicate NoRoom(h: Heap, nb: int) {
    (forall x | x in h.cs && !h.cs[x].live :: h.cs[x].size < nb) && h.topsize <= nb
  }

  lemma NothingFits(h: Heap, nb: int)
    requires h.cs == map[] || HeapInv(h)
    requires NoneBinned(h.binned, nb) && h.dvsize < nb && h.topsize <= nb
    ensures NoRoom(h, nb)
  {
    if HeapInv(h) {
      forall x | x in h.cs && !h.cs[x].live ensures h.cs[x].size < nb {
        assert x in h.binned || x == h.dv;
        if x == h.dv { BelowTop(h.cs, HEAP_BASE, h.top, x); }
      }
    }
  }
}
