/** The segment as a tiling by chunks, and the ways the allocator re-cuts it. */
module Tiling {

  /** A chunk of the segment: its size, its own in-use bit and that of the chunk before it. */
  datatype Chunk = Chunk(size: int, live: bool, prevLive: bool)

  /** Chunks by address. The chunk top is not among them. */
  type Chunks = map<int, Chunk>

  function End(cs: Chunks, p: int): int
    requires p in cs
  {
    p + cs[p].size
  }

  /** What do_check_inuse_chunk and do_check_free_chunk ask of a chunk and its successor:
      aligned, large enough, inside the segment; the successor knows whether this chunk is in
      use; not both are free; the chunk before top is in use. */
  ghost predicate ChunkOK(cs: Chunks, base: int, top: int, p: int)
    requires p in cs
  {
    var n := End(cs, p);
    && base <= p && p % 8 == 0 && 16 <= cs[p].size && cs[p].size % 8 == 0 && n <= top
    && (p == base ==> cs[p].prevLive)
    && (if n == top then cs[p].live
        else n in cs && cs[n].prevLive == cs[p].live && (cs[p].live || cs[n].live))
  }

  ghost predicate NoOverlap(cs: Chunks) {
    forall p, q | p in cs && q in cs && p < q :: End(cs, p) <= q
  }

  /** The chunks tile [base, top), and each is in order with its neighbours. */
  ghost predicate Wf(cs: Chunks, base: int, top: int) {
    && base % 8 == 0 && top % 8 == 0 && base <= top
    && (base == top || base in cs)
    && NoOverlap(cs)
    && (forall p {:trigger ChunkOK(cs, base, top, p)} | p in cs :: ChunkOK(cs, base, top, p))
  }

  // ------------------------------------------------------------------ neighbours

  /** The greatest chunk address below p. */
  lemma {:induction false} GreatestBelow(s: set<int>, p: int, x: int) returns (q: int)
    requires x in s && x < p
    ensures q in s && q < p
    ensures forall y | y in s && y < p :: y <= q
  {
    var rest := s - {x};
    if y :| y in rest && y < p {
      var g := GreatestBelow(rest, p, y);
      q := if g < x then x else g;
      assert forall z | z in s && z < p :: z == x || z in rest;
    } else {
      q := x;
      assert forall z | z in s && z < p :: z == x || z in rest;
    }
  }

  /** Every chunk but the first, and top, has a chunk that ends where it starts. */
  lemma PrevChunk(cs: Chunks, base: int, top: int, p: int) returns (q: int)
    requires Wf(cs, base, top) && (p in cs || p == top) && p != base
    ensures q in cs && End(cs, q) == p && q < p
  {
    if p in cs { assert ChunkOK(cs, base, top, p); }
    assert base in cs && base < p;
    q := GreatestBelow(cs.Keys, p, base);
    assert ChunkOK(cs, base, top, q);
    assert End(cs, q) <= p;
  }

  /** A free chunk follows a chunk in use, or is the first. */
  lemma FreeHasLivePrev(cs: Chunks, base: int, top: int, p: int)
    requires Wf(cs, base, top) && p in cs && !cs[p].live
    ensures cs[p].prevLive
  {
    assert ChunkOK(cs, base, top, p);
    if p != base {
      var q := PrevChunk(cs, base, top, p);
      assert ChunkOK(cs, base, top, q);
    }
  }

  /** A chunk whose pinuse bit is clear has a free chunk before it. */
  lemma FreePrev(cs: Chunks, base: int, top: int, p: int) returns (q: int)
    requires Wf(cs, base, top) && p in cs && !cs[p].prevLive
    ensures q in cs && End(cs, q) == p && !cs[q].live && q < p
  {
    assert ChunkOK(cs, base, top, p);
    q := PrevChunk(cs, base, top, p);
    assert ChunkOK(cs, base, top, q);
  }

  // --------------------------------------------------------------------- re-cuts

  function WithPrev(cs: Chunks, p: int, prevLive: bool): Chunks {
    if p in cs then cs[p := cs[p].(prevLive := prevLive)] else cs
  }

  /** A free chunk put to use whole. */
  function Take(cs: Chunks, p: int): Chunks
    requires p in cs
  {
    WithPrev(cs[p := cs[p].(live := true)], End(cs, p), true)
  }

  /** A chunk in use, between chunks in use, set free. */
  function Release(cs: Chunks, p: int): Chunks
    requires p in cs
  {
    WithPrev(cs[p := cs[p].(live := false)], End(cs, p), false)
  }

  /** A chunk in use cut in two chunks in use, the first of size nb. */
  function Split(cs: Chunks, p: int, nb: int): Chunks
    requires p in cs
  {
    cs[p := cs[p].(size := nb)][p + nb := Chunk(cs[p].size - nb, true, true)]
  }

  /** A chunk in use and the free chunk behind it joined to one in use. */
  function JoinNext(cs: Chunks, p: int): Chunks
    requires p in cs && End(cs, p) in cs
  {
    var n := End(cs, p);
    WithPrev((cs - {n})[p := cs[p].(size := cs[p].size + cs[n].size)], End(cs, n), true)
  }

  /** A free chunk and the chunk p in use behind it joined to one in use. */
  function JoinPrev(cs: Chunks, q: int): Chunks
    requires q in cs && End(cs, q) in cs
  {
    var p := End(cs, q);
    (cs - {p})[q := Chunk(cs[q].size + cs[p].size, true, cs[q].prevLive)]
  }

  /** Same cuts: only in-use bits differ. */
  lemma SameCuts(cs: Chunks, cs': Chunks)
    requires NoOverlap(cs) && cs'.Keys == cs.Keys
    requires forall q | q in cs :: cs'[q].size == cs[q].size
    ensures NoOverlap(cs')
  {
    forall p, q | p in cs' && q in cs' && p < q ensures End(cs', p) <= q {
      assert p in cs && q in cs;
    }
  }

  /** Two chunks do not end at the same place. */
  lemma EndsDiffer(cs: Chunks, base: int, top: int, p: int, q: int)
    requires Wf(cs, base, top) && p in cs && q in cs
    ensures p != q ==> End(cs, p) != End(cs, q)
    ensures p < q ==> End(cs, p) <= q
    ensures q < p ==> End(cs, q) <= p
  {
    assert ChunkOK(cs, base, top, p) && ChunkOK(cs, base, top, q);
  }

  lemma TakeChunk(cs: Chunks, base: int, top: int, p: int, q: int)
    requires Wf(cs, base, top) && p in cs && !cs[p].live && q in cs
    ensures q in Take(cs, p) && ChunkOK(Take(cs, p), base, top, q)
  {
    assert ChunkOK(cs, base, top, p) && ChunkOK(cs, base, top, q);
    EndsDiffer(cs, base, top, p, q);
    hide Wf;
  }

  lemma TakeWf(cs: Chunks, base: int, top: int, p: int)
    requires Wf(cs, base, top) && p in cs && !cs[p].live
    ensures Wf(Take(cs, p), base, top)
  {
    var cs' := Take(cs, p);
    SameCuts(cs, cs');
    hide Take, ChunkOK, NoOverlap;
    forall q | q in cs' ensures ChunkOK(cs', base, top, q) {
      TakeChunk(cs, base, top, p, q);
    }
  }

  lemma ReleaseChunk(cs: Chunks, base: int, top: int, p: int, q: int)
    requires Wf(cs, base, top) && p in cs && cs[p].live && cs[p].prevLive && q in cs
    requires End(cs, p) in cs && cs[End(cs, p)].live
    ensures q in Release(cs, p) && ChunkOK(Release(cs, p), base, top, q)
  {
    assert ChunkOK(cs, base, top, p) && ChunkOK(cs, base, top, q) && ChunkOK(cs, base, top, End(cs, p));
    EndsDiffer(cs, base, top, p, q);
    hide Wf;
  }

  lemma ReleaseWf(cs: Chunks, base: int, top: int, p: int)
    requires Wf(cs, base, top) && p in cs && cs[p].live && cs[p].prevLive
    requires End(cs, p) in cs && cs[End(cs, p)].live
    ensures Wf(Release(cs, p), base, top)
  {
    var cs' := Release(cs, p);
    SameCuts(cs, cs');
    hide Release, ChunkOK, NoOverlap;
    forall q | q in cs' ensures ChunkOK(cs', base, top, q) {
      ReleaseChunk(cs, base, top, p, q);
    }
  }

  lemma ReleaseToTopChunk(cs: Chunks, base: int, top: int, p: int, q: int)
    requires Wf(cs, base, top) && p in cs && cs[p].live && cs[p].prevLive && End(cs, p) == top
    requires q in cs && q != p
    ensures ChunkOK(cs - {p}, base, p, q)
  {
    assert ChunkOK(cs, base, top, p) && ChunkOK(cs, base, top, q);
    EndsDiffer(cs, base, top, p, q);
    hide Wf;
  }

  /** The last chunk set free becomes part of top. */
  lemma ReleaseToTopWf(cs: Chunks, base: int, top: int, p: int)
    requires Wf(cs, base, top) && p in cs && cs[p].live && cs[p].prevLive && End(cs, p) == top
    ensures Wf(cs - {p}, base, p)
  {
    var cs' := cs - {p};
    assert ChunkOK(cs, base, top, p);
    assert NoOverlap(cs');
    assert base == p || base in cs';
    hide ChunkOK, NoOverlap;
    forall q | q in cs' ensures ChunkOK(cs', base, p, q) {
      ReleaseToTopChunk(cs, base, top, p, q);
    }
  }

  lemma BelowTop(cs: Chunks, base: int, top: int, q: int)
    requires Wf(cs, base, top) && q in cs
    ensures base <= q && End(cs, q) <= top && q < top && q % 8 == 0 && 16 <= cs[q].size && cs[q].size % 8 == 0
  {
    assert ChunkOK(cs, base, top, q);
  }

  /** Top, or its first part, put to use. */
  function TakeTop(cs: Chunks, top: int, nb: int): Chunks {
    cs[top := Chunk(nb, true, true)]
  }

  lemma TakeTopChunk(cs: Chunks, base: int, top: int, nb: int, q: int)
    requires Wf(cs, base, top) && 16 <= nb && nb % 8 == 0
    requires q in TakeTop(cs, top, nb)
    ensures ChunkOK(TakeTop(cs, top, nb), base, top + nb, q)
  {
    TopNotChunk(cs, base, top);
    assert top % 8 == 0 && base <= top;
    if q in cs { assert ChunkOK(cs, base, top, q); }
    hide Wf;
  }

  lemma TopNotChunk(cs: Chunks, base: int, top: int)
    requires Wf(cs, base, top)
    ensures top !in cs
  {
    if top in cs { BelowTop(cs, base, top, top); assert false; }
  }

  lemma TakeTopWf(cs: Chunks, base: int, top: int, nb: int)
    requires Wf(cs, base, top) && 16 <= nb && nb % 8 == 0
    ensures Wf(TakeTop(cs, top, nb), base, top + nb) && top !in cs
  {
    var cs' := TakeTop(cs, top, nb);
    TopNotChunk(cs, base, top);
    assert base in cs' && (top + nb) % 8 == 0;
    forall p, q | p in cs' && q in cs' && p < q ensures End(cs', p) <= q {
      if p in cs { BelowTop(cs, base, top, p); }
      if q in cs { BelowTop(cs, base, top, q); }
      if p in cs && q in cs { EndsDiffer(cs, base, top, p, q); }
      hide Wf;
    }
    hide ChunkOK, TakeTop;
    forall q | q in cs' ensures ChunkOK(cs', base, top + nb, q) {
      TakeTopChunk(cs, base, top, nb, q);
    }
  }

  /** A place inside a chunk is not a chunk. */
  lemma InsideNotChunk(cs: Chunks, base: int, top: int, p: int, x: int)
    requires Wf(cs, base, top) && p in cs && p < x < End(cs, p)
    ensures x !in cs
  {
    if x in cs { BelowTop(cs, base, top, x); assert false; }
  }

  lemma SplitChunk(cs: Chunks, base: int, top: int, p: int, nb: int, q: int)
    requires Wf(cs, base, top) && p in cs && cs[p].live
    requires 16 <= nb && nb % 8 == 0 && 16 <= cs[p].size - nb
    requires q in Split(cs, p, nb)
    ensures ChunkOK(Split(cs, p, nb), base, top, q)
  {
    BelowTop(cs, base, top, p);
    InsideNotChunk(cs, base, top, p, p + nb);
    EightParts(p, nb, cs[p].size);
    EachOK(cs, base, top, p);
    hide ChunkOK, Wf;
    if q == p || q == p + nb {
      PartOK(cs, base, top, p, nb, q);
    } else {
      EachOK(cs, base, top, q);
      EndsDiffer(cs, base, top, p, q);
      OtherOfSplit(cs, base, top, p, nb, q);
    }
  }

  lemma EachOK(cs: Chunks, base: int, top: int, p: int)
    requires Wf(cs, base, top) && p in cs
    ensures ChunkOK(cs, base, top, p)
  {
  }

  lemma EightParts(p: int, nb: int, s: int)
    requires p % 8 == 0 && nb % 8 == 0 && s % 8 == 0
    ensures (p + nb) % 8 == 0 && (s - nb) % 8 == 0
  {
    hide *;
    assert p + nb == 8 * (p / 8 + nb / 8) && s - nb == 8 * (s / 8 - nb / 8);
  }

  lemma EightSum(a: int, b: int)
    requires a % 8 == 0 && b % 8 == 0
    ensures (a + b) % 8 == 0
  {
    hide *;
    assert a + b == 8 * (a / 8 + b / 8);
  }

  lemma PartOK(cs: Chunks, base: int, top: int, p: int, nb: int, q: int)
    requires p in cs && ChunkOK(cs, base, top, p) && cs[p].live && p + nb !in cs && (q == p || q == p + nb)
    requires 16 <= nb && nb % 8 == 0 && 16 <= cs[p].size - nb && (p + nb) % 8 == 0 && (cs[p].size - nb) % 8 == 0
    ensures ChunkOK(Split(cs, p, nb), base, top, q)
  {
  }

  lemma OtherOfSplit(cs: Chunks, base: int, top: int, p: int, nb: int, q: int)
    requires p in cs && cs[p].live && p + nb !in cs && q in cs && q != p && ChunkOK(cs, base, top, q)
    requires End(cs, q) != p + nb
    ensures ChunkOK(Split(cs, p, nb), base, top, q)
  {
  }

  lemma SplitOverlap(cs: Chunks, base: int, top: int, p: int, nb: int, x: int, y: int)
    requires Wf(cs, base, top) && p in cs && 16 <= nb && 16 <= cs[p].size - nb
    requires x in Split(cs, p, nb) && y in Split(cs, p, nb) && x < y
    ensures End(Split(cs, p, nb), x) <= y
  {
    if x in cs { EndsDiffer(cs, base, top, p, x); }
    if y in cs { EndsDiffer(cs, base, top, p, y); }
    InsideNotChunk(cs, base, top, p, p + nb);
    if x in cs && y in cs { EndsDiffer(cs, base, top, x, y); }
    hide Wf;
  }

  lemma SplitWf(cs: Chunks, base: int, top: int, p: int, nb: int)
    requires Wf(cs, base, top) && p in cs && cs[p].live
    requires 16 <= nb && nb % 8 == 0 && 16 <= cs[p].size - nb
    ensures Wf(Split(cs, p, nb), base, top)
    ensures p + nb !in cs
  {
    var cs' := Split(cs, p, nb);
    BelowTop(cs, base, top, p);
    InsideNotChunk(cs, base, top, p, p + nb);
    assert base in cs';
    hide Split, ChunkOK;
    forall q | q in cs' ensures ChunkOK(cs', base, top, q) {
      SplitChunk(cs, base, top, p, nb, q);
    }
    forall x, y | x in cs' && y in cs' && x < y ensures End(cs', x) <= y {
      SplitOverlap(cs, base, top, p, nb, x, y);
    }
  }

  /** Two adjacent chunks p and n joined: the cuts. */
  lemma JoinOverlap(cs: Chunks, cs': Chunks, base: int, top: int, p: int)
    requires Wf(cs, base, top) && p in cs && End(cs, p) in cs
    requires cs'.Keys == cs.Keys - {End(cs, p)} && p in cs'
    requires cs'[p].size == cs[p].size + cs[End(cs, p)].size
    requires forall q | q in cs' && q != p :: cs'[q].size == cs[q].size
    ensures NoOverlap(cs')
  {
    var n := End(cs, p);
    BelowTop(cs, base, top, p);
    forall x, y | x in cs' && y in cs' && x < y ensures End(cs', x) <= y {
      EndsDiffer(cs, base, top, x, y);
      if x == p { EndsDiffer(cs, base, top, n, y); }
    }
  }

  lemma JoinNextChunk(cs: Chunks, base: int, top: int, p: int, q: int)
    requires Wf(cs, base, top) && p in cs && cs[p].live
    requires End(cs, p) in cs && !cs[End(cs, p)].live
    requires q in JoinNext(cs, p)
    ensures ChunkOK(JoinNext(cs, p), base, top, q)
  {
    var n := End(cs, p);
    EachOK(cs, base, top, p);
    EachOK(cs, base, top, n);
    EachOK(cs, base, top, q);
    EndsDiffer(cs, base, top, p, q);
    EndsDiffer(cs, base, top, n, q);
    EightParts(p, cs[p].size, cs[n].size);
    EightSum(cs[p].size, cs[n].size);
    hide Wf;
  }

  lemma JoinNextWf(cs: Chunks, base: int, top: int, p: int)
    requires Wf(cs, base, top) && p in cs && cs[p].live
    requires End(cs, p) in cs && !cs[End(cs, p)].live
    ensures Wf(JoinNext(cs, p), base, top)
  {
    var cs' := JoinNext(cs, p);
    var n := End(cs, p);
    assert ChunkOK(cs, base, top, p) && ChunkOK(cs, base, top, n);
    assert cs'.Keys == cs.Keys - {n};
    JoinOverlap(cs, cs', base, top, p);
    assert base in cs';
    hide JoinNext, ChunkOK, NoOverlap;
    forall q | q in cs' ensures ChunkOK(cs', base, top, q) {
      JoinNextChunk(cs, base, top, p, q);
    }
  }

  lemma JoinPrevChunk(cs: Chunks, base: int, top: int, q: int, x: int)
    requires Wf(cs, base, top) && q in cs && !cs[q].live
    requires End(cs, q) in cs && cs[End(cs, q)].live
    requires x in JoinPrev(cs, q)
    ensures ChunkOK(JoinPrev(cs, q), base, top, x)
  {
    var p := End(cs, q);
    assert ChunkOK(cs, base, top, q) && ChunkOK(cs, base, top, p) && ChunkOK(cs, base, top, x);
    EndsDiffer(cs, base, top, q, x);
    EndsDiffer(cs, base, top, p, x);
    hide Wf;
  }

  lemma JoinPrevWf(cs: Chunks, base: int, top: int, q: int)
    requires Wf(cs, base, top) && q in cs && !cs[q].live
    requires End(cs, q) in cs && cs[End(cs, q)].live
    ensures Wf(JoinPrev(cs, q), base, top)
  {
    var cs' := JoinPrev(cs, q);
    var p := End(cs, q);
    assert ChunkOK(cs, base, top, q) && ChunkOK(cs, base, top, p);
    assert cs'.Keys == cs.Keys - {p};
    JoinOverlap(cs, cs', base, top, q);
    assert base in cs';
    hide JoinPrev, ChunkOK, NoOverlap;
    forall x | x in cs' ensures ChunkOK(cs', base, top, x) {
      JoinPrevChunk(cs, base, top, q, x);
    }
  }

  /** The first nb bytes of a free chunk put to use; the remainder stays free. */
  function Carve(cs: Chunks, p: int, nb: int): Chunks
    requires p in cs
  {
    cs[p := Chunk(nb, true, true)][p + nb := Chunk(cs[p].size - nb, false, true)]
  }

  lemma CarveWf(cs: Chunks, base: int, top: int, p: int, nb: int)
    requires Wf(cs, base, top) && p in cs && !cs[p].live
    requires 16 <= nb && nb % 8 == 0 && 16 <= cs[p].size - nb
    ensures Wf(Carve(cs, p, nb), base, top) && p + nb !in cs
  {
    var cs1 := Take(cs, p);
    var cs2 := Split(cs1, p, nb);
    var r, n := p + nb, End(cs, p);
    assert ChunkOK(cs, base, top, p) && n in cs && n != p && n != r;
    FreeHasLivePrev(cs, base, top, p);
    BelowTop(cs, base, top, n);
    assert cs1[p] == Chunk(cs[p].size, true, true) && n in cs1 && cs1[n] == Chunk(cs[n].size, true, true);
    hide Wf, ChunkOK;
    TakeWf(cs, base, top, p);
    SplitWf(cs1, base, top, p, nb);
    assert cs2[r] == Chunk(cs[p].size - nb, true, true) && End(cs2, r) == n;
    ReleaseWf(cs2, base, top, r);
    assert Release(cs2, r) == Carve(cs, p, nb);
  }

  /** Two adjacent chunks in use joined to one. */
  function JoinLive(cs: Chunks, p: int): Chunks
    requires p in cs && End(cs, p) in cs
  {
    (cs - {End(cs, p)})[p := cs[p].(size := cs[p].size + cs[End(cs, p)].size)]
  }

  lemma JoinLiveChunk(cs: Chunks, base: int, top: int, p: int, q: int)
    requires Wf(cs, base, top) && p in cs && cs[p].live
    requires End(cs, p) in cs && cs[End(cs, p)].live && q in JoinLive(cs, p)
    ensures ChunkOK(JoinLive(cs, p), base, top, q)
  {
    var n := End(cs, p);
    assert ChunkOK(cs, base, top, p) && ChunkOK(cs, base, top, n) && ChunkOK(cs, base, top, q);
    EndsDiffer(cs, base, top, p, q);
    EndsDiffer(cs, base, top, n, q);
    hide Wf;
  }

  lemma JoinLiveWf(cs: Chunks, base: int, top: int, p: int)
    requires Wf(cs, base, top) && p in cs && cs[p].live
    requires End(cs, p) in cs && cs[End(cs, p)].live
    ensures Wf(JoinLive(cs, p), base, top)
  {
    var cs', n := JoinLive(cs, p), End(cs, p);
    assert ChunkOK(cs, base, top, p) && ChunkOK(cs, base, top, n);
    assert cs'.Keys == cs.Keys - {n};
    JoinOverlap(cs, cs', base, top, p);
    assert base in cs';
    hide JoinLive, ChunkOK, NoOverlap;
    forall q | q in cs' ensures ChunkOK(cs', base, top, q) {
      JoinLiveChunk(cs, base, top, p, q);
    }
  }
}
